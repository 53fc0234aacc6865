/** The Rust standard-library string operations the FASTA tool is built on:
    `char::is_whitespace`, `str::trim`, `str::contains` and `str::lines`.
    Strings are sequences of Unicode scalar values, as Rust's `char`s are. */
module Text {

  /** `char::is_whitespace`: the characters with the Unicode White_Space property. */
  const Whitespace: set<char> := {
    '\U{9}', '\U{A}', '\U{B}', '\U{C}', '\U{D}', ' ', '\U{85}', '\U{A0}', '\U{1680}',
    '\U{2000}', '\U{2001}', '\U{2002}', '\U{2003}', '\U{2004}', '\U{2005}', '\U{2006}',
    '\U{2007}', '\U{2008}', '\U{2009}', '\U{200A}', '\U{2028}', '\U{2029}', '\U{202F}',
    '\U{205F}', '\U{3000}'
  }

  predicate IsWhitespace(c: char) {
    c in Whitespace
  }

  predicate AllWhitespace(s: string) {
    forall i :: 0 <= i < |s| ==> IsWhitespace(s[i])
  }

  /** `str::trim`: drops leading and trailing whitespace, one character at a
      time from whichever end still has some. */
  function Trim(s: string): string
    decreases |s|
  {
    if |s| > 0 && IsWhitespace(s[0]) then Trim(s[1..])
    else if |s| > 0 && IsWhitespace(s[|s| - 1]) then Trim(s[..|s| - 1])
    else s
  }

  /** What `Trim` keeps is s[i..i + |Trim(s)|], with only whitespace before and
      after it. */
  predicate TrimmedAt(s: string, i: int) {
    0 <= i <= |s| - |Trim(s)| && s[i..i + |Trim(s)|] == Trim(s)
    && AllWhitespace(s[..i]) && AllWhitespace(s[i + |Trim(s)|..])
  }

  /** What `Trim` keeps is a contiguous piece of its input with only whitespace
      on either side. */
  lemma {:induction false} TrimOffset(s: string) returns (i: nat)
    ensures TrimmedAt(s, i)
    decreases |s|
  {
    if |s| > 0 && IsWhitespace(s[0]) {
      var j := TrimOffset(s[1..]);
      i := j + 1;
      TrimmedAtFront(s, j);
    } else if |s| > 0 && IsWhitespace(s[|s| - 1]) {
      i := TrimOffset(s[..|s| - 1]);
      TrimmedAtBack(s, i);
    } else {
      i := 0;
      assert s[..0] == [] && s[|s|..] == [];
    }
  }

  lemma TrimmedAtFront(s: string, j: int)
    requires |s| > 0 && IsWhitespace(s[0]) && TrimmedAt(s[1..], j)
    ensures TrimmedAt(s, j + 1)
  {
    var t, r, i := s[1..], Trim(s), j + 1;
    assert r == Trim(t);
    assert s[i..i + |r|] == t[j..j + |r|];
    assert s[i + |r|..] == t[j + |r|..];
    assert s[..i] == [s[0]] + t[..j];
  }

  lemma TrimmedAtBack(s: string, i: int)
    requires |s| > 0 && !IsWhitespace(s[0]) && IsWhitespace(s[|s| - 1]) && TrimmedAt(s[..|s| - 1], i)
    ensures TrimmedAt(s, i)
  {
    var t, r := s[..|s| - 1], Trim(s);
    assert r == Trim(t);
    assert s[..i] == t[..i];
    assert s[i..i + |r|] == t[i..i + |r|];
    assert s[i + |r|..] == t[i + |r|..] + [s[|s| - 1]];
  }

  /** `Trim` gives the empty string exactly for an all-whitespace input, and
      otherwise a string that starts and ends with a non-whitespace character. */
  lemma {:induction false} TrimEnds(s: string)
    ensures Trim(s) == [] <==> AllWhitespace(s)
    ensures Trim(s) != [] ==> !IsWhitespace(Trim(s)[0]) && !IsWhitespace(Trim(s)[|Trim(s)| - 1])
    decreases |s|
  {
    if |s| > 0 && IsWhitespace(s[0]) {
      var t := s[1..];
      TrimEnds(t);
      assert AllWhitespace(s) <==> AllWhitespace(t) by {
        assert forall k :: 0 < k < |s| ==> s[k] == t[k - 1];
      }
    } else if |s| > 0 && IsWhitespace(s[|s| - 1]) {
      var t := s[..|s| - 1];
      TrimEnds(t);
      assert AllWhitespace(s) <==> AllWhitespace(t) by {
        assert forall k :: 0 <= k < |t| ==> s[k] == t[k];
      }
    }
  }

  /** A string that does not start with whitespace keeps its first character. */
  lemma {:induction false} TrimKeepsFirst(s: string)
    requires |s| > 0 && !IsWhitespace(s[0])
    ensures Trim(s) != [] && Trim(s)[0] == s[0]
    decreases |s|
  {
    if IsWhitespace(s[|s| - 1]) {
      TrimKeepsFirst(s[..|s| - 1]);
    }
  }

  /** Trimming twice is trimming once. */
  lemma TrimIdempotent(s: string)
    ensures Trim(Trim(s)) == Trim(s)
  {
    TrimEnds(s);
    var r := Trim(s);
    assert r == [] || (!IsWhitespace(r[0]) && !IsWhitespace(r[|r| - 1]));
  }

  /** `str::contains` with a string pattern: `t` occurs in `s` at some offset. */
  predicate Contains(s: string, t: string) {
    exists i :: 0 <= i <= |s| - |t| && OccursAt(s, t, i)
  }

  predicate OccursAt(s: string, t: string, i: int) {
    0 <= i <= |s| - |t| && s[i..i + |t|] == t
  }

  /** Every string contains the empty pattern. */
  lemma ContainsEmpty(s: string)
    ensures Contains(s, "")
  {
    assert OccursAt(s, "", 0);
  }

  /** Every string contains itself. */
  lemma ContainsSelf(s: string)
    ensures Contains(s, s)
  {
    assert OccursAt(s, s, 0);
  }

  /** The index of the first '\n' at or after `from`, or |s| when there is none. */
  function NewlineFrom(s: string, from: nat): (k: nat)
    requires from <= |s|
    ensures from <= k <= |s|
    ensures k < |s| ==> s[k] == '\n'
    ensures forall j :: from <= j < k ==> s[j] != '\n'
    decreases |s| - from
  {
    if from == |s| || s[from] == '\n' then from else NewlineFrom(s, from + 1)
  }

  function StripCarriageReturn(line: string): string {
    if |line| > 0 && line[|line| - 1] == '\r' then line[..|line| - 1] else line
  }

  /** `str::lines`: the pieces between "\n" terminators, a "\r" right before a
      "\n" dropped with it; a final piece without a terminator is kept as it is,
      and the empty string has no lines. */
  function Lines(s: string): seq<string>
    decreases |s|
  {
    if s == [] then []
    else
      var k := NewlineFrom(s, 0);
      if k == |s| then [s] else [StripCarriageReturn(s[..k])] + Lines(s[k + 1..])
  }

  /** The lines of a string are made of its characters and never hold a "\n". */
  lemma {:induction false} LinesChars(s: string)
    ensures forall l, c :: l in Lines(s) && c in l ==> c in s && c != '\n'
  {
    if s != [] {
      var k := NewlineFrom(s, 0);
      if k < |s| {
        LinesChars(s[k + 1..]);
        forall l, c | l in Lines(s) && c in l ensures c in s && c != '\n' {
          if l == StripCarriageReturn(s[..k]) {
            assert c in s[..k];
          } else {
            assert l in Lines(s[k + 1..]);
          }
        }
      }
    }
  }

  /** A line terminated by "\n" and followed by more text is split off first. */
  lemma {:induction false} LinesCons(line: string, rest: string)
    requires '\n' !in line && (line == [] || line[|line| - 1] != '\r')
    ensures Lines(line + "\n" + rest) == [line] + Lines(rest)
  {
    var s := line + "\n" + rest;
    NewlineAt(s, 0, |line|);
    assert s[..|line|] == line;
    assert s[|line| + 1..] == rest;
  }

  lemma {:induction false} NewlineAt(s: string, from: nat, k: nat)
    requires from <= k < |s| && s[k] == '\n'
    requires forall j :: from <= j < k ==> s[j] != '\n'
    ensures NewlineFrom(s, from) == k
    decreases k - from
  {
    if from < k {
      NewlineAt(s, from + 1, k);
    }
  }

  /** The text `writeln!` produces for a sequence of lines: each followed by "\n". */
  function Terminated(ls: seq<string>): string {
    if ls == [] then "" else Terminated(ls[..|ls| - 1]) + ls[|ls| - 1] + "\n"
  }

  lemma {:induction false} TerminatedCons(l: string, ls: seq<string>)
    ensures Terminated([l] + ls) == l + "\n" + Terminated(ls)
    decreases |ls|
  {
    if ls != [] {
      var last := ls[|ls| - 1];
      assert ([l] + ls)[..|ls|] == [l] + ls[..|ls| - 1];
      TerminatedCons(l, ls[..|ls| - 1]);
    } else {
      assert ([l] + ls)[..0] == [];
    }
  }

  /** Splitting terminated lines gives the lines back, when none of them holds
      a "\n" or ends with a "\r" that the split would take for part of "\r\n". */
  lemma {:induction false} LinesOfTerminated(ls: seq<string>)
    requires forall l :: l in ls ==> '\n' !in l && (l == [] || l[|l| - 1] != '\r')
    ensures Lines(Terminated(ls)) == ls
    decreases |ls|
  {
    if ls != [] {
      TerminatedCons(ls[0], ls[1..]);
      assert [ls[0]] + ls[1..] == ls;
      LinesCons(ls[0], Terminated(ls[1..]));
      LinesOfTerminated(ls[1..]);
    }
  }
}
