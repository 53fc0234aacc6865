/** The two FASTA line parsers of src/main.rs. Both scan the lines of a file
    once, with a current-identifier buffer `curid`, a current-sequence buffer
    `curseq` and the map being built. They differ only in what a header line
    does: the multi-record parser flushes the pending record first, and the
    single-record parser inserts once, after the loop. The gzip variants run
    the same loops over decompressed text, so one model covers both sources. */
module Fasta {
  import opened Text

  /** `line.starts_with('>')`: the line is a record header. */
  predicate IsHeader(line: string) {
    |line| > 0 && line[0] == '>'
  }

  datatype Mode = Single | Multiple

  /** The loop's mutable state: the map, `curid` and `curseq`. */
  datatype Parser = Parser(fasta: map<string, string>, curid: string, curseq: string)

  const Start := Parser(map[], "", "")

  /** One iteration of the loop body. */
  function Step(mode: Mode, p: Parser, line: string): Parser {
    if IsHeader(line) then
      if mode == Multiple && p.curid != "" then Parser(p.fasta[p.curid := p.curseq], Trim(line), "")
      else p.(curid := Trim(line))
    else
      p.(curseq := p.curseq + Trim(line))
  }

  /** The parser's state after the first n lines. */
  function After(mode: Mode, lines: seq<string>, n: nat): Parser
    requires n <= |lines|
  {
    if n == 0 then Start else Step(mode, After(mode, lines, n - 1), lines[n - 1])
  }

  /** What `read_multiple_fasta` returns: the map as the loop leaves it. */
  function ReadMultiple(lines: seq<string>): map<string, string> {
    After(Multiple, lines, |lines|).fasta
  }

  /** What `read_single_fasta` returns: the one entry inserted after the loop. */
  function ReadSingle(lines: seq<string>): map<string, string> {
    var p := After(Single, lines, |lines|);
    p.fasta[p.curid := p.curseq]
  }

  // ---------------------------------------------------------------------------
  // The parsers as the source runs them

  /** `read_multiple_fasta` / `read_multiple_fasta_deco` over the lines of the file. */
  method ReadMultipleFasta(lines: seq<string>) returns (fasta: map<string, string>)
    ensures fasta == ReadMultiple(lines)
  {
    fasta := map[];
    var curid, curseq := "", "";
    for i := 0 to |lines|
      invariant Parser(fasta, curid, curseq) == After(Multiple, lines, i)
    {
      var line := lines[i];
      if IsHeader(line) {
        if curid != "" {
          fasta := fasta[curid := curseq];
          curseq := "";
        }
        curid := Trim(line);
      } else {
        curseq := curseq + Trim(line);
      }
    }
  }

  /** `read_single_fasta` / `read_single_fasta_deco` over the lines of the file. */
  method ReadSingleFasta(lines: seq<string>) returns (fasta: map<string, string>)
    ensures fasta == ReadSingle(lines)
  {
    fasta := map[];
    var curid, curseq := "", "";
    for i := 0 to |lines|
      invariant Parser(fasta, curid, curseq) == After(Single, lines, i)
    {
      var line := lines[i];
      if IsHeader(line) {
        curid := Trim(line);
      } else {
        curseq := curseq + Trim(line);
      }
    }
    fasta := fasta[curid := curseq];
  }

  // ---------------------------------------------------------------------------
  // Vocabulary for the properties

  /** No header among lines[a..b]. */
  predicate NoHeader(lines: seq<string>, a: nat, b: nat)
    requires b <= |lines|
  {
    forall k :: a <= k < b ==> !IsHeader(lines[k])
  }

  /** lines[h] is the last header among the first n lines. */
  predicate LastHeader(lines: seq<string>, h: nat, n: nat)
    requires n <= |lines|
  {
    h < n && IsHeader(lines[h]) && NoHeader(lines, h + 1, n)
  }

  /** The trimmed text of the non-header lines among lines[a..b], concatenated. */
  function BodyOf(lines: seq<string>, a: nat, b: nat): string
    requires a <= b <= |lines|
    decreases b - a
  {
    if a == b then ""
    else BodyOf(lines, a, b - 1) + (if IsHeader(lines[b - 1]) then "" else Trim(lines[b - 1]))
  }

  /** The number of header lines among the first n lines. */
  function HeaderCount(lines: seq<string>, n: nat): nat
    requires n <= |lines|
  {
    if n == 0 then 0 else HeaderCount(lines, n - 1) + (if IsHeader(lines[n - 1]) then 1 else 0)
  }

  // ---------------------------------------------------------------------------
  // Trimmed headers

  /** A trimmed header line is still a header and is its own trim; in
      particular it is never empty. */
  lemma TrimmedHeader(line: string)
    requires IsHeader(line)
    ensures IsHeader(Trim(line)) && Trim(Trim(line)) == Trim(line)
  {
    assert !IsWhitespace('>');
    TrimKeepsFirst(line);
    TrimIdempotent(line);
  }

  // ---------------------------------------------------------------------------
  // The state after n lines, in terms of the lines

  /** `curid` is empty exactly until the first header has been read. */
  lemma {:induction false} CurIdEmpty(mode: Mode, lines: seq<string>, n: nat)
    requires n <= |lines|
    ensures After(mode, lines, n).curid == "" <==> NoHeader(lines, 0, n)
  {
    if n > 0 {
      CurIdEmpty(mode, lines, n - 1);
      if IsHeader(lines[n - 1]) {
        TrimmedHeader(lines[n - 1]);
      }
    }
  }

  /** After the last header h of the first n lines, `curid` is that header
      trimmed, in either parser. */
  lemma {:induction false} CurIdIsLast(mode: Mode, lines: seq<string>, h: nat, n: nat)
    requires n <= |lines| && LastHeader(lines, h, n)
    ensures After(mode, lines, n).curid == Trim(lines[h])
  {
    if h < n - 1 {
      CurIdIsLast(mode, lines, h, n - 1);
    }
  }

  /** Lines without a header leave the map and `curid` alone and append their
      trimmed text to `curseq`. */
  lemma {:induction false} BodyRun(mode: Mode, lines: seq<string>, m: nat, n: nat)
    requires m <= n <= |lines| && NoHeader(lines, m, n)
    ensures After(mode, lines, n) == After(mode, lines, m).(curseq := After(mode, lines, m).curseq + BodyOf(lines, m, n))
    decreases n - m
  {
    if m < n {
      BodyRun(mode, lines, m, n - 1);
    }
  }

  /** Before any header the state is an empty map with every trimmed line so
      far in `curseq`. */
  lemma NoHeaderYet(mode: Mode, lines: seq<string>, n: nat)
    requires n <= |lines| && NoHeader(lines, 0, n)
    ensures After(mode, lines, n) == Parser(map[], "", BodyOf(lines, 0, n))
  {
    BodyRun(mode, lines, 0, n);
  }

  lemma {:induction false} BodyConcat(lines: seq<string>, a: nat, b: nat, c: nat)
    requires a <= b <= c <= |lines|
    ensures BodyOf(lines, a, c) == BodyOf(lines, a, b) + BodyOf(lines, b, c)
    decreases c - b
  {
    if b < c {
      BodyConcat(lines, a, b, c - 1);
    }
  }

  /** Some header among lines[m..n] is the last one before n. */
  lemma {:induction false} LastHeaderExists(lines: seq<string>, m: nat, n: nat) returns (h: nat)
    requires m <= n <= |lines| && !NoHeader(lines, m, n)
    ensures m <= h && LastHeader(lines, h, n)
  {
    if IsHeader(lines[n - 1]) {
      h := n - 1;
    } else {
      h := LastHeaderExists(lines, m, n - 1);
    }
  }

  /** A header read while the record of header h is pending flushes it: the
      multi-record map gains it, `curid` becomes the new header and `curseq`
      is emptied. */
  lemma Flush(lines: seq<string>, h: nat, n: nat)
    requires n < |lines| && LastHeader(lines, h, n) && IsHeader(lines[n])
    ensures After(Multiple, lines, n + 1) ==
      Parser(After(Multiple, lines, n).fasta[Trim(lines[h]) := After(Multiple, lines, n).curseq], Trim(lines[n]), "")
  {
    CurIdIsLast(Multiple, lines, h, n);
    TrimmedHeader(lines[h]);
  }

  /** While the record of the last header h is pending, the multi-record
      `curseq` holds the trimmed body lines since h, preceded by the lines
      before h when h is the first header at all. */
  lemma CurSeqSince(lines: seq<string>, h: nat, n: nat)
    requires n <= |lines| && LastHeader(lines, h, n)
    ensures NoHeader(lines, 0, h) ==> After(Multiple, lines, n).curseq == BodyOf(lines, 0, n)
    ensures !NoHeader(lines, 0, h) ==> After(Multiple, lines, n).curseq == BodyOf(lines, h + 1, n)
  {
    BodyRun(Multiple, lines, h + 1, n);
    if NoHeader(lines, 0, h) {
      NoHeaderYet(Multiple, lines, h);
      BodyConcat(lines, 0, h + 1, n);
    } else {
      var g := LastHeaderExists(lines, 0, h);
      Flush(lines, g, h);
    }
  }

  // ---------------------------------------------------------------------------
  // Multi-record parser: keys

  /** Every key of the multi-record map after n lines was flushed by a header j
      from an earlier header i. */
  lemma {:induction false} KeyWitness(lines: seq<string>, n: nat, key: string) returns (i: nat, j: nat)
    requires n <= |lines| && key in After(Multiple, lines, n).fasta
    ensures i < j < n && IsHeader(lines[i]) && IsHeader(lines[j]) && Trim(lines[i]) == key
  {
    if key in After(Multiple, lines, n - 1).fasta {
      i, j := KeyWitness(lines, n - 1, key);
    } else {
      CurIdEmpty(Multiple, lines, n - 1);
      i := LastHeaderExists(lines, 0, n - 1);
      CurIdIsLast(Multiple, lines, i, n - 1);
      j := n - 1;
    }
  }

  /** A header i followed by a header j before line n puts the trimmed header
      i among the keys of the multi-record map after n lines. */
  lemma {:induction false} KeyFromHeaders(lines: seq<string>, n: nat, i: nat, j: nat)
    requires i < j < n <= |lines| && IsHeader(lines[i]) && IsHeader(lines[j])
    ensures Trim(lines[i]) in After(Multiple, lines, n).fasta
  {
    if j < n - 1 {
      KeyFromHeaders(lines, n - 1, i, j);
    } else {
      var h := LastHeaderExists(lines, i, n - 1);
      Flush(lines, h, n - 1);
      if h != i {
        KeyFromHeaders(lines, n - 1, i, h);
      }
    }
  }

  /** The keys of the multi-record map are exactly the trimmed header lines
      that some later header follows; each starts with '>', so is non-empty,
      and is its own trim. */
  lemma MultipleKeys(lines: seq<string>)
    ensures forall k :: k in ReadMultiple(lines) <==>
      exists i: nat, j: nat :: i < j < |lines| && IsHeader(lines[i]) && IsHeader(lines[j]) && Trim(lines[i]) == k
    ensures forall k :: k in ReadMultiple(lines) ==> IsHeader(k) && Trim(k) == k
  {
    forall k | k in ReadMultiple(lines)
      ensures exists i: nat, j: nat :: i < j < |lines| && IsHeader(lines[i]) && IsHeader(lines[j]) && Trim(lines[i]) == k
      ensures IsHeader(k) && Trim(k) == k
    {
      var i, j := KeyWitness(lines, |lines|, k);
      TrimmedHeader(lines[i]);
    }
    forall k | exists i: nat, j: nat :: i < j < |lines| && IsHeader(lines[i]) && IsHeader(lines[j]) && Trim(lines[i]) == k
      ensures k in ReadMultiple(lines)
    {
      var i: nat, j: nat :| i < j < |lines| && IsHeader(lines[i]) && IsHeader(lines[j]) && Trim(lines[i]) == k;
      KeyFromHeaders(lines, |lines|, i, j);
    }
  }

  // ---------------------------------------------------------------------------
  // Multi-record parser: values

  /** A key stored by the flush at header j keeps its value up to line n
      while no header with that text is flushed again. */
  lemma {:induction false} KeepsValue(lines: seq<string>, key: string, j: nat, n: nat)
    requires j < n <= |lines| && IsHeader(lines[j]) && key in After(Multiple, lines, j + 1).fasta
    requires forall k :: j <= k < n && IsHeader(lines[k]) && Trim(lines[k]) == key ==> NoHeader(lines, k + 1, n)
    ensures key in After(Multiple, lines, n).fasta
    ensures After(Multiple, lines, n).fasta[key] == After(Multiple, lines, j + 1).fasta[key]
  {
    if j + 1 < n {
      KeepsValue(lines, key, j, n - 1);
      var before := After(Multiple, lines, n - 1);
      if IsHeader(lines[n - 1]) {
        var h := LastHeaderExists(lines, j, n - 1);
        Flush(lines, h, n - 1);
        assert Trim(lines[h]) != key;
        assert After(Multiple, lines, n).fasta == before.fasta[Trim(lines[h]) := before.curseq];
      } else {
        assert After(Multiple, lines, n).fasta == before.fasta;
      }
    }
  }

  /** Header i followed by header j: the multi-record map sends the trimmed
      header i to the trimmed non-header lines between them, unless a later
      header with the same text is flushed again (the later flush wins). When
      i is the first header, the body lines before it come first. */
  lemma RecordBetween(lines: seq<string>, i: nat, j: nat)
    requires i < j < |lines| && IsHeader(lines[i]) && IsHeader(lines[j]) && NoHeader(lines, i + 1, j)
    requires forall k :: j <= k < |lines| && IsHeader(lines[k]) && Trim(lines[k]) == Trim(lines[i]) ==> NoHeader(lines, k + 1, |lines|)
    ensures Trim(lines[i]) in ReadMultiple(lines)
    ensures NoHeader(lines, 0, i) ==> ReadMultiple(lines)[Trim(lines[i])] == BodyOf(lines, 0, i) + BodyOf(lines, i + 1, j)
    ensures !NoHeader(lines, 0, i) ==> ReadMultiple(lines)[Trim(lines[i])] == BodyOf(lines, i + 1, j)
  {
    Flush(lines, i, j);
    CurSeqSince(lines, i, j);
    KeepsValue(lines, Trim(lines[i]), j, |lines|);
    if NoHeader(lines, 0, i) {
      BodyConcat(lines, 0, i + 1, j);
      assert BodyOf(lines, 0, i + 1) == BodyOf(lines, 0, i);
    }
  }

  // ---------------------------------------------------------------------------
  // Multi-record parser: what it loses

  /** The map plus the pending record never outnumber the headers read. */
  lemma {:induction false} SizeAfter(lines: seq<string>, n: nat)
    requires n <= |lines|
    ensures |After(Multiple, lines, n).fasta| + (if After(Multiple, lines, n).curid != "" then 1 else 0) <= HeaderCount(lines, n)
  {
    if n > 0 {
      SizeAfter(lines, n - 1);
      if IsHeader(lines[n - 1]) {
        TrimmedHeader(lines[n - 1]);
      }
    }
  }

  /** The pending record is never inserted: the multi-record map has at most
      one entry fewer than there are headers, and none at all for an input
      with fewer than two headers. */
  lemma MultipleSize(lines: seq<string>)
    ensures |ReadMultiple(lines)| <= if HeaderCount(lines, |lines|) == 0 then 0 else HeaderCount(lines, |lines|) - 1
    ensures HeaderCount(lines, |lines|) <= 1 ==> ReadMultiple(lines) == map[]
  {
    SizeAfter(lines, |lines|);
    CurIdEmpty(Multiple, lines, |lines|);
    if HeaderCount(lines, |lines|) > 0 && NoHeader(lines, 0, |lines|) {
      NoHeaderCount(lines, |lines|);
    }
  }

  lemma {:induction false} NoHeaderCount(lines: seq<string>, n: nat)
    requires n <= |lines| && NoHeader(lines, 0, n)
    ensures HeaderCount(lines, n) == 0
  {
    if n > 0 {
      NoHeaderCount(lines, n - 1);
    }
  }

  /** Lines after the last header never reach the multi-record map: appending
      header-free lines to the input leaves the map as it was. */
  lemma IgnoresTrailingBody(lines: seq<string>, tail: seq<string>)
    requires forall k :: 0 <= k < |tail| ==> !IsHeader(tail[k])
    ensures ReadMultiple(lines + tail) == ReadMultiple(lines)
  {
    SamePrefix(Multiple, lines + tail, lines, |lines|);
    BodyRun(Multiple, lines + tail, |lines|, |lines + tail|);
  }

  /** Inputs that agree on their first n lines agree on the state after them. */
  lemma {:induction false} SamePrefix(mode: Mode, a: seq<string>, b: seq<string>, n: nat)
    requires n <= |a| && n <= |b| && a[..n] == b[..n]
    ensures After(mode, a, n) == After(mode, b, n)
  {
    if n > 0 {
      assert a[..n - 1] == a[..n][..n - 1];
      assert b[..n - 1] == b[..n][..n - 1];
      assert a[n - 1] == a[..n][n - 1];
      SamePrefix(mode, a, b, n - 1);
    }
  }

  // ---------------------------------------------------------------------------
  // Whitespace-only lines

  /** A whitespace-only line changes nothing, in either parser: it is not a
      header and trims to the empty string. */
  lemma {:induction false} BlankLineAfter(mode: Mode, lines: seq<string>, i: nat, w: string, n: nat)
    requires i <= n <= |lines| && AllWhitespace(w)
    ensures After(mode, lines[..i] + [w] + lines[i..], n + 1) == After(mode, lines, n)
  {
    var padded := lines[..i] + [w] + lines[i..];
    if n == i {
      assert padded[..i] == lines[..i];
      SamePrefix(mode, padded, lines, i);
      assert padded[i] == w;
      assert w != [] ==> IsWhitespace(w[0]) && w[0] != '>';
      TrimEnds(w);
    } else {
      BlankLineAfter(mode, lines, i, w, n - 1);
      assert padded[n] == lines[n - 1];
    }
  }

  /** Neither parser's result notices a whitespace-only line, wherever it is. */
  lemma BlankLine(lines: seq<string>, i: nat, w: string)
    requires i <= |lines| && AllWhitespace(w)
    ensures ReadMultiple(lines[..i] + [w] + lines[i..]) == ReadMultiple(lines)
    ensures ReadSingle(lines[..i] + [w] + lines[i..]) == ReadSingle(lines)
  {
    BlankLineAfter(Multiple, lines, i, w, |lines|);
    BlankLineAfter(Single, lines, i, w, |lines|);
  }

  // ---------------------------------------------------------------------------
  // Single-record parser

  /** The single-record loop never touches the map and gathers every body
      line into `curseq`. */
  lemma {:induction false} SingleBody(lines: seq<string>, n: nat)
    requires n <= |lines|
    ensures After(Single, lines, n).fasta == map[]
    ensures After(Single, lines, n).curseq == BodyOf(lines, 0, n)
  {
    if n > 0 {
      SingleBody(lines, n - 1);
    }
  }

  /** The single-record parser returns exactly one entry: the trimmed last
      header (or "" if there is none) mapped to the trimmed text of every
      non-header line of the input, wherever it stands. */
  lemma SingleEntry(lines: seq<string>)
    ensures |ReadSingle(lines)| == 1
    ensures NoHeader(lines, 0, |lines|) ==> ReadSingle(lines) == map["" := BodyOf(lines, 0, |lines|)]
    ensures forall h: nat :: LastHeader(lines, h, |lines|) ==>
      ReadSingle(lines) == map[Trim(lines[h]) := BodyOf(lines, 0, |lines|)]
    ensures lines == [] ==> ReadSingle(lines) == map["" := ""]
  {
    SingleBody(lines, |lines|);
    CurIdEmpty(Single, lines, |lines|);
    forall h: nat | LastHeader(lines, h, |lines|)
      ensures ReadSingle(lines) == map[Trim(lines[h]) := BodyOf(lines, 0, |lines|)]
    {
      CurIdIsLast(Single, lines, h, |lines|);
    }
  }
}
