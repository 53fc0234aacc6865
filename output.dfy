/** `write_seq_file` of src/main.rs: the record found by the lookup is saved
    as `<name>.fasta`, the id on the first line and then every line of the
    sequence, unless a file of that name already exists. The file system is
    not modelled: whether the file exists is an input, and the text the
    appending `writeln!` calls leave in a fresh file is the result. */
module Output {
  import opened Text
  import opened Fasta

  /** What `write_seq_file` does: leave an existing file alone (it only prints
      a message), or create the file with `content`. */
  datatype FileWrite = Skipped(fileName: string) | Created(fileName: string, content: string)

  /** `write_seq_file`: the id line, then one `writeln!` per line of the sequence. */
  method WriteSeqFile(name: string, id: string, sequence: string, fileExists: bool) returns (w: FileWrite)
    ensures w.fileName == name + ".fasta"
    ensures w.Skipped? <==> fileExists
    ensures w.Created? ==> w.content == Terminated([id] + Lines(sequence))
    ensures w.Created? && sequence == "" ==> w.content == id + "\n"
  {
    var fileName := name + ".fasta";
    if fileExists {
      return Skipped(fileName);
    }
    var ls := Lines(sequence);
    var content := id + "\n";
    assert [id][..0] == [];
    for i := 0 to |ls|
      invariant content == Terminated([id] + ls[..i])
    {
      assert ([id] + ls[..i + 1])[..i + 1] == [id] + ls[..i];
      content := content + ls[i] + "\n";
    }
    assert ls[..|ls|] == ls;
    w := Created(fileName, content);
  }

  /** The written text splits back into the id and the lines of the sequence,
      each verbatim: nothing is wrapped or re-flowed. */
  lemma WrittenLines(id: string, sequence: string)
    requires '\n' !in id && '\r' !in id && '\r' !in sequence
    ensures Lines(Terminated([id] + Lines(sequence))) == [id] + Lines(sequence)
  {
    LinesChars(sequence);
    var ls := [id] + Lines(sequence);
    forall l | l in ls
      ensures '\n' !in l && (l == [] || l[|l| - 1] != '\r')
    {
      if l != id {
        assert l in Lines(sequence);
        if l != [] {
          assert l[|l| - 1] in l;
        }
      } else if l != [] {
        assert l[|l| - 1] in id;
      }
    }
    LinesOfTerminated(ls);
  }

  /** A header line, or an empty line, in front of the body adds nothing to
      the body. */
  lemma {:induction false} BodyAfterHeader(id: string, ls: seq<string>, k: nat)
    requires (IsHeader(id) || id == "") && k <= |ls|
    ensures BodyOf([id] + ls, 0, k + 1) == BodyOf(ls, 0, k)
  {
    if k > 0 {
      BodyAfterHeader(id, ls, k - 1);
      assert ([id] + ls)[k] == ls[k - 1];
    }
  }

  /** The id line is the only header when no sequence line is one. */
  lemma {:induction false} OneHeader(id: string, ls: seq<string>, k: nat)
    requires IsHeader(id) && k <= |ls| && forall l :: l in ls ==> !IsHeader(l)
    ensures HeaderCount([id] + ls, k + 1) == 1
  {
    if k > 0 {
      OneHeader(id, ls, k - 1);
      assert ([id] + ls)[k] == ls[k - 1];
    }
  }

  /** Reading a written file back with the single-record reader gives one
      record, keyed by the trimmed id, whose value is every sequence line
      trimmed and joined. The id is a header, or "" as the lookup returns for
      a file without one. */
  lemma WriteThenReadSingle(id: string, sequence: string)
    requires (IsHeader(id) || id == "") && '\n' !in id && '\r' !in id && '\r' !in sequence
    requires forall l :: l in Lines(sequence) ==> !IsHeader(l)
    ensures ReadSingle(Lines(Terminated([id] + Lines(sequence))))
      == map[Trim(id) := BodyOf(Lines(sequence), 0, |Lines(sequence)|)]
  {
    WrittenLines(id, sequence);
    var ls := Lines(sequence);
    if id == "" {
      NoHeaderAtAll(ls);
    } else {
      IdIsLastHeader(id, ls);
    }
    SingleEntry([id] + ls);
    BodyAfterHeader(id, ls, |ls|);
  }

  lemma NoHeaderAtAll(ls: seq<string>)
    requires forall l :: l in ls ==> !IsHeader(l)
    ensures NoHeader([""] + ls, 0, |ls| + 1)
  {
    var lines := [""] + ls;
    forall k | 1 <= k < |lines| ensures !IsHeader(lines[k]) {
      assert lines[k] == ls[k - 1];
    }
  }

  lemma IdIsLastHeader(id: string, ls: seq<string>)
    requires IsHeader(id) && forall l :: l in ls ==> !IsHeader(l)
    ensures LastHeader([id] + ls, 0, |ls| + 1)
  {
    var lines := [id] + ls;
    forall k | 1 <= k < |lines| ensures !IsHeader(lines[k]) {
      assert lines[k] == ls[k - 1];
    }
  }

  /** A one-line sequence without surrounding whitespace comes back unchanged. */
  lemma WriteThenReadSingleLine(id: string, sequence: string)
    requires IsHeader(id) && Trim(id) == id && '\n' !in id && '\r' !in id
    requires sequence != [] && !IsHeader(sequence) && Trim(sequence) == sequence
    requires '\n' !in sequence && '\r' !in sequence
    ensures ReadSingle(Lines(Terminated([id] + Lines(sequence)))) == map[id := sequence]
  {
    assert NewlineFrom(sequence, 0) == |sequence|;
    assert Lines(sequence) == [sequence];
    WriteThenReadSingle(id, sequence);
    assert BodyOf([sequence], 0, 1) == Trim(sequence);
  }

  /** The multi-record reader never stores the last record, so a written file,
      which holds a single record, reads back as an empty map. */
  lemma WriteThenReadMultiple(id: string, sequence: string)
    requires IsHeader(id) && '\n' !in id && '\r' !in id && '\r' !in sequence
    requires forall l :: l in Lines(sequence) ==> !IsHeader(l)
    ensures ReadMultiple(Lines(Terminated([id] + Lines(sequence)))) == map[]
  {
    WrittenLines(id, sequence);
    var ls := Lines(sequence);
    OneHeader(id, ls, |ls|);
    MultipleSize([id] + ls);
  }
}
