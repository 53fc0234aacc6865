/** Small worked inputs for the readers and the lookup, each stated as a lemma
    about the specification functions. */
module Scenarios {
  import opened Text
  import opened Fasta
  import opened Lookup

  /** Two records; the second body line carries a trailing blank. */
  const TwoRecords: seq<string> := [">a", "AC", "GT ", ">b", "T"]

  lemma TrimOfLines()
    ensures Trim(">a") == ">a" && Trim(">b") == ">b"
    ensures Trim("AC") == "AC" && Trim("GT ") == "GT" && Trim("T") == "T"
  {
    assert "GT "[..2] == "GT";
  }

  /** Both readers agree up to the second header. */
  lemma FirstRecord(mode: Mode)
    ensures After(mode, TwoRecords, 3) == Parser(map[], ">a", "ACGT")
  {
    TrimOfLines();
    var ls := TwoRecords;
    assert After(mode, ls, 1) == Parser(map[], ">a", "");
    assert After(mode, ls, 2) == Parser(map[], ">a", "AC");
    assert ls[2] == "GT " && "AC" + "GT" == "ACGT";
    assert After(mode, ls, 3) == Step(mode, After(mode, ls, 2), ls[2]);
  }

  /** The multi-record reader keeps the first record and drops the last one. */
  lemma TwoRecordsMultiple()
    ensures ReadMultiple(TwoRecords) == map[">a" := "ACGT"]
  {
    TrimOfLines();
    FirstRecord(Multiple);
    var ls := TwoRecords;
    assert After(Multiple, ls, 4) == Parser(map[">a" := "ACGT"], ">b", "");
  }

  /** The single-record reader keys everything by the last header. */
  lemma TwoRecordsSingle()
    ensures ReadSingle(TwoRecords) == map[">b" := "ACGTT"]
  {
    TrimOfLines();
    FirstRecord(Single);
    var ls := TwoRecords;
    assert After(Single, ls, 4) == Parser(map[], ">b", "ACGT");
    assert ls[4] == "T" && "ACGT" + "T" == "ACGTT";
    assert After(Single, ls, 5) == Parser(map[], ">b", "ACGTT");
  }

  /** A term found in one key retrieves that record. */
  lemma LookupFound()
    ensures GetInfo(map[">a" := "ACGT"], [">a"], "a") == Ok(Info(">a", "ACGT"))
  {
    assert OccursAt(">a", "a", 1);
    UniqueLookup(map[">a" := "ACGT"], [">a"], "a", ">a");
  }

  /** A term found in no key panics. */
  lemma LookupMissing()
    ensures GetInfo(map[">a" := "ACGT"], [">a"], "b") == Panic("Could not find id")
  {
    assert !Contains(">a", "b") by {
      assert ">a"[0] != 'b' && ">a"[1] != 'b';
    }
  }

  /** When "" is a key, as after the single-record reader saw no header, a
      term found nowhere retrieves the record under "" instead of panicking. */
  lemma LookupEmptyKey()
    ensures GetInfo(map["" := "AC"], [""], "zz") == Ok(Info("", "AC"))
  {
    assert !Contains("", "zz");
    NoMatch([""], "zz");
  }

  /** A term found in two keys glues them together, which is not a key. */
  lemma LookupInTwoRecords()
    ensures GetInfo(map[">a1" := "A", ">a2" := "C"], [">a1", ">a2"], "a")
      == Panic("Could not find id")
  {
    assert OccursAt(">a1", "a", 1);
    assert OccursAt(">a2", "a", 1);
    var order := [">a1", ">a2"];
    assert order[..1] == [">a1"] && order[..1][..0] == [];
    assert Matching(order, "a") == order;
    assert Concat(order) == Concat([">a1"]) + ">a2";
  }
}
