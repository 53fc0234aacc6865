/** Record lookup of src/main.rs: `get_id` scans the keys of the parsed map
    and concatenates every key that contains the search term; `get_info`
    fetches the record whose key is exactly that concatenation. The order in
    which a `HashMap` yields its keys is unspecified, so it is a parameter
    here: any sequence that lists every key once. */
module Lookup {
  import opened Text

  /** No key is listed twice. */
  predicate Distinct(order: seq<string>) {
    forall i, j :: 0 <= i < j < |order| ==> order[i] != order[j]
  }

  /** `order` is a possible iteration order of `hash.keys()`. */
  ghost predicate IsKeyOrder(hash: map<string, string>, order: seq<string>) {
    Distinct(order) && (forall k :: k in order <==> k in hash)
  }

  /** The keys of `order` that contain `term`, in order. */
  function Matching(order: seq<string>, term: string): seq<string> {
    if order == [] then []
    else
      var last := order[|order| - 1];
      Matching(order[..|order| - 1], term) + (if Contains(last, term) then [last] else [])
  }

  /** The strings of `ks` one after another. */
  function Concat(ks: seq<string>): string {
    if ks == [] then "" else Concat(ks[..|ks| - 1]) + ks[|ks| - 1]
  }

  /** What `get_id` returns for the key order `order`. */
  function FoundId(order: seq<string>, term: string): string {
    Concat(Matching(order, term))
  }

  /** `get_id`: every key that contains `searchId`, appended in iteration order. */
  method GetId(hash: map<string, string>, order: seq<string>, searchId: string) returns (foundId: string)
    requires IsKeyOrder(hash, order)
    ensures foundId == FoundId(order, searchId)
  {
    foundId := "";
    for i := 0 to |order|
      invariant foundId == FoundId(order[..i], searchId)
    {
      assert order[..i + 1][..i] == order[..i];
      if Contains(order[i], searchId) {
        assert Matching(order[..i + 1], searchId) == Matching(order[..i], searchId) + [order[i]];
        ConcatAppend(Matching(order[..i], searchId), order[i]);
        foundId := foundId + order[i];
      } else {
        assert Matching(order[..i + 1], searchId) == Matching(order[..i], searchId);
      }
    }
    assert order[..|order|] == order;
  }

  lemma ConcatAppend(ks: seq<string>, k: string)
    ensures Concat(ks + [k]) == Concat(ks) + k
  {
    assert (ks + [k])[..|ks|] == ks;
  }

  // ---------------------------------------------------------------------------
  // Which keys match

  /** A key is matched exactly when it is listed and contains the term; the
      matches are listed once each when the keys are. */
  lemma {:induction false} MatchingSpec(order: seq<string>, term: string)
    ensures forall k :: k in Matching(order, term) <==> k in order && Contains(k, term)
    ensures Distinct(order) ==> Distinct(Matching(order, term))
  {
    if order != [] {
      var init, last := order[..|order| - 1], order[|order| - 1];
      MatchingSpec(init, term);
      assert order == init + [last];
      if Distinct(order) {
        assert Distinct(init);
        assert last !in init;
      }
    }
  }

  /** The concatenation is empty exactly when every listed string is. */
  lemma {:induction false} ConcatEmpty(ks: seq<string>)
    ensures Concat(ks) == "" <==> forall k :: k in ks ==> k == ""
  {
    if ks != [] {
      var init, last := ks[..|ks| - 1], ks[|ks| - 1];
      ConcatEmpty(init);
      assert ks == init + [last];
      assert Concat(ks) == Concat(init) + last;
      if last == "" {
        assert Concat(ks) == Concat(init);
        assert forall k :: k in ks <==> k in init || k == last;
      } else {
        assert last in ks && |Concat(ks)| >= |last| > 0;
      }
    }
  }

  /** With no empty key, `get_id` returns "" exactly when no key contains the term. */
  lemma NotFoundIff(order: seq<string>, term: string)
    requires "" !in order
    ensures FoundId(order, term) == "" <==> forall k :: k in order ==> !Contains(k, term)
  {
    MatchingSpec(order, term);
    ConcatEmpty(Matching(order, term));
  }

  /** No listed key contains the term: nothing matches. */
  lemma {:induction false} NoMatch(order: seq<string>, term: string)
    requires forall k :: k in order ==> !Contains(k, term)
    ensures Matching(order, term) == []
  {
    if order != [] {
      NoMatch(order[..|order| - 1], term);
    }
  }

  /** When exactly one key contains the term, `get_id` returns that key. */
  lemma UniqueMatch(order: seq<string>, term: string, key: string)
    requires Distinct(order) && key in order && Contains(key, term)
    requires forall k :: k in order && k != key ==> !Contains(k, term)
    ensures FoundId(order, term) == key
  {
    MatchingSpec(order, term);
    var m := Matching(order, term);
    OnlyOne(m, key);
    ConcatAppend([], key);
  }

  /** A list without repeats whose every element is `key`, and which holds
      `key`, is exactly [key]. */
  lemma OnlyOne(m: seq<string>, key: string)
    requires Distinct(m) && key in m && forall k :: k in m ==> k == key
    ensures m == [key]
  {
    var i :| 0 <= i < |m| && m[i] == key;
    assert m[0] in m && m[|m| - 1] in m;
    assert 0 == i == |m| - 1;
  }

  /** The empty term is contained in every key, so it matches them all. */
  lemma {:induction false} EmptyTermMatchesAll(order: seq<string>)
    ensures Matching(order, "") == order
    ensures FoundId(order, "") == Concat(order)
  {
    if order != [] {
      EmptyTermMatchesAll(order[..|order| - 1]);
      ContainsEmpty(order[|order| - 1]);
      assert order == order[..|order| - 1] + [order[|order| - 1]];
    }
  }

  // ---------------------------------------------------------------------------
  // Length of the result, whatever the key order

  /** The total length of a set of keys. */
  ghost function TotalLength(keys: set<string>): nat {
    if keys == {} then 0 else var k :| k in keys; |k| + TotalLength(keys - {k})
  }

  /** Any key can be taken out first. */
  lemma {:induction false} TotalLengthRemove(keys: set<string>, y: string)
    requires y in keys
    ensures TotalLength(keys) == |y| + TotalLength(keys - {y})
    decreases |keys|
  {
    var x :| x in keys && TotalLength(keys) == |x| + TotalLength(keys - {x});
    if x != y {
      TotalLengthRemove(keys - {x}, y);
      TotalLengthRemove(keys - {y}, x);
      assert keys - {x} - {y} == keys - {y} - {x};
    }
  }

  /** Concatenating distinct strings gives the total length of their set. */
  lemma {:induction false} ConcatLength(ks: seq<string>)
    requires Distinct(ks)
    ensures |Concat(ks)| == TotalLength(set k | k in ks)
  {
    if ks != [] {
      var init, last := ks[..|ks| - 1], ks[|ks| - 1];
      assert ks == init + [last];
      assert Distinct(init) && last !in init;
      ConcatLength(init);
      TotalLengthRemove((set k | k in ks), last);
      assert (set k | k in ks) - {last} == set k | k in init;
    }
  }

  /** The length of what `get_id` returns is the total length of the matching
      keys: it is the same for every iteration order of the map. */
  lemma FoundIdLength(hash: map<string, string>, order: seq<string>, term: string)
    requires IsKeyOrder(hash, order)
    ensures |FoundId(order, term)| == TotalLength(set k | k in hash && Contains(k, term))
  {
    MatchingSpec(order, term);
    ConcatLength(Matching(order, term));
    assert (set k | k in Matching(order, term)) == set k | k in hash && Contains(k, term);
  }

  // ---------------------------------------------------------------------------
  // get_info

  datatype Info = Info(id: string, sequence: string)

  /** A successful result, or the message of the panic that ends the program. */
  datatype Result<T> = Ok(value: T) | Panic(message: string)

  /** `get_info`: the record whose key is exactly what `get_id` returned, or a
      panic "Could not find id" when that string is not a key. The key fetched
      alongside the value is the one looked up, so the source's assertion that
      they agree always holds. */
  function GetInfo(hash: map<string, string>, order: seq<string>, id: string): (r: Result<Info>)
    requires IsKeyOrder(hash, order)
    ensures r.Ok? <==> FoundId(order, id) in hash
    ensures r.Ok? ==> r.value.id == FoundId(order, id) && r.value.sequence == hash[r.value.id]
    ensures r.Panic? ==> r.message == "Could not find id"
    ensures (forall k :: k in hash ==> !Contains(k, id)) && "" !in hash ==> r.Panic?
  {
    var foundId := FoundId(order, id);
    NoMatchNoKey(hash, order, id);
    if foundId in hash then Ok(Info(foundId, hash[foundId])) else Panic("Could not find id")
  }

  lemma NoMatchNoKey(hash: map<string, string>, order: seq<string>, id: string)
    requires IsKeyOrder(hash, order)
    ensures (forall k :: k in hash ==> !Contains(k, id)) ==> FoundId(order, id) == ""
  {
    if forall k :: k in hash ==> !Contains(k, id) {
      NoMatch(order, id);
    }
  }

  /** A term contained in exactly one key retrieves that key's record. */
  lemma UniqueLookup(hash: map<string, string>, order: seq<string>, id: string, key: string)
    requires IsKeyOrder(hash, order) && key in hash && Contains(key, id)
    requires forall k :: k in hash && k != key ==> !Contains(k, id)
    ensures GetInfo(hash, order, id) == Ok(Info(key, hash[key]))
  {
    UniqueMatch(order, id, key);
  }

  /** Searching for a whole key that no other key contains retrieves it. */
  lemma ExactKeyLookup(hash: map<string, string>, order: seq<string>, key: string)
    requires IsKeyOrder(hash, order) && key in hash
    requires forall k :: k in hash && k != key ==> !Contains(k, key)
    ensures GetInfo(hash, order, key) == Ok(Info(key, hash[key]))
  {
    ContainsSelf(key);
    UniqueLookup(hash, order, key, key);
  }
}
