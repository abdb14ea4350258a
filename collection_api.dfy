/**
 * Lookups over the registry's collections and contexts
 * (`src/bioregistry/collection_api.py`). The dictionaries `read_collections()`
 * and `read_contexts()` return are inputs here: a sequence of
 * `(identifier, entry)` pairs in iteration order.
 */
module CollectionApi {
  import opened Wrappers

  /**
   * A collection. Only `part_of_key` takes part in the logic modelled;
   * `attributes` stands in for all its other attributes, which are carried
   * as they are and never inspected.
   */
  datatype Collection = Collection(partOfKey: Option<string>, attributes: map<string, string>)

  /** Entry `i` is the last one stored under `identifier`. */
  predicate LastUnder<V>(registry: seq<(string, V)>, identifier: string, i: int)
  {
    && 0 <= i < |registry|
    && registry[i].0 == identifier
    && forall j :: i < j < |registry| ==> registry[j].0 != identifier
  }

  /**
   * `registry.get(identifier)`, as `get_collection` (line 19) and
   * `get_context` (line 32) use it: the entry stored under `identifier`,
   * or `None` when there is none.
   */
  function Get<V>(registry: seq<(string, V)>, identifier: string): (r: Option<V>)
    ensures r.None? <==> forall i :: 0 <= i < |registry| ==> registry[i].0 != identifier
    ensures r.Some? ==> exists i :: LastUnder(registry, identifier, i) && registry[i].1 == r.value
  {
    if registry == [] then None
    else
      var last := registry[|registry| - 1];
      if last.0 == identifier then
        assert LastUnder(registry, identifier, |registry| - 1);
        Some(last.1)
      else
        var front := registry[..|registry| - 1];
        assert forall i :: 0 <= i < |front| ==> front[i] == registry[i];
        var r := Get(front, identifier);
        assert r.Some? ==> exists i :: LastUnder(registry, identifier, i) && registry[i].1 == r.value by {
          if r.Some? {
            var i :| LastUnder(front, identifier, i) && front[i].1 == r.value;
            assert LastUnder(registry, identifier, i);
          }
        }
        r
  }

  /** Python truthiness of `part_of_key`: neither `None` nor the empty string. */
  predicate HasPartOfKey(c: Collection)
  {
    c.partOfKey.Some? && c.partOfKey.value != ""
  }

  /** Collection `i` is the last one whose `part_of_key` is `key`. */
  predicate LastPartOf(collections: seq<(string, Collection)>, key: string, i: int)
  {
    && 0 <= i < |collections|
    && collections[i].1.partOfKey == Some(key)
    && forall j :: i < j < |collections| ==> collections[j].1.partOfKey != Some(key)
  }

  /**
   * `get_collection_part_of` (lines 22-27): the collections keyed by their
   * `part_of_key`, skipping those without one; a later collection replaces
   * an earlier one with the same key (`PartOfLastWins`).
   */
  function GetCollectionPartOf(collections: seq<(string, Collection)>): (r: map<string, Collection>)
    ensures forall key :: key in r ==> key != "" && r[key].partOfKey == Some(key)
    ensures forall i :: 0 <= i < |collections| && HasPartOfKey(collections[i].1) ==>
              collections[i].1.partOfKey.value in r
  {
    if collections == [] then map[]
    else
      var front, last := collections[..|collections| - 1], collections[|collections| - 1].1;
      assert forall i :: 0 <= i < |front| ==> front[i] == collections[i];
      var m := GetCollectionPartOf(front);
      if HasPartOfKey(last) then m[last.partOfKey.value := last] else m
  }

  /** Each key holds the last collection whose `part_of_key` is that key. */
  lemma {:induction false} PartOfLastWins(collections: seq<(string, Collection)>)
    ensures forall key :: key in GetCollectionPartOf(collections) ==>
              exists i :: LastPartOf(collections, key, i) && collections[i].1 == GetCollectionPartOf(collections)[key]
    decreases |collections|
  {
    if collections != [] {
      var front, last := collections[..|collections| - 1], collections[|collections| - 1].1;
      assert forall i :: 0 <= i < |front| ==> front[i] == collections[i];
      PartOfLastWins(front);
      var m := GetCollectionPartOf(front);
      var r := GetCollectionPartOf(collections);
      assert r == if HasPartOfKey(last) then m[last.partOfKey.value := last] else m;
      forall key | key in r
        ensures exists i :: LastPartOf(collections, key, i) && collections[i].1 == r[key]
      {
        if HasPartOfKey(last) && key == last.partOfKey.value {
          assert LastPartOf(collections, key, |collections| - 1);
        } else {
          assert key in m && r[key] == m[key];
          var i :| LastPartOf(front, key, i) && front[i].1 == m[key];
          assert LastPartOf(collections, key, i);
        }
      }
    }
  }

  /** A collection whose `part_of_key` is missing or empty is never a value of the result. */
  lemma UnkeyedCollectionsSkipped(collections: seq<(string, Collection)>, c: Collection)
    requires !HasPartOfKey(c)
    ensures forall key :: key in GetCollectionPartOf(collections) ==> GetCollectionPartOf(collections)[key] != c
  {
  }

  /** The last collection with a given non-empty `part_of_key` is the one stored under it. */
  lemma LastCollectionWins(collections: seq<(string, Collection)>, i: nat)
    requires i < |collections| && HasPartOfKey(collections[i].1)
    requires forall j :: i < j < |collections| ==> collections[j].1.partOfKey != collections[i].1.partOfKey
    ensures GetCollectionPartOf(collections)[collections[i].1.partOfKey.value] == collections[i].1
  {
    var key := collections[i].1.partOfKey.value;
    var r := GetCollectionPartOf(collections);
    PartOfLastWins(collections);
    var k :| LastPartOf(collections, key, k) && collections[k].1 == r[key];
    assert k == i;
  }
}
