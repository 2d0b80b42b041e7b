/**
 * What the three in-memory repositories share: a dictionary from id to record, read with
 * `dict[id]`, cleared key by key with `dict[id] = nil`, and listed with `dict.values`.
 * `key` gives a record's own id; a store is well keyed when every record sits under it.
 */
module Stores {
  import opened Wrappers
  import opened Uuids

  type Store<V> = map<Uuid, V>

  /** Every record is stored under its own id. */
  predicate KeyedBy<V>(s: Store<V>, key: V -> Uuid)
  {
    forall id | id in s :: key(s[id]) == id
  }

  /** `dict[id]`: the stored record, or `nil` when the id is absent. */
  function Get<V>(s: Store<V>, id: Uuid): (r: Option<V>)
    ensures r.Some? <==> id in s
    ensures r.Some? ==> r.value == s[id]
  {
    if id in s then Some(s[id]) else None
  }

  /**
   * `delete`: `true` exactly when the id was present; afterwards the id is absent and
   * every other entry is as it was.
   */
  function Delete<V>(s: Store<V>, id: Uuid): (r: (Store<V>, bool))
    ensures r.1 <==> id in s
    ensures r.0.Keys == s.Keys - {id}
    ensures forall k | k in r.0 :: r.0[k] == s[k]
    ensures |r.0| == if r.1 then |s| - 1 else |s|
  {
    if id in s then (s - {id}, true) else (s, false)
  }

  /** Deleting the same id twice: the second call finds nothing and changes nothing. */
  lemma DeleteTwice<V>(s: Store<V>, id: Uuid)
    ensures var (s1, first) := Delete(s, id);
            var (s2, second) := Delete(s1, id);
            first == (id in s) && !second && s2 == s1
  {
  }

  /** Deleting preserves being well keyed. */
  lemma DeleteKeepsKeyed<V>(s: Store<V>, id: Uuid, key: V -> Uuid)
    requires KeyedBy(s, key)
    ensures KeyedBy(Delete(s, id).0, key)
  {
  }

  /** The ids of the records in `r`. */
  function KeysOf<V>(r: seq<V>, key: V -> Uuid): set<Uuid>
  {
    set i | 0 <= i < |r| :: key(r[i])
  }

  /** No two records of `r` have the same id. */
  predicate DistinctKeys<V>(r: seq<V>, key: V -> Uuid)
  {
    forall i, j | 0 <= i < j < |r| :: key(r[i]) != key(r[j])
  }

  /**
   * `dict.values` restricted to the ids in `ids`: each record of `r` is the stored one,
   * no id appears twice, and the ids met are exactly `ids`.
   */
  predicate ListsKeys<V(==)>(s: Store<V>, ids: set<Uuid>, r: seq<V>, key: V -> Uuid)
  {
    && (forall i | 0 <= i < |r| :: key(r[i]) in s && s[key(r[i])] == r[i])
    && DistinctKeys(r, key)
    && KeysOf(r, key) == ids
  }

  /** `list`: every stored record exactly once, in no particular order. */
  predicate IsListing<V(==)>(s: Store<V>, r: seq<V>, key: V -> Uuid)
  {
    ListsKeys(s, s.Keys, r, key)
  }

  lemma KeysOfAppend<V>(r: seq<V>, v: V, key: V -> Uuid)
    ensures KeysOf(r + [v], key) == KeysOf(r, key) + {key(v)}
  {
    var r' := r + [v];
    assert key(r'[|r|]) == key(v);
    forall k | k in KeysOf(r', key) ensures k in KeysOf(r, key) + {key(v)} {
      var i :| 0 <= i < |r'| && key(r'[i]) == k;
      if i < |r| { assert r'[i] == r[i]; }
    }
    forall k | k in KeysOf(r, key) ensures k in KeysOf(r', key) {
      var i :| 0 <= i < |r| && key(r[i]) == k;
      assert r'[i] == r[i];
    }
  }

  /** Records with distinct ids have as many ids as records. */
  lemma {:induction false} DistinctKeysCount<V>(r: seq<V>, key: V -> Uuid)
    requires DistinctKeys(r, key)
    ensures |KeysOf(r, key)| == |r|
  {
    if r != [] {
      var front, last := r[..|r| - 1], r[|r| - 1];
      assert r == front + [last];
      DistinctKeysCount(front, key);
      KeysOfAppend(front, last, key);
      forall i | 0 <= i < |front| ensures key(front[i]) != key(last) {
        assert front[i] == r[i];
      }
    }
  }

  /** A listing has exactly one record per key of the store. */
  lemma ListingLength<V>(s: Store<V>, r: seq<V>, key: V -> Uuid)
    requires IsListing(s, r, key)
    ensures |r| == |s|
  {
    DistinctKeysCount(r, key);
    assert s.Keys == KeysOf(r, key);
  }

  /** In a well-keyed store, a listing holds every stored record. */
  lemma ListingHoldsEveryRecord<V>(s: Store<V>, r: seq<V>, key: V -> Uuid)
    requires KeyedBy(s, key) && IsListing(s, r, key)
    ensures forall id | id in s :: s[id] in r
  {
    forall id | id in s ensures s[id] in r {
      assert id in KeysOf(r, key);
      var i :| 0 <= i < |r| && key(r[i]) == id;
    }
  }

  /** The listing of an empty store is empty. */
  lemma ListingOfEmpty<V>(r: seq<V>, key: V -> Uuid)
    requires IsListing(map[], r, key)
    ensures r == []
  {
    ListingLength(map[], r, key);
  }

  /** One step of listing: add the record stored under an id not yet listed. */
  lemma ListsKeysStep<V>(s: Store<V>, ids: set<Uuid>, r: seq<V>, id: Uuid, key: V -> Uuid)
    requires KeyedBy(s, key) && ListsKeys(s, ids, r, key)
    requires id in s && id !in ids
    ensures ListsKeys(s, ids + {id}, r + [s[id]], key)
  {
    var r' := r + [s[id]];
    KeysOfAppend(r, s[id], key);
    forall i, j | 0 <= i < j < |r'| ensures key(r'[i]) != key(r'[j]) {
      if j == |r| {
        assert key(r[i]) in ids;
      }
    }
  }
}
