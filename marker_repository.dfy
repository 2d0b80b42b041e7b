/**
 * The marker repository contract (`MarkerRepository`), stated over the dictionary of
 * markers by id that an implementation holds: what `create`, `get`, `list`, `update`,
 * `delete` and `deleteAll` do to it and return. The in-memory actor is proved to follow
 * these functions, and the relational backend's update statement is proved to have the
 * same effect on a row as `Apply` has on a record.
 */
module MarkerRepository {
  import opened Wrappers
  import opened Uuids
  import opened MarkerTypes
  import Stores

  type Store = Stores.Store<Marker>

  /** Every marker is stored under its own id. */
  predicate Valid(s: Store)
  {
    Stores.KeyedBy(s, IdOf)
  }

  /**
   * `create`: the new marker carries the fresh id and the given fields, is stored under
   * that id, and every earlier entry is unchanged.
   */
  function Create(s: Store, newId: Uuid, markerType: MarkerType, latitude: Coord, longitude: Coord): (r: (Store, Marker))
    requires newId !in s
    ensures var (s', m) := r;
      && m.id == newId && m.markerType == markerType && m.latitude == latitude && m.longitude == longitude
      && Stores.Get(s', newId) == Some(m)
      && s'.Keys == s.Keys + {newId} && |s'| == |s| + 1
      && (forall id | id in s :: s'[id] == s[id])
      && (Valid(s) ==> Valid(s'))
  {
    var m := Marker(newId, markerType, latitude, longitude);
    (s[newId := m], m)
  }

  /**
   * The field writes of `update` on a copy of the stored marker. Partial-update
   * isolation: every field given a value takes it, every other field and the id keep
   * theirs.
   */
  function Apply(m: Marker, markerType: Option<MarkerType>, latitude: Option<Coord>, longitude: Option<Coord>): (r: Marker)
    ensures r.id == m.id
    ensures r.markerType == (if markerType.Some? then markerType.value else m.markerType)
    ensures r.latitude == (if latitude.Some? then latitude.value else m.latitude)
    ensures r.longitude == (if longitude.Some? then longitude.value else m.longitude)
  {
    var m1 := if markerType.Some? then m.(markerType := markerType.value) else m;
    var m2 := if latitude.Some? then m1.(latitude := latitude.value) else m1;
    if longitude.Some? then m2.(longitude := longitude.value) else m2
  }

  /** With every argument `nil`, the marker comes back unchanged. */
  lemma ApplyNothing(m: Marker)
    ensures Apply(m, None, None, None) == m
  {
  }

  /** Applying the same update twice is the same as applying it once. */
  lemma ApplyIdempotent(m: Marker, markerType: Option<MarkerType>, latitude: Option<Coord>, longitude: Option<Coord>)
    ensures var once := Apply(m, markerType, latitude, longitude);
            Apply(once, markerType, latitude, longitude) == once
  {
  }

  /**
   * `update`: `nil` and no change for an absent id; otherwise the updated marker, stored
   * under the same id, with every other entry unchanged.
   */
  function Update(s: Store, id: Uuid, markerType: Option<MarkerType>, latitude: Option<Coord>, longitude: Option<Coord>): (r: (Store, Option<Marker>))
    ensures id !in s ==> r == (s, None)
    ensures id in s ==>
      && r.1 == Some(Apply(s[id], markerType, latitude, longitude))
      && Stores.Get(r.0, id) == r.1
      && r.0.Keys == s.Keys
      && (forall k | k in s && k != id :: r.0[k] == s[k])
    ensures Valid(s) ==> Valid(r.0)
  {
    if id in s then
      var m := Apply(s[id], markerType, latitude, longitude);
      (s[id := m], Some(m))
    else
      (s, None)
  }

  /** An update with every argument `nil` returns the stored marker and changes nothing. */
  lemma UpdateNothing(s: Store, id: Uuid)
    requires id in s
    ensures Update(s, id, None, None, None) == (s, Some(s[id]))
  {
    ApplyNothing(s[id]);
    assert s[id := s[id]] == s;
  }

  /** Repeating an update changes nothing more. */
  lemma UpdateIdempotent(s: Store, id: Uuid, markerType: Option<MarkerType>, latitude: Option<Coord>, longitude: Option<Coord>)
    ensures var (s1, r1) := Update(s, id, markerType, latitude, longitude);
            Update(s1, id, markerType, latitude, longitude) == (s1, r1)
  {
    if id in s {
      var m := Apply(s[id], markerType, latitude, longitude);
      ApplyIdempotent(s[id], markerType, latitude, longitude);
      assert s[id := m][id := m] == s[id := m];
    }
  }

  /** What one `create` call asks for. */
  datatype CreateRequest = CreateRequest(markerType: MarkerType, latitude: Coord, longitude: Coord)

  /** `ids` are pairwise distinct and none is already a key of `s`. */
  predicate FreshIds(s: Store, ids: seq<Uuid>)
  {
    && (forall i | 0 <= i < |ids| :: ids[i] !in s)
    && (forall i, j | 0 <= i < j < |ids| :: ids[i] != ids[j])
  }

  /** After creating under the first fresh id, the remaining ids are fresh for the new store. */
  lemma FreshIdsTail(s: Store, ids: seq<Uuid>, s1: Store)
    requires ids != [] && FreshIds(s, ids) && s1.Keys == s.Keys + {ids[0]}
    ensures FreshIds(s1, ids[1..])
  {
    forall i | 0 <= i < |ids| - 1
      ensures ids[1..][i] !in s1
    {
      assert ids[1..][i] == ids[i + 1];
    }
  }

  /**
   * Many `create` calls, applied one after another as the actor serialises them: every
   * created marker is retrievable under its own id, the store grows by one key per
   * call, and no earlier entry changes.
   */
  function {:induction false} CreateEach(s: Store, requests: seq<CreateRequest>, ids: seq<Uuid>): (r: (Store, seq<Marker>))
    requires |ids| == |requests| && FreshIds(s, ids)
    ensures |r.1| == |requests| && |r.0| == |s| + |requests|
    ensures forall id | id in s :: id in r.0 && r.0[id] == s[id]
    decreases |requests|
  {
    if requests == [] then (s, [])
    else
      var (s1, m) := Create(s, ids[0], requests[0].markerType, requests[0].latitude, requests[0].longitude);
      FreshIdsTail(s, ids, s1);
      var (s2, ms) := CreateEach(s1, requests[1..], ids[1..]);
      (s2, [m] + ms)
  }

  /** The `i`-th call created a marker under the `i`-th id with the requested type, and it is retrievable. */
  lemma {:induction false} CreateEachCreates(s: Store, requests: seq<CreateRequest>, ids: seq<Uuid>, i: nat)
    requires |ids| == |requests| && FreshIds(s, ids) && i < |requests|
    ensures CreateEach(s, requests, ids).1[i].id == ids[i]
    ensures CreateEach(s, requests, ids).1[i].markerType == requests[i].markerType
    ensures CreateEach(s, requests, ids).1[i].latitude == requests[i].latitude
    ensures CreateEach(s, requests, ids).1[i].longitude == requests[i].longitude
    ensures Stores.Get(CreateEach(s, requests, ids).0, ids[i]) == Some(CreateEach(s, requests, ids).1[i])
    decreases i
  {
    var first := Create(s, ids[0], requests[0].markerType, requests[0].latitude, requests[0].longitude);
    FreshIdsTail(s, ids, first.0);
    var rest := CreateEach(first.0, requests[1..], ids[1..]);
    assert CreateEach(s, requests, ids) == (rest.0, [first.1] + rest.1);
    if i > 0 {
      CreateEachCreates(first.0, requests[1..], ids[1..], i - 1);
      assert requests[1..][i - 1] == requests[i] && ids[1..][i - 1] == ids[i];
    }
  }

  /** A valid store stays valid through any number of creates. */
  lemma {:induction false} CreateEachValid(s: Store, requests: seq<CreateRequest>, ids: seq<Uuid>)
    requires |ids| == |requests| && FreshIds(s, ids) && Valid(s)
    ensures Valid(CreateEach(s, requests, ids).0)
    decreases |requests|
  {
    if requests != [] {
      var (s1, m) := Create(s, ids[0], requests[0].markerType, requests[0].latitude, requests[0].longitude);
      FreshIdsTail(s, ids, s1);
      CreateEachValid(s1, requests[1..], ids[1..]);
    }
  }

  /**
   * The many-creates property: after the calls, a listing holds every created marker
   * and has one entry per earlier marker and per call.
   */
  lemma CreatedAllListed(s: Store, requests: seq<CreateRequest>, ids: seq<Uuid>, listing: seq<Marker>)
    requires Valid(s) && |ids| == |requests| && FreshIds(s, ids)
    requires Stores.IsListing(CreateEach(s, requests, ids).0, listing, IdOf)
    ensures |listing| == |s| + |requests|
    ensures forall i | 0 <= i < |requests| :: CreateEach(s, requests, ids).1[i] in listing
  {
    var (s', created) := CreateEach(s, requests, ids);
    Stores.ListingLength(s', listing, IdOf);
    Stores.ListingHoldsEveryRecord(s', listing, IdOf);
    forall i | 0 <= i < |requests| ensures created[i] in listing {
      CreateEachCreates(s, requests, ids, i);
    }
  }
}
