/**
 * The older marker variant (title, order, url, completed) and its repository contract.
 * Its `create` derives the marker's url from a caller-given prefix and the new id's
 * string form, so a stored marker's url ends in the string form of its own id.
 */
module LegacyMarkers {
  import opened Wrappers
  import opened Uuids
  import Stores

  /** The record `Marker(id:title:order:url:completed:)` of this variant. */
  datatype Marker = Marker(id: Uuid, title: string, order: Option<int>, url: string, completed: Option<bool>)

  function IdOf(m: Marker): Uuid { m.id }

  type Store = Stores.Store<Marker>

  /** `urlPrefix + id.uuidString`. */
  function UrlFor(urlPrefix: string, id: Uuid): (r: string)
    ensures |r| == |urlPrefix| + 36 && r[..|urlPrefix|] == urlPrefix && r[|urlPrefix|..] == UuidString(id)
  {
    urlPrefix + UuidString(id)
  }

  /** The last 36 characters of the marker's url are the string form of its id. */
  predicate UrlNamesId(m: Marker)
  {
    |m.url| >= 36 && m.url[|m.url| - 36..] == UuidString(m.id)
  }

  /** A derived url ends in the id's string form, whatever the prefix. */
  lemma UrlDeterminesId(urlPrefix: string, id: Uuid)
    ensures var url := UrlFor(urlPrefix, id);
            |url| >= 36 && url[|url| - 36..] == UuidString(id) && ParseUuid(url[|url| - 36..]) == Some(id)
  {
    var url := UrlFor(urlPrefix, id);
    assert url[|url| - 36..] == UuidString(id);
    UuidRoundTrip(id);
  }

  /** Markers created for distinct ids get distinct urls, even under different prefixes. */
  lemma UrlForInjective(p: string, q: string, a: Uuid, b: Uuid)
    ensures UrlFor(p, a) == UrlFor(q, b) ==> a == b && p == q
  {
    if UrlFor(p, a) == UrlFor(q, b) {
      UrlDeterminesId(p, a);
      UrlDeterminesId(q, b);
      assert p == UrlFor(p, a)[..|p|];
    }
  }

  /** Every marker sits under its own id and its url names that id. */
  predicate Valid(s: Store)
  {
    Stores.KeyedBy(s, IdOf) && forall id | id in s :: UrlNamesId(s[id])
  }

  /** In a valid store no two markers share a url. */
  lemma UrlsDistinct(s: Store, a: Uuid, b: Uuid)
    requires Valid(s) && a in s && b in s && a != b
    ensures s[a].url != s[b].url
  {
    UuidStringInjective(a, b);
  }

  /**
   * `create`: the url is the prefix followed by the new id's string form, `completed`
   * is `false`, title and order are as given, and earlier entries are unchanged.
   */
  function Create(s: Store, newId: Uuid, title: string, order: Option<int>, urlPrefix: string): (r: (Store, Marker))
    requires newId !in s
    ensures var (s', m) := r;
      && m.id == newId && m.title == title && m.order == order
      && m.url == urlPrefix + UuidString(newId) && m.completed == Some(false)
      && Stores.Get(s', newId) == Some(m)
      && s'.Keys == s.Keys + {newId}
      && (forall id | id in s :: s'[id] == s[id])
      && (Valid(s) ==> Valid(s'))
  {
    var m := Marker(newId, title, order, UrlFor(urlPrefix, newId), Some(false));
    UrlDeterminesId(urlPrefix, newId);
    (s[newId := m], m)
  }

  /**
   * The field writes of `update`: given fields take their values; id and url never
   * change; a `nil` order leaves the stored order as it was, so it cannot clear it.
   */
  function Apply(m: Marker, title: Option<string>, order: Option<int>, completed: Option<bool>): (r: Marker)
    ensures r.id == m.id && r.url == m.url
    ensures r.title == (if title.Some? then title.value else m.title)
    ensures r.order == (if order.Some? then Some(order.value) else m.order)
    ensures r.completed == (if completed.Some? then Some(completed.value) else m.completed)
  {
    var m1 := if title.Some? then m.(title := title.value) else m;
    var m2 := if order.Some? then m1.(order := Some(order.value)) else m1;
    if completed.Some? then m2.(completed := Some(completed.value)) else m2
  }

  /** `update`: `nil` and no change for an absent id; otherwise store and return the updated marker. */
  function Update(s: Store, id: Uuid, title: Option<string>, order: Option<int>, completed: Option<bool>): (r: (Store, Option<Marker>))
    ensures id !in s ==> r == (s, None)
    ensures id in s ==>
      && r.1 == Some(Apply(s[id], title, order, completed))
      && Stores.Get(r.0, id) == r.1
      && r.0.Keys == s.Keys
      && (forall k | k in s && k != id :: r.0[k] == s[k])
    ensures Valid(s) ==> Valid(r.0)
  {
    if id in s then
      var m := Apply(s[id], title, order, completed);
      (s[id := m], Some(m))
    else
      (s, None)
  }

  /** An update with every argument `nil` returns the stored marker and changes nothing. */
  lemma UpdateNothing(s: Store, id: Uuid)
    requires id in s
    ensures Update(s, id, None, None, None) == (s, Some(s[id]))
  {
    assert s[id := s[id]] == s;
  }
}
