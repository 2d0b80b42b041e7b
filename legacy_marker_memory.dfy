/** The older actor `MarkerMemoryRepository`, over markers with title, order, url and completed. */
module LegacyMarkerMemory {
  import opened Wrappers
  import opened Uuids
  import Stores
  import opened LegacyMarkers

  class MarkerMemoryRepository {
    var markers: map<Uuid, Marker>

    ghost predicate Valid()
      reads this
    {
      LegacyMarkers.Valid(markers)
    }

    constructor ()
      ensures Valid() && markers == map[]
    {
      markers := map[];
    }

    /** `create`; `newId` is the value of `UUID()`, assumed unused. */
    method Create(title: string, order: Option<int>, urlPrefix: string, newId: Uuid) returns (marker: Marker)
      requires Valid() && newId !in markers
      modifies this
      ensures Valid()
      ensures (markers, marker) == LegacyMarkers.Create(old(markers), newId, title, order, urlPrefix)
    {
      var url := urlPrefix + UuidString(newId);
      marker := Marker(newId, title, order, url, Some(false));
      UrlDeterminesId(urlPrefix, newId);
      markers := markers[newId := marker];
    }

    /** `get`: the stored marker, or `nil`. */
    method Get(id: Uuid) returns (marker: Option<Marker>)
      ensures marker.Some? <==> id in markers
      ensures marker.Some? ==> marker.value == markers[id]
    {
      if id in markers {
        marker := Some(markers[id]);
      } else {
        marker := None;
      }
    }

    /** `list`: every stored marker once, one per key. */
    method List() returns (all: seq<Marker>)
      requires Valid()
      ensures Stores.IsListing(markers, all, IdOf)
      ensures |all| == |markers|
    {
      all := [];
      var remaining := markers.Keys;
      while remaining != {}
        invariant remaining <= markers.Keys
        invariant Stores.ListsKeys(markers, markers.Keys - remaining, all, IdOf)
        decreases remaining
      {
        var id :| id in remaining;
        Stores.ListsKeysStep(markers, markers.Keys - remaining, all, id, IdOf);
        all := all + [markers[id]];
        assert markers.Keys - (remaining - {id}) == markers.Keys - remaining + {id};
        remaining := remaining - {id};
      }
      Stores.ListingLength(markers, all, IdOf);
    }

    /** `update`: copy the stored marker, write the given fields, store it back. */
    method Update(id: Uuid, title: Option<string>, order: Option<int>, completed: Option<bool>)
      returns (updated: Option<Marker>)
      requires Valid()
      modifies this
      ensures Valid()
      ensures (markers, updated) == LegacyMarkers.Update(old(markers), id, title, order, completed)
    {
      if id in markers {
        var marker := markers[id];
        if title.Some? {
          marker := marker.(title := title.value);
        }
        if order.Some? {
          marker := marker.(order := Some(order.value));
        }
        if completed.Some? {
          marker := marker.(completed := Some(completed.value));
        }
        markers := markers[id := marker];
        return Some(marker);
      }
      return None;
    }

    /** `delete`: `true` exactly when the id was present; only that key goes. */
    method Delete(id: Uuid) returns (deleted: bool)
      requires Valid()
      modifies this
      ensures Valid()
      ensures (markers, deleted) == Stores.Delete(old(markers), id)
    {
      if id in markers {
        markers := markers - {id};
        return true;
      }
      return false;
    }

    /** `deleteAll`: the store is empty afterwards, however often it is called. */
    method DeleteAll()
      modifies this
      ensures Valid() && markers == map[]
    {
      markers := map[];
    }
  }
}
