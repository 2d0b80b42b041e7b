/**
 * The actor `MarkerMemoryRepository`: a dictionary of markers by id, changed only through
 * its own methods. The actor serialises calls, so the methods here run one at a time.
 */
module MarkerMemory {
  import opened Wrappers
  import opened Uuids
  import opened MarkerTypes
  import Stores
  import MarkerRepository

  class MarkerMemoryRepository {
    var markers: map<Uuid, Marker>

    ghost predicate Valid()
      reads this
    {
      MarkerRepository.Valid(markers)
    }

    constructor ()
      ensures Valid() && markers == map[]
    {
      markers := map[];
    }

    /** `create`; `newId` is the value of `UUID()`, assumed unused. */
    method Create(markerType: MarkerType, latitude: Coord, longitude: Coord, newId: Uuid) returns (marker: Marker)
      requires Valid() && newId !in markers
      modifies this
      ensures Valid()
      ensures (markers, marker) == MarkerRepository.Create(old(markers), newId, markerType, latitude, longitude)
    {
      marker := Marker(newId, markerType, latitude, longitude);
      markers := markers[newId := marker];
    }

    /** `get`: the stored marker, or `nil`. */
    method Get(id: Uuid) returns (marker: Option<Marker>)
      ensures marker.Some? <==> id in markers
      ensures marker.Some? ==> marker.value == markers[id]
    {
      if id in markers {
        marker := Some(markers[id]);
      } else {
        marker := None;
      }
    }

    /** `list`: every stored marker once, one per key. */
    method List() returns (all: seq<Marker>)
      requires Valid()
      ensures Stores.IsListing(markers, all, IdOf)
      ensures |all| == |markers|
    {
      all := [];
      var remaining := markers.Keys;
      while remaining != {}
        invariant remaining <= markers.Keys
        invariant Stores.ListsKeys(markers, markers.Keys - remaining, all, IdOf)
        decreases remaining
      {
        var id :| id in remaining;
        Stores.ListsKeysStep(markers, markers.Keys - remaining, all, id, IdOf);
        all := all + [markers[id]];
        assert markers.Keys - (remaining - {id}) == markers.Keys - remaining + {id};
        remaining := remaining - {id};
      }
      Stores.ListingLength(markers, all, IdOf);
    }

    /** `update`: copy the stored marker, write the given fields, store it back. */
    method Update(id: Uuid, markerType: Option<MarkerType>, latitude: Option<Coord>, longitude: Option<Coord>)
      returns (updated: Option<Marker>)
      requires Valid()
      modifies this
      ensures Valid()
      ensures (markers, updated) == MarkerRepository.Update(old(markers), id, markerType, latitude, longitude)
    {
      if id in markers {
        var marker := markers[id];
        if markerType.Some? {
          marker := marker.(markerType := markerType.value);
        }
        if latitude.Some? {
          marker := marker.(latitude := latitude.value);
        }
        if longitude.Some? {
          marker := marker.(longitude := longitude.value);
        }
        markers := markers[id := marker];
        return Some(marker);
      }
      return None;
    }

    /** `delete`: `true` exactly when the id was present; only that key goes. */
    method Delete(id: Uuid) returns (deleted: bool)
      requires Valid()
      modifies this
      ensures Valid()
      ensures (markers, deleted) == Stores.Delete(old(markers), id)
    {
      if id in markers {
        markers := markers - {id};
        return true;
      }
      return false;
    }

    /** `deleteAll`: the store is empty afterwards, however often it is called. */
    method DeleteAll()
      modifies this
      ensures Valid() && markers == map[]
    {
      markers := map[];
    }
  }
}
