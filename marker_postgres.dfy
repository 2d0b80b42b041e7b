/**
 * The statement-shape decisions of the relational `MarkerPostgresRepository`: which
 * `UPDATE` its `update` issues, how a fetched row becomes a marker (the force-unwrapped
 * `Marker_Type(rawValue:)`), and the existence check of `delete`.
 */
module MarkerPostgres {
  import opened Wrappers
  import opened Uuids
  import opened MarkerTypes
  import opened Sql
  import MarkerRepository
  import Stores

  /** The optional arguments of `update` as fields, in column order; the type goes in as its raw value. */
  function UpdateFields(markerType: Option<MarkerType>, latitude: Option<Coord>, longitude: Option<Coord>): seq<Field>
  {
    [ Field("marker_type", if markerType.Some? then Some(Text(RawValue(markerType.value))) else None),
      Field("latitude", if latitude.Some? then Some(Float(latitude.value)) else None),
      Field("longitude", if longitude.Some? then Some(Float(longitude.value)) else None) ]
  }

  /**
   * The nested `if let` choice of `update`: exactly the given fields, in the order
   * `marker_type`, `latitude`, `longitude`, with `WHERE id` the given id; no statement
   * when all three are `nil`. It is the general builder applied to the three fields.
   */
  function UpdateQuery(id: Uuid, markerType: Option<MarkerType>, latitude: Option<Coord>, longitude: Option<Coord>)
    : (r: Option<UpdateStatement>)
    ensures r.None? <==> markerType.None? && latitude.None? && longitude.None?
    ensures r.Some? ==> r.value.table == "markers" && r.value.target == id
    ensures r.Some? ==>
      Columns(r.value.assignments) == (if markerType.Some? then ["marker_type"] else [])
                                      + (if latitude.Some? then ["latitude"] else [])
                                      + (if longitude.Some? then ["longitude"] else [])
    ensures r.Some? && markerType.Some? ==> r.value.assignments[0] == Assignment("marker_type", Text(RawValue(markerType.value)))
  {
    var t := if markerType.Some? then Assignment("marker_type", Text(RawValue(markerType.value))) else Assignment("", Null);
    var la := if latitude.Some? then Assignment("latitude", Float(latitude.value)) else Assignment("", Null);
    var lo := if longitude.Some? then Assignment("longitude", Float(longitude.value)) else Assignment("", Null);
    if markerType.Some? then
      if latitude.Some? then
        if longitude.Some? then Some(UpdateStatement("markers", [t, la, lo], id))
        else Some(UpdateStatement("markers", [t, la], id))
      else
        if longitude.Some? then Some(UpdateStatement("markers", [t, lo], id))
        else Some(UpdateStatement("markers", [t], id))
    else
      if latitude.Some? then
        if longitude.Some? then Some(UpdateStatement("markers", [la, lo], id))
        else Some(UpdateStatement("markers", [la], id))
      else
        if longitude.Some? then Some(UpdateStatement("markers", [lo], id))
        else None
  }

  /**
   * The hand-written branches are the general builder (one assignment per given field,
   * in field order) applied to the three fields of a marker.
   */
  lemma UpdateQueryIsBuilder(id: Uuid, markerType: Option<MarkerType>, latitude: Option<Coord>, longitude: Option<Coord>)
    ensures UpdateQuery(id, markerType, latitude, longitude) == BuildUpdate("markers", id, UpdateFields(markerType, latitude, longitude))
  {
    var fields := UpdateFields(markerType, latitude, longitude);
    PresentOfThree(fields[0], fields[1], fields[2]);
    var a, b, c := AssignmentOf(fields[0]), AssignmentOf(fields[1]), AssignmentOf(fields[2]);
    if a != [] && b != [] && c != [] {
      assert a + b + c == [a[0], b[0], c[0]];
    } else if a != [] && b != [] {
      assert a + b + c == [a[0], b[0]];
    } else if a != [] && c != [] {
      assert a + b + c == [a[0], c[0]];
    } else if b != [] && c != [] {
      assert a + b + c == [b[0], c[0]];
    } else if a != [] {
      assert a + b + c == a;
    } else if b != [] {
      assert a + b + c == b;
    } else if c != [] {
      assert a + b + c == c;
    } else {
      assert a + b + c == [];
    }
  }

  /** The `markers` row holding a marker. */
  function MarkerRow(m: Marker): Row
  {
    map["id" := IdValue(m.id), "marker_type" := Text(RawValue(m.markerType)),
        "latitude" := Float(m.latitude), "longitude" := Float(m.longitude)]
  }

  /** The updated marker's row holds each given field's value. */
  lemma ApplyRowGiven(m: Marker, markerType: Option<MarkerType>, latitude: Option<Coord>, longitude: Option<Coord>)
    ensures var fields := UpdateFields(markerType, latitude, longitude);
            var expected := MarkerRow(MarkerRepository.Apply(m, markerType, latitude, longitude));
            forall k | 0 <= k < |fields| ::
              expected[fields[k].column] == if fields[k].value.Some? then fields[k].value.value else MarkerRow(m)[fields[k].column]
  {
  }

  /** The updated marker's row agrees with the old one outside the updatable columns. */
  lemma ApplyRowOthers(m: Marker, markerType: Option<MarkerType>, latitude: Option<Coord>, longitude: Option<Coord>)
    ensures var fields := UpdateFields(markerType, latitude, longitude);
            var row := MarkerRow(m);
            var expected := MarkerRow(MarkerRepository.Apply(m, markerType, latitude, longitude));
            expected.Keys == row.Keys && forall c | c in row && NotAColumn(fields, c) :: expected[c] == row[c]
  {
    var fields := UpdateFields(markerType, latitude, longitude);
    var row := MarkerRow(m);
    var expected := MarkerRow(MarkerRepository.Apply(m, markerType, latitude, longitude));
    forall c | c in row && NotAColumn(fields, c)
      ensures expected[c] == row[c]
    {
      assert c != fields[0].column && c != fields[1].column && c != fields[2].column;
    }
  }

  /** Running the built assignments on a marker's row gives the row of the updated marker. */
  lemma ExecFieldsMatchesApply(m: Marker, markerType: Option<MarkerType>, latitude: Option<Coord>, longitude: Option<Coord>)
    ensures ExecAssignments(MarkerRow(m), Present(UpdateFields(markerType, latitude, longitude)))
         == MarkerRow(MarkerRepository.Apply(m, markerType, latitude, longitude))
  {
    ApplyRowGiven(m, markerType, latitude, longitude);
    ApplyRowOthers(m, markerType, latitude, longitude);
    ExecPresentRow(MarkerRow(m), UpdateFields(markerType, latitude, longitude), MarkerRow(MarkerRepository.Apply(m, markerType, latitude, longitude)));
  }

  /**
   * Backends agree on `update`: running the statement (if any) on a marker's row gives
   * the row of the marker the in-memory store computes.
   */
  lemma UpdateAgreesWithMemory(m: Marker, markerType: Option<MarkerType>, latitude: Option<Coord>, longitude: Option<Coord>)
    ensures var q := UpdateQuery(m.id, markerType, latitude, longitude);
            var row := if q.Some? then ExecAssignments(MarkerRow(m), q.value.assignments) else MarkerRow(m);
            row == MarkerRow(MarkerRepository.Apply(m, markerType, latitude, longitude))
  {
    UpdateQueryIsBuilder(m.id, markerType, latitude, longitude);
    ExecFieldsMatchesApply(m, markerType, latitude, longitude);
  }

  /** Why a read would stop the process instead of returning. */
  datatype Trap = ForceUnwrapOfNil

  /**
   * A fetched `(id, marker_type, latitude, longitude)` row as `get` and `list` turn it
   * into a marker: `Marker_Type(rawValue:)!` traps on a string that names no case.
   */
  function DecodeMarker(id: Uuid, markerType: string, latitude: Coord, longitude: Coord): (r: Result<Marker, Trap>)
    ensures r.Failure? <==> forall t: MarkerType :: RawValue(t) != markerType
    ensures r.Success? ==> r.value.id == id && RawValue(r.value.markerType) == markerType
                           && r.value.latitude == latitude && r.value.longitude == longitude
  {
    FromRawInverse(markerType);
    match FromRaw(markerType)
    case Some(t) => Success(Marker(id, t, latitude, longitude))
    case None => Failure(ForceUnwrapOfNil)
  }

  /** Round trip: a row written with a marker's raw type decodes back to that marker. */
  lemma DecodeWrittenRow(m: Marker)
    ensures DecodeMarker(m.id, RawValue(m.markerType), m.latitude, m.longitude) == Success(m)
  {
  }

  /** A `marker_type` that is not one of the four raw values stops the read. */
  lemma DecodeUnknownTypeTraps(id: Uuid, latitude: Coord, longitude: Coord)
    ensures DecodeMarker(id, "not-a-real-type", latitude, longitude) == Failure(ForceUnwrapOfNil)
  {
  }

  /** `delete`: the existence check on `markers`, then the `DELETE` only when the row was found. */
  function Delete(db: Tables, id: Uuid): (r: DeleteOutcome)
    ensures r.deleted <==> id in RowIds(db, "markers")
    ensures r.issued.Some? <==> r.deleted
  {
    DeleteChecked(db, "markers", id)
  }

  /** Backends agree on `delete`: same result, same ids left, when the table holds the store's ids. */
  lemma DeleteAgreesWithMemory(s: MarkerRepository.Store, db: Tables, id: Uuid)
    requires RowIds(db, "markers") == s.Keys
    ensures Delete(db, id).deleted == Stores.Delete(s, id).1
    ensures RowIds(Delete(db, id).tables, "markers") == Stores.Delete(s, id).0.Keys
  {
  }
}
