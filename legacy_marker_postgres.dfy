/**
 * The statement-shape decisions of the relational repository of the older marker
 * variant: the url and the returned marker of `create`, the `UPDATE` its `update`
 * issues, and the existence check of `delete`.
 */
module LegacyMarkerPostgres {
  import opened Wrappers
  import opened Uuids
  import opened Sql
  import opened LegacyMarkers
  import Stores

  /**
   * `create`: the url is the prefix followed by the new id's string form, the order is
   * as given and `completed` is `nil`, since the `INSERT` leaves that column out.
   */
  function Create(newId: Uuid, title: string, order: Option<int>, urlPrefix: string): (r: Marker)
    ensures r.id == newId && r.title == title && r.order == order && r.completed == None
    ensures UrlNamesId(r) && r.url == urlPrefix + UuidString(newId)
  {
    UrlDeterminesId(urlPrefix, newId);
    Marker(newId, title, order, UrlFor(urlPrefix, newId), None)
  }

  /**
   * Backends differ on `create` only in `completed`: the in-memory store returns `false`,
   * the relational one `nil`.
   */
  lemma CreateDiffersFromMemoryInCompleted(s: Store, newId: Uuid, title: string, order: Option<int>, urlPrefix: string)
    requires newId !in s
    ensures var memory := LegacyMarkers.Create(s, newId, title, order, urlPrefix).1;
            var relational := Create(newId, title, order, urlPrefix);
            relational == memory.(completed := None) && memory.completed == Some(false) && relational != memory
  {
  }

  /** The `markers` row holding a marker; a missing order or completion flag is `NULL`. */
  function MarkerRow(m: Marker): Row
  {
    map["id" := IdValue(m.id), "title" := Text(m.title),
        "order" := (if m.order.Some? then Integer(m.order.value) else Null),
        "url" := Text(m.url),
        "completed" := (if m.completed.Some? then Boolean(m.completed.value) else Null)]
  }

  /** The row `INSERT INTO markers (id, title, url, "order")` writes; `completed` is left `NULL`. */
  function InsertedRow(id: Uuid, title: string, url: string, order: Option<int>): Row
  {
    map["id" := IdValue(id), "title" := Text(title),
        "order" := (if order.Some? then Integer(order.value) else Null),
        "url" := Text(url), "completed" := Null]
  }

  /** The marker `create` returns is the one the row it inserts holds. */
  lemma CreateReturnsInsertedRow(newId: Uuid, title: string, order: Option<int>, urlPrefix: string)
    ensures InsertedRow(newId, title, UrlFor(urlPrefix, newId), order) == MarkerRow(Create(newId, title, order, urlPrefix))
  {
  }

  /** The optional arguments of `update` as fields, in column order. */
  function UpdateFields(title: Option<string>, order: Option<int>, completed: Option<bool>): seq<Field>
  {
    [ Field("title", if title.Some? then Some(Text(title.value)) else None),
      Field("order", if order.Some? then Some(Integer(order.value)) else None),
      Field("completed", if completed.Some? then Some(Boolean(completed.value)) else None) ]
  }

  /**
   * The nested `if let` choice of `update`: exactly the given fields, in the order
   * `title`, `order`, `completed`, with `WHERE id` the given id; no statement when all
   * three are `nil`.
   */
  function UpdateQuery(id: Uuid, title: Option<string>, order: Option<int>, completed: Option<bool>)
    : (r: Option<UpdateStatement>)
    ensures r.None? <==> title.None? && order.None? && completed.None?
    ensures r.Some? ==> r.value.table == "markers" && r.value.target == id
    ensures r.Some? ==>
      Columns(r.value.assignments) == (if title.Some? then ["title"] else [])
                                      + (if order.Some? then ["order"] else [])
                                      + (if completed.Some? then ["completed"] else [])
  {
    var ti := if title.Some? then Assignment("title", Text(title.value)) else Assignment("", Null);
    var o := if order.Some? then Assignment("order", Integer(order.value)) else Assignment("", Null);
    var c := if completed.Some? then Assignment("completed", Boolean(completed.value)) else Assignment("", Null);
    if title.Some? then
      if order.Some? then
        if completed.Some? then Some(UpdateStatement("markers", [ti, o, c], id))
        else Some(UpdateStatement("markers", [ti, o], id))
      else
        if completed.Some? then Some(UpdateStatement("markers", [ti, c], id))
        else Some(UpdateStatement("markers", [ti], id))
    else
      if order.Some? then
        if completed.Some? then Some(UpdateStatement("markers", [o, c], id))
        else Some(UpdateStatement("markers", [o], id))
      else
        if completed.Some? then Some(UpdateStatement("markers", [c], id))
        else None
  }

  /** The hand-written branches are the general builder applied to the three fields. */
  lemma UpdateQueryIsBuilder(id: Uuid, title: Option<string>, order: Option<int>, completed: Option<bool>)
    ensures UpdateQuery(id, title, order, completed) == BuildUpdate("markers", id, UpdateFields(title, order, completed))
  {
    var fields := UpdateFields(title, order, completed);
    PresentOfThree(fields[0], fields[1], fields[2]);
    var a, b, c := AssignmentOf(fields[0]), AssignmentOf(fields[1]), AssignmentOf(fields[2]);
    if a != [] && b != [] && c != [] {
      assert a + b + c == [a[0], b[0], c[0]];
    } else if a != [] && b != [] {
      assert a + b + c == [a[0], b[0]];
    } else if a != [] && c != [] {
      assert a + b + c == [a[0], c[0]];
    } else if b != [] && c != [] {
      assert a + b + c == [b[0], c[0]];
    } else if a != [] {
      assert a + b + c == a;
    } else if b != [] {
      assert a + b + c == b;
    } else if c != [] {
      assert a + b + c == c;
    } else {
      assert a + b + c == [];
    }
  }

  /** The updated marker's row holds each given field's value. */
  lemma ApplyRowGiven(m: Marker, title: Option<string>, order: Option<int>, completed: Option<bool>)
    ensures var fields := UpdateFields(title, order, completed);
            var expected := MarkerRow(LegacyMarkers.Apply(m, title, order, completed));
            forall k | 0 <= k < |fields| ::
              expected[fields[k].column] == if fields[k].value.Some? then fields[k].value.value else MarkerRow(m)[fields[k].column]
  {
  }

  /** The updated marker's row agrees with the old one outside the updatable columns. */
  lemma ApplyRowOthers(m: Marker, title: Option<string>, order: Option<int>, completed: Option<bool>)
    ensures var fields := UpdateFields(title, order, completed);
            var row := MarkerRow(m);
            var expected := MarkerRow(LegacyMarkers.Apply(m, title, order, completed));
            expected.Keys == row.Keys && forall c | c in row && NotAColumn(fields, c) :: expected[c] == row[c]
  {
    var fields := UpdateFields(title, order, completed);
    var row := MarkerRow(m);
    var expected := MarkerRow(LegacyMarkers.Apply(m, title, order, completed));
    forall c | c in row && NotAColumn(fields, c)
      ensures expected[c] == row[c]
    {
      assert c != fields[0].column && c != fields[1].column && c != fields[2].column;
    }
  }

  /** Running the built assignments on a marker's row gives the row of the updated marker. */
  lemma ExecFieldsMatchesApply(m: Marker, title: Option<string>, order: Option<int>, completed: Option<bool>)
    ensures ExecAssignments(MarkerRow(m), Present(UpdateFields(title, order, completed)))
         == MarkerRow(LegacyMarkers.Apply(m, title, order, completed))
  {
    ApplyRowGiven(m, title, order, completed);
    ApplyRowOthers(m, title, order, completed);
    ExecPresentRow(MarkerRow(m), UpdateFields(title, order, completed), MarkerRow(LegacyMarkers.Apply(m, title, order, completed)));
  }

  /**
   * Backends agree on `update`: running the statement (if any) on a marker's row gives
   * the row of the marker the in-memory store computes; in particular a `nil` order
   * leaves the stored order in both.
   */
  lemma UpdateAgreesWithMemory(m: Marker, title: Option<string>, order: Option<int>, completed: Option<bool>)
    ensures var q := UpdateQuery(m.id, title, order, completed);
            var row := if q.Some? then ExecAssignments(MarkerRow(m), q.value.assignments) else MarkerRow(m);
            row == MarkerRow(LegacyMarkers.Apply(m, title, order, completed))
  {
    UpdateQueryIsBuilder(m.id, title, order, completed);
    ExecFieldsMatchesApply(m, title, order, completed);
  }

  /** `delete`: the existence check on `markers`, then the `DELETE` only when the row was found. */
  function Delete(db: Tables, id: Uuid): (r: DeleteOutcome)
    ensures r.deleted <==> id in RowIds(db, "markers")
    ensures r.issued.Some? <==> r.deleted
  {
    DeleteChecked(db, "markers", id)
  }

  /** Backends agree on `delete`: same result, same ids left, when the table holds the store's ids. */
  lemma DeleteAgreesWithMemory(s: Store, db: Tables, id: Uuid)
    requires RowIds(db, "markers") == s.Keys
    ensures Delete(db, id).deleted == Stores.Delete(s, id).1
    ensures RowIds(Delete(db, id).tables, "markers") == Stores.Delete(s, id).0.Keys
  {
  }
}
