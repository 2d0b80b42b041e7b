/**
 * The statement-shape decisions of the relational user repository: the user `create`
 * returns and the table its `INSERT` goes to, the assignment list its `update` builds,
 * and the existence check of `delete`.
 *
 * As written, `create` inserts into and `delete` checks and deletes from the `markers`
 * table. `CreateAsWritten` and `DeleteAsWritten` model that; `Create` and `Delete` use
 * `users`, which the rest of the model relies on.
 */
module UserPostgres {
  import opened Wrappers
  import opened Uuids
  import opened Sql
  import opened UserStore
  import Stores

  /** The `INSERT` of `create` adds the new id to `table` when the database accepts it. */
  function Insert(db: Tables, table: string, newId: Uuid, insertSucceeded: bool): (r: Tables)
    ensures insertSucceeded ==> RowIds(r, table) == RowIds(db, table) + {newId}
    ensures !insertSucceeded ==> r == db
    ensures forall t | t != table :: RowIds(r, t) == RowIds(db, t)
  {
    if insertSucceeded then db[table := RowIds(db, table) + {newId}] else db
  }

  /**
   * `create` as written: the `id` argument is shadowed by a fresh one, the `INSERT` goes
   * to `markers`, and its error is only logged, so the user is returned either way.
   */
  function CreateAsWritten(db: Tables, id: Uuid, email: string, displayName: string, locationCity: string,
                           locationState: string, locationCountry: string, newId: Uuid, now: Date,
                           insertSucceeded: bool): (r: (Tables, User))
    ensures r.1 == User(newId, email, displayName, locationCity, locationState, locationCountry, now, None)
    ensures r.0 == Insert(db, "markers", newId, insertSucceeded)
  {
    (Insert(db, "markers", newId, insertSucceeded), User(newId, email, displayName, locationCity, locationState, locationCountry, now, None))
  }

  /** The user `create` reports is not in `users` afterwards, whether or not the `INSERT` succeeded. */
  lemma CreateAsWrittenMissesUsers(db: Tables, id: Uuid, email: string, displayName: string, locationCity: string,
                                   locationState: string, locationCountry: string, newId: Uuid, now: Date,
                                   insertSucceeded: bool)
    requires newId !in RowIds(db, "users")
    ensures var (db', u) := CreateAsWritten(db, id, email, displayName, locationCity, locationState, locationCountry, newId, now, insertSucceeded);
            u.id == newId && u.id !in RowIds(db', "users")
  {
  }

  /** `create` with the `INSERT` into `users`; the returned user is as before. */
  function Create(db: Tables, id: Uuid, email: string, displayName: string, locationCity: string,
                  locationState: string, locationCountry: string, newId: Uuid, now: Date,
                  insertSucceeded: bool): (r: (Tables, User))
    ensures r.1 == User(newId, email, displayName, locationCity, locationState, locationCountry, now, None)
    ensures insertSucceeded ==> RowIds(r.0, "users") == RowIds(db, "users") + {newId}
    ensures !insertSucceeded ==> r.0 == db
    ensures forall t | t != "users" :: RowIds(r.0, t) == RowIds(db, t)
  {
    (Insert(db, "users", newId, insertSucceeded), User(newId, email, displayName, locationCity, locationState, locationCountry, now, None))
  }

  /**
   * The returned user depends neither on the `id` argument nor on whether the `INSERT`
   * succeeded, and it is the user the in-memory store creates.
   */
  lemma CreateReturnsUserRegardless(s: UserStore.Store, db: Tables, id1: Uuid, id2: Uuid, email: string, displayName: string,
                                    locationCity: string, locationState: string, locationCountry: string, newId: Uuid, now: Date)
    requires newId !in s
    ensures Create(db, id1, email, displayName, locationCity, locationState, locationCountry, newId, now, true).1
         == Create(db, id2, email, displayName, locationCity, locationState, locationCountry, newId, now, false).1
    ensures Create(db, id1, email, displayName, locationCity, locationState, locationCountry, newId, now, false).1
         == UserStore.Create(s, id1, email, displayName, locationCity, locationState, locationCountry, newId, now).1
  {
  }

  /** The optional arguments of `update` as fields, in the order they are appended. */
  function UpdateFields(email: Option<string>, displayName: Option<string>, locationCity: Option<string>,
                        locationState: Option<string>, locationCountry: Option<string>): seq<Field>
  {
    [ Field("email", if email.Some? then Some(Text(email.value)) else None),
      Field("display_name", if displayName.Some? then Some(Text(displayName.value)) else None),
      Field("location_city", if locationCity.Some? then Some(Text(locationCity.value)) else None),
      Field("location_state", if locationState.Some? then Some(Text(locationState.value)) else None),
      Field("location_country", if locationCountry.Some? then Some(Text(locationCountry.value)) else None) ]
  }

  /**
   * The `queries.append` sequence of `update`: one assignment per given argument, in the
   * order `email`, `display_name`, `location_city`, `location_state`, `location_country`.
   */
  method UpdateAssignments(email: Option<string>, displayName: Option<string>, locationCity: Option<string>,
                           locationState: Option<string>, locationCountry: Option<string>)
    returns (assignments: seq<Assignment>)
    ensures assignments == Present(UpdateFields(email, displayName, locationCity, locationState, locationCountry))
  {
    ghost var fields := UpdateFields(email, displayName, locationCity, locationState, locationCountry);
    assignments := [];
    if email.Some? {
      assignments := assignments + [Assignment("email", Text(email.value))];
    }
    assert assignments == AssignmentOf(fields[0]);
    ghost var before := assignments;
    if displayName.Some? {
      assignments := assignments + [Assignment("display_name", Text(displayName.value))];
    }
    assert assignments == before + AssignmentOf(fields[1]);
    before := assignments;
    if locationCity.Some? {
      assignments := assignments + [Assignment("location_city", Text(locationCity.value))];
    }
    assert assignments == before + AssignmentOf(fields[2]);
    before := assignments;
    if locationState.Some? {
      assignments := assignments + [Assignment("location_state", Text(locationState.value))];
    }
    assert assignments == before + AssignmentOf(fields[3]);
    before := assignments;
    if locationCountry.Some? {
      assignments := assignments + [Assignment("location_country", Text(locationCountry.value))];
    }
    assert assignments == before + AssignmentOf(fields[4]);
    PresentOfFive(fields);
  }

  /** `update`'s statement: `UPDATE users SET ... WHERE id = id` when the list is non-empty, none otherwise. */
  method UpdateQuery(id: Uuid, email: Option<string>, displayName: Option<string>, locationCity: Option<string>,
                     locationState: Option<string>, locationCountry: Option<string>)
    returns (query: Option<UpdateStatement>)
    ensures query == BuildUpdate("users", id, UpdateFields(email, displayName, locationCity, locationState, locationCountry))
    ensures query.None? <==> email.None? && displayName.None? && locationCity.None? && locationState.None? && locationCountry.None?
    ensures query.Some? ==> query.value.table == "users" && query.value.target == id
  {
    var assignments := UpdateAssignments(email, displayName, locationCity, locationState, locationCountry);
    if |assignments| > 0 {
      query := Some(UpdateStatement("users", assignments, id));
    } else {
      query := None;
    }
    ghost var fields := UpdateFields(email, displayName, locationCity, locationState, locationCountry);
    assert email.Some? ==> fields[0].value.Some?;
    assert displayName.Some? ==> fields[1].value.Some?;
    assert locationCity.Some? ==> fields[2].value.Some?;
    assert locationState.Some? ==> fields[3].value.Some?;
    assert locationCountry.Some? ==> fields[4].value.Some?;
  }

  /** The `users` row holding a user; a missing `last_login` is `NULL`. */
  function UserRow(u: User): Row
  {
    map["id" := IdValue(u.id), "email" := Text(u.email), "display_name" := Text(u.displayName),
        "location_city" := Text(u.locationCity), "location_state" := Text(u.locationState),
        "location_country" := Text(u.locationCountry), "created_on" := Integer(u.createdOn),
        "last_login" := (if u.lastLogin.Some? then Integer(u.lastLogin.value) else Null)]
  }

  /** The updated user's row holds each given field's value and keeps the others. */
  lemma ApplyRowGiven(u: User, email: Option<string>, displayName: Option<string>, locationCity: Option<string>,
                      locationState: Option<string>, locationCountry: Option<string>)
    ensures var fields := UpdateFields(email, displayName, locationCity, locationState, locationCountry);
            var expected := UserRow(UserStore.Apply(u, email, displayName, locationCity, locationState, locationCountry));
            forall k | 0 <= k < |fields| ::
              expected[fields[k].column] == if fields[k].value.Some? then fields[k].value.value else UserRow(u)[fields[k].column]
  {
    var fields := UpdateFields(email, displayName, locationCity, locationState, locationCountry);
    var a := UserStore.Apply(u, email, displayName, locationCity, locationState, locationCountry);
    var expected := UserRow(a);
    forall k | 0 <= k < |fields|
      ensures expected[fields[k].column] == if fields[k].value.Some? then fields[k].value.value else UserRow(u)[fields[k].column]
    {
      if k == 0 {
        assert expected["email"] == Text(a.email);
      } else if k == 1 {
        assert expected["display_name"] == Text(a.displayName);
      } else if k == 2 {
        assert expected["location_city"] == Text(a.locationCity);
      } else if k == 3 {
        assert expected["location_state"] == Text(a.locationState);
      } else {
        assert expected["location_country"] == Text(a.locationCountry);
      }
    }
  }

  /** The columns of a `users` row. */
  lemma UserRowKeys(u: User)
    ensures UserRow(u).Keys == {"id", "email", "display_name", "location_city", "location_state",
                                "location_country", "created_on", "last_login"}
  {
  }

  /** The updated user's row agrees with the old one outside the five updatable columns. */
  lemma ApplyRowOthers(u: User, email: Option<string>, displayName: Option<string>, locationCity: Option<string>,
                       locationState: Option<string>, locationCountry: Option<string>)
    ensures var fields := UpdateFields(email, displayName, locationCity, locationState, locationCountry);
            var row := UserRow(u);
            var expected := UserRow(UserStore.Apply(u, email, displayName, locationCity, locationState, locationCountry));
            expected.Keys == row.Keys && forall c | c in row && NotAColumn(fields, c) :: expected[c] == row[c]
  {
    var fields := UpdateFields(email, displayName, locationCity, locationState, locationCountry);
    var row := UserRow(u);
    var expected := UserRow(UserStore.Apply(u, email, displayName, locationCity, locationState, locationCountry));
    UserRowKeys(u);
    UserRowKeys(UserStore.Apply(u, email, displayName, locationCity, locationState, locationCountry));
    assert expected["id"] == row["id"] && expected["created_on"] == row["created_on"] && expected["last_login"] == row["last_login"];
    forall c | c in row && NotAColumn(fields, c)
      ensures expected[c] == row[c]
    {
      assert c != fields[0].column && c != fields[1].column && c != fields[2].column;
      assert c != fields[3].column && c != fields[4].column;
      assert c == "id" || c == "created_on" || c == "last_login";
    }
  }

  /** Running the built assignments on a user's row gives the row of the updated user. */
  lemma ExecFieldsMatchesApply(u: User, email: Option<string>, displayName: Option<string>, locationCity: Option<string>,
                               locationState: Option<string>, locationCountry: Option<string>)
    ensures ExecAssignments(UserRow(u), Present(UpdateFields(email, displayName, locationCity, locationState, locationCountry)))
         == UserRow(UserStore.Apply(u, email, displayName, locationCity, locationState, locationCountry))
  {
    var fields := UpdateFields(email, displayName, locationCity, locationState, locationCountry);
    ApplyRowGiven(u, email, displayName, locationCity, locationState, locationCountry);
    ApplyRowOthers(u, email, displayName, locationCity, locationState, locationCountry);
    ExecPresentRow(UserRow(u), fields, UserRow(UserStore.Apply(u, email, displayName, locationCity, locationState, locationCountry)));
  }

  /**
   * Backends agree on `update`: running the statement `UpdateQuery` builds (if any) on a
   * user's row gives the row of the user the in-memory store computes.
   */
  lemma UpdateAgreesWithMemory(u: User, email: Option<string>, displayName: Option<string>, locationCity: Option<string>,
                               locationState: Option<string>, locationCountry: Option<string>)
    ensures var q := BuildUpdate("users", u.id, UpdateFields(email, displayName, locationCity, locationState, locationCountry));
            var row := if q.Some? then ExecAssignments(UserRow(u), q.value.assignments) else UserRow(u);
            row == UserRow(UserStore.Apply(u, email, displayName, locationCity, locationState, locationCountry))
  {
    ExecFieldsMatchesApply(u, email, displayName, locationCity, locationState, locationCountry);
  }

  /** `delete` as written: the existence check and the `DELETE` both run on `markers`. */
  function DeleteAsWritten(db: Tables, id: Uuid): (r: DeleteOutcome)
    ensures r.deleted <==> id in RowIds(db, "markers")
    ensures RowIds(r.tables, "users") == RowIds(db, "users")
  {
    DeleteChecked(db, "markers", id)
  }

  /** A stored user whose id is no marker's: `delete` reports `false` and the user stays. */
  lemma DeleteAsWrittenMissesUsers(id: Uuid)
    ensures var db: Tables := map["users" := {id}, "markers" := {}];
            var r := DeleteAsWritten(db, id);
            !r.deleted && r.issued.None? && id in RowIds(r.tables, "users")
  {
  }

  /** `delete` on `users`: the existence check, then the `DELETE` only when the row was found. */
  function Delete(db: Tables, id: Uuid): (r: DeleteOutcome)
    ensures r.deleted <==> id in RowIds(db, "users")
    ensures r.issued.Some? <==> r.deleted
    ensures RowIds(r.tables, "users") == RowIds(db, "users") - {id}
  {
    DeleteChecked(db, "users", id)
  }

  /** Backends agree on `delete`: same result, same ids left, when the table holds the store's ids. */
  lemma DeleteAgreesWithMemory(s: UserStore.Store, db: Tables, id: Uuid)
    requires RowIds(db, "users") == s.Keys
    ensures Delete(db, id).deleted == Stores.Delete(s, id).1
    ensures RowIds(Delete(db, id).tables, "users") == Stores.Delete(s, id).0.Keys
  {
  }

  /** A user whose `INSERT` succeeded can be deleted, once. */
  lemma CreateThenDelete(db: Tables, id: Uuid, email: string, displayName: string, locationCity: string,
                         locationState: string, locationCountry: string, newId: Uuid, now: Date)
    ensures var (db1, u) := Create(db, id, email, displayName, locationCity, locationState, locationCountry, newId, now, true);
            var first := Delete(db1, u.id);
            first.deleted && !Delete(first.tables, u.id).deleted
  {
  }
}
