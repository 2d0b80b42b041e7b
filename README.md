# AndysWayServer record stores in Dafny

This project models the record-store layer of AndysWayServer, a Swift (Hummingbird)
backend that keeps map markers and users. It covers:

- **The marker repository contract.** `MarkerRepository` is a protocol with create, get,
  list, update, delete and deleteAll. Its meaning is stated as functions over the
  dictionary of markers by id in module `MarkerRepository`, with the shared dictionary
  operations in `Stores`.
- **The three in-memory actors.**
  - `MarkerMemoryRepository` for the current marker (type, latitude, longitude).
  - An older `MarkerMemoryRepository` (title, order, url, completed), whose `create`
    derives the url from a prefix and the id's string form.
  - `UserMemoryRepository`.

  Each actor is a Dafny class with a `map` field. Its methods are proved to change that
  map exactly as the contract functions say. `list` is a loop over the keys, proved to
  return every stored record exactly once.
- **`Marker_Type`.** The closed enumeration and its raw-string codec, with the round trip.
- **Fluent `User.create` and `User.login`.**
  - `create` refuses a duplicate email with a conflict, then hashes the password and
    saves the user.
  - `login` answers `nil` alike for an unknown email, a missing hash and a rejected
    password.
  - `UserResponse(from:)` and `username` are modelled as well.
  - Bcrypt's `hash` and `verify` are function parameters.
- **The relational repositories' statement decisions.**
  - The partial `UPDATE` each one builds: the nested `if let` trees and the
    `queries.append` list.
  - The check-then-`DELETE` of `delete`.
  - What `create` returns.

  Statements are values: a table, ordered (column, value) assignments and the id of the
  `WHERE id = ...` clause. Running an `UPDATE` on a row is modelled, so each backend's
  update, taken as such a value, is proved to have the same effect on a row as the
  in-memory update has on a record. This says nothing about whether the statement's
  text is accepted by Postgres. The older marker variant writes `order` unquoted in its
  `SET`, which Postgres rejects as a syntax error. The user `update` splices the values
  unquoted into plain strings and then interpolates the joined list into the query as a
  single bound parameter (`UPDATE users SET $1 WHERE id = $2`), so Postgres never runs
  it. `UserPostgres.UpdateAgreesWithMemory` is therefore about the statement the code
  means to issue, not about a statement that runs. Both marker backends' `delete` and the
  corrected user `delete` are proved to agree with the in-memory delete. The user
  `delete` as written does not agree with it (see "## Findings").

Inputs the code draws from outside are parameters:

- the fresh `UUID()` is `newId`, required to be unused;
- `Date.now` is `now`;
- Bcrypt's `hash` and `verify`;
- whether the database accepted an `INSERT`.

`Float` latitude and longitude are `real`, only stored and copied. A UUID is sixteen
bytes, and `uuidString` is Foundation's upper-case 8-4-4-4-12 form with a parser back.

Where the code does something other than what one would expect of a record store, the
model follows the code:

- **Unknown marker type.** One would expect a stored row with an unknown `marker_type`
  to give a validation error. The relational backend force-unwraps
  `Marker_Type(rawValue:)` when reading a row, so an unknown string stops the process
  instead: `MarkerPostgres.DecodeMarker`.
- **Duplicate emails.** One would expect a user store to refuse a second user with a
  stored email. The in-memory `UserMemoryRepository.create` does no such check:
  `UserStore.CreateAllowsDuplicateEmail`. Only the Fluent `User.create` refuses a
  duplicate. No constraint on the `users` table backs it: the only
  `unique(on: "email")` is in the migration for a schema named `user`.
- **Failed `INSERT`.** One would expect a backend failure to reach the caller. The
  current-marker and user relational `create`s catch it, only log it and return the
  record anyway: `UserPostgres.CreateReturnsUserRegardless`. The older marker variant's
  relational `create` has no `catch`, so there the failure does reach the caller.
- **Marker fields.** A marker has only id, type, latitude and longitude, with no
  creator or timestamp fields, and the model follows that.

Files:

| file | module |
|---|---|
| `wrappers.dfy` | `Option`, `Result` |
| `uuids.dfy` | UUIDs and their string form |
| `stores.dfy` | shared dictionary operations: get, delete, listings |
| `marker.dfy` | `Marker_Type` and the marker record |
| `marker_repository.dfy` | the marker repository contract |
| `marker_memory.dfy` | the in-memory marker actor |
| `legacy_marker.dfy`, `legacy_marker_memory.dfy` | the older marker variant and its actor |
| `user_store.dfy`, `user_memory.dfy` | the user record and the in-memory user actor |
| `user_auth.dfy` | Fluent `User.create`, `User.login`, `UserResponse`; the helper `NewUser` is the row `create` saves (`Sources/App/Models/User.swift:65-68`), stated by `UserAuth.CreateOutcome` |
| `sql.dfy` | statements, the general partial-update builder, running statements on rows |
| `marker_postgres.dfy`, `legacy_marker_postgres.dfy`, `user_postgres.dfy` | the relational repositories' decisions; the helpers `MarkerRow`, `UserRow` and `LegacyMarkerPostgres.InsertedRow` are rows as maps (the last is the row the older variant's `INSERT` writes, `Sources/App/Repositories/MarkerPostgresRepository.swift:28-34`, stated by `LegacyMarkerPostgres.CreateReturnsInsertedRow`) |

## Model

| member | source | states |
|---|---|---|
| MarkerTypes.RawValue | Sources/App/Repositories/Marker.swift:4-8 | `rawValue` of each case, which `Marker_Type(rawValue:)` parses back to the same case |
| MarkerTypes.FromRawInverse | Sources/App/Repositories/Marker.swift:4-8 | `Marker_Type(rawValue:)` gives a case with that raw value, and `nil` exactly when no case has it |
| MarkerTypes.Id | Sources/App/Repositories/Marker.swift:10 | a case's `id` is its raw value and parses back to the case |
| MarkerTypes.RawValueInjective | Sources/App/Repositories/Marker.swift:5-8 | distinct cases have distinct raw values |
| MarkerTypes.AllCasesComplete | Sources/App/Repositories/Marker.swift:4-8 | `allCases` has four entries, no repeats, and holds every case |
| MarkerTypes.MarkerEquality | Sources/App/Repositories/Marker.swift:14-25 | two markers are equal iff id, type, latitude and longitude all are |
| Stores.Get | Sources/App/Repositories/MarkerRepository.swift:7-8 | `get` gives the stored record exactly when the id is a key, and `nil` (a normal result) otherwise |
| Stores.Delete | Sources/App/Repositories/MarkerRepository.swift:13-14 | `delete` returns true iff the id was present; afterwards the key is gone, every other entry is unchanged, and the size drops by one exactly when it returned true |
| Stores.DeleteTwice | Sources/App/Repositories/Markers/MarkerMemoryRepository.swift:48-54 | a second `delete` of the same id returns false and changes nothing |
| Stores.DeleteKeepsKeyed | Sources/App/Repositories/Markers/MarkerMemoryRepository.swift:48-54 | `delete` keeps every record under its own id |
| Stores.DistinctKeysCount | Sources/App/Repositories/Markers/MarkerMemoryRepository.swift:25-27 | records with pairwise distinct ids have as many ids as records |
| Stores.ListingLength | Sources/App/Repositories/MarkerRepository.swift:9-10 | a listing of the store has one entry per key |
| Stores.ListingHoldsEveryRecord | Sources/App/Repositories/MarkerRepository.swift:9-10 | a listing holds every stored record |
| Stores.ListingOfEmpty | Sources/App/Repositories/Markers/MarkerMemoryRepository.swift:57-59 | after `deleteAll` the listing is empty |
| Stores.ListsKeysStep | Sources/App/Repositories/Markers/MarkerMemoryRepository.swift:25-27 | listing one more stored record keeps the partial listing exact |
| MarkerRepository.Create | Sources/App/Repositories/Markers/MarkerMemoryRepository.swift:12-17 | the new marker has the fresh id and the given fields, a `get` of that id returns it, the map grows by exactly that key, and earlier entries are unchanged |
| MarkerRepository.Apply | Sources/App/Repositories/Markers/MarkerMemoryRepository.swift:32-40 | the `if let` writes on the copy: each given field takes its value; the id and every field given `nil` keep theirs |
| MarkerRepository.ApplyNothing | Sources/App/Repositories/Markers/MarkerMemoryRepository.swift:31-43 | an update with all arguments `nil` leaves the marker as it was |
| MarkerRepository.ApplyIdempotent | Sources/App/Repositories/Markers/MarkerMemoryRepository.swift:31-43 | writing the same fields twice equals writing them once |
| MarkerRepository.Update | Sources/App/Repositories/Markers/MarkerMemoryRepository.swift:30-45 | an absent id gives `nil` and inserts nothing; a present id gets the updated marker stored under it and returned, with the key set and all other entries unchanged |
| MarkerRepository.UpdateNothing | Sources/App/Repositories/Markers/MarkerMemoryRepository.swift:30-45 | an update with all arguments `nil` returns the stored marker and leaves the map as it was |
| MarkerRepository.UpdateIdempotent | Sources/App/Repositories/Markers/MarkerMemoryRepository.swift:30-45 | repeating an update returns the same marker and changes nothing more |
| MarkerRepository.FreshIdsTail | Sources/App/Repositories/Markers/MarkerMemoryRepository.swift:13-16 | after one create, the remaining fresh ids are still unused |
| MarkerRepository.CreateEach | Sources/App/Repositories/Markers/MarkerMemoryRepository.swift:12-17 | a run of creates returns one marker per call and grows the map by one key per call, leaving earlier entries unchanged |
| MarkerRepository.CreateEachCreates | Sources/App/Repositories/Markers/MarkerMemoryRepository.swift:12-17 | the i-th create stores a marker under the i-th id with the requested type, latitude and longitude, and a `get` returns it |
| MarkerRepository.CreateEachValid | Sources/App/Repositories/Markers/MarkerMemoryRepository.swift:12-17 | any number of creates keeps every marker under its own id |
| MarkerRepository.CreatedAllListed | Sources/App/Repositories/Markers/MarkerMemoryRepository.swift:25-27 | after the creates, a `list` has one entry per earlier marker and per call, and holds every created marker |
| MarkerMemory.MarkerMemoryRepository.constructor | Sources/App/Repositories/Markers/MarkerMemoryRepository.swift:7-9 | a new store is empty |
| MarkerMemory.MarkerMemoryRepository.Create | Sources/App/Repositories/Markers/MarkerMemoryRepository.swift:12-17 | the new map and the returned marker are those of `MarkerRepository.Create` |
| MarkerMemory.MarkerMemoryRepository.Get | Sources/App/Repositories/Markers/MarkerMemoryRepository.swift:20-22 | returns the stored marker exactly when the id is a key, and changes nothing |
| MarkerMemory.MarkerMemoryRepository.List | Sources/App/Repositories/Markers/MarkerMemoryRepository.swift:25-27 | returns every stored marker exactly once, as many as there are keys |
| MarkerMemory.MarkerMemoryRepository.Update | Sources/App/Repositories/Markers/MarkerMemoryRepository.swift:30-45 | copy, field writes and write-back leave the map and return the marker `MarkerRepository.Update` gives |
| MarkerMemory.MarkerMemoryRepository.Delete | Sources/App/Repositories/Markers/MarkerMemoryRepository.swift:48-54 | the new map and the result are those of `Stores.Delete` |
| MarkerMemory.MarkerMemoryRepository.DeleteAll | Sources/App/Repositories/Markers/MarkerMemoryRepository.swift:57-59 | the map is empty afterwards, whatever it held |
| LegacyMarkers.UrlFor | Sources/App/Repositories/MarkerMemoryRepository.swift:14 | the url starts with the prefix and ends in the id's 36-character string form |
| LegacyMarkers.UrlDeterminesId | Sources/App/Repositories/MarkerMemoryRepository.swift:14 | a url built as prefix plus `uuidString` ends in the id's string form, which parses back to the id |
| LegacyMarkers.UrlForInjective | Sources/App/Repositories/MarkerMemoryRepository.swift:14 | equal derived urls mean equal ids and equal prefixes |
| LegacyMarkers.UrlsDistinct | Sources/App/Repositories/MarkerMemoryRepository.swift:12-18 | in a store built by `create`, no two markers share a url |
| LegacyMarkers.Create | Sources/App/Repositories/MarkerMemoryRepository.swift:12-18 | the new marker has the fresh id, the given title and order, url `urlPrefix + uuidString` and `completed` false; it is stored under its id and earlier entries are unchanged |
| LegacyMarkers.Apply | Sources/App/Repositories/MarkerMemoryRepository.swift:32-43 | the `if let` writes on the copy: given fields take their values; id and url never change; a `nil` order leaves the stored order, so it cannot clear it |
| LegacyMarkers.Update | Sources/App/Repositories/MarkerMemoryRepository.swift:31-46 | an absent id gives `nil` and inserts nothing; a present id gets the updated marker stored and returned, with all other entries unchanged |
| LegacyMarkers.UpdateNothing | Sources/App/Repositories/MarkerMemoryRepository.swift:31-46 | an update with all arguments `nil` returns the stored marker and changes nothing |
| LegacyMarkerMemory.MarkerMemoryRepository.constructor | Sources/App/Repositories/MarkerMemoryRepository.swift:7-9 | a new store is empty |
| LegacyMarkerMemory.MarkerMemoryRepository.Create | Sources/App/Repositories/MarkerMemoryRepository.swift:12-18 | the new map and the returned marker are those of `LegacyMarkers.Create` |
| LegacyMarkerMemory.MarkerMemoryRepository.Get | Sources/App/Repositories/MarkerMemoryRepository.swift:21-23 | returns the stored marker exactly when the id is a key, and changes nothing |
| LegacyMarkerMemory.MarkerMemoryRepository.List | Sources/App/Repositories/MarkerMemoryRepository.swift:26-28 | returns every stored marker exactly once, as many as there are keys |
| LegacyMarkerMemory.MarkerMemoryRepository.Update | Sources/App/Repositories/MarkerMemoryRepository.swift:31-46 | the map and result are those of `LegacyMarkers.Update` |
| LegacyMarkerMemory.MarkerMemoryRepository.Delete | Sources/App/Repositories/MarkerMemoryRepository.swift:49-55 | the new map and the result are those of `Stores.Delete` |
| LegacyMarkerMemory.MarkerMemoryRepository.DeleteAll | Sources/App/Repositories/MarkerMemoryRepository.swift:58-60 | the map is empty afterwards |
| UserStore.Create | Sources/App/Repositories/Users/UserMemoryRepository.swift:12-17 | the stored user has the fresh id, the given email, name and location, `created_on` from the clock and no `last_login`; the map grows by that key and earlier entries are unchanged |
| UserStore.CreateIgnoresId | Sources/App/Repositories/Users/UserMemoryRepository.swift:12-13 | the `id` argument makes no difference to what is stored or returned |
| UserStore.CreateAllowsDuplicateEmail | Sources/App/Repositories/Users/UserMemoryRepository.swift:12-17 | `create` succeeds with an email another stored user already has |
| UserStore.Apply | Sources/App/Repositories/Users/UserMemoryRepository.swift:26-41 | the five `if let` writes on the copy: given fields take their values; id, `created_on` and `last_login` never change |
| UserStore.Update | Sources/App/Repositories/Users/UserMemoryRepository.swift:25-46 | an absent id gives `nil` and inserts nothing; a present id gets the updated user stored and returned, with all other entries unchanged |
| UserStore.UpdateNothing | Sources/App/Repositories/Users/UserMemoryRepository.swift:25-46 | an update with all arguments `nil` returns the stored user and changes nothing |
| UserMemory.UserMemoryRepository.constructor | Sources/App/Repositories/Users/UserMemoryRepository.swift:7-9 | a new store is empty |
| UserMemory.UserMemoryRepository.Create | Sources/App/Repositories/Users/UserMemoryRepository.swift:12-17 | the new map and the returned user are those of `UserStore.Create` |
| UserMemory.UserMemoryRepository.Get | Sources/App/Repositories/Users/UserMemoryRepository.swift:20-22 | returns the stored user exactly when the id is a key, and changes nothing |
| UserMemory.UserMemoryRepository.Update | Sources/App/Repositories/Users/UserMemoryRepository.swift:25-46 | copy, field writes and write-back leave the map and result of `UserStore.Update` |
| UserMemory.UserMemoryRepository.Delete | Sources/App/Repositories/Users/UserMemoryRepository.swift:49-55 | the new map and the result are those of `Stores.Delete` |
| UserAuth.Username | Sources/App/Models/User.swift:53 | `username` is the display name |
| UserAuth.ResponseFrom | Sources/App/Models/User.swift:129-137 | the response copies id, display name, email, location fields and `created_on` |
| UserAuth.ResponseIgnoresPassword | Sources/App/Models/User.swift:110-137 | the response has no password: users differing only in the hash give the same response |
| UserAuth.FindEmail | Sources/App/Models/User.swift:58-60 | `.first()` finds the first row with the email, and none exactly when no row has it |
| UserAuth.FirstWithEmail | Sources/App/Models/User.swift:58-60 | the user `.first()` returns: none exactly when no row has the email; otherwise a row with that email, and no earlier row has it |
| UserAuth.CountEmailAppend | Sources/App/Models/User.swift:68 | saving a row adds one to the count of its own email only |
| UserAuth.CountEmailZero | Sources/App/Models/User.swift:58-62 | no row has the email exactly when the lookup finds none |
| UserAuth.CreateOutcome | Sources/App/Models/User.swift:56-70 | a conflict exactly when a row has the email, with the table unchanged; otherwise one row appended and returned, holding `hash(password)` and the given fields |
| UserAuth.CreateKeepsUniqueEmails | Sources/App/Models/User.swift:58-68 | `create` keeps emails unique in the table |
| UserAuth.CreateTwiceConflicts | Sources/App/Models/User.swift:58-68 | two creates with a new email: the first succeeds, the second conflicts, and exactly one user has the email |
| UserAuth.Login | Sources/App/Models/User.swift:73-85 | `nil` for an unknown email and for a missing hash; the matched user iff `verify(password, hash)` holds |
| UserAuth.LoginAfterCreate | Sources/App/Models/User.swift:56-85 | a user just created logs in with the same password whenever `verify` accepts a password against its own hash |
| UserAuth.UserDatabase.Create | Sources/App/Models/User.swift:56-70 | query, guard, hash and save leave the table and result of `CreateOutcome` |
| Sql.Present | Sources/App/Repositories/Users/UserPostgresRepository.swift:74-78 | the builder gives no more assignments than there are fields, and none at all exactly when no field has a value; which assignment each field gives is stated by `Sql.PresentSound`, `Sql.PresentComplete` and `Sql.PresentAppend` |
| Sql.PresentSound | Sources/App/Repositories/Users/UserPostgresRepository.swift:74-78 | every built assignment is a field's column with its given value |
| Sql.PresentComplete | Sources/App/Repositories/Users/UserPostgresRepository.swift:74-78 | every field given a value has its assignment |
| Sql.PresentAppend | Sources/App/Repositories/Users/UserPostgresRepository.swift:74-78 | building a concatenation of field lists concatenates the assignments, so order follows the fields |
| Sql.PresentOfThree | Sources/App/Repositories/Markers/MarkerPostgresRepository.swift:83-111 | three fields build the three optional assignments in order |
| Sql.PresentOfFive | Sources/App/Repositories/Users/UserPostgresRepository.swift:74-78 | five fields build the five optional assignments in order |
| Sql.BuildUpdate | Sources/App/Repositories/Users/UserPostgresRepository.swift:80-82 | no statement exactly when no field has a value; otherwise the built assignments on the given table with `WHERE id` the given id |
| Sql.ExecAssignments | Sources/App/Repositories/Users/UserPostgresRepository.swift:80-84 | the row after a `SET`, as a map update of the row by each assignment in turn; the agreement lemmas use it only for distinct columns the row already has, where it gives each assigned column its value and keeps every other column |
| Sql.ExecPresentKeys | Sources/App/Repositories/Users/UserPostgresRepository.swift:81 | running the statement adds and removes no column |
| Sql.ExecPresentOthers | Sources/App/Repositories/Users/UserPostgresRepository.swift:81 | columns not among the fields keep their values |
| Sql.ExecPresentField | Sources/App/Repositories/Users/UserPostgresRepository.swift:81 | each given column takes its value; the others keep the row's |
| Sql.ExecPresentRow | Sources/App/Repositories/Users/UserPostgresRepository.swift:81 | the row after the statement is the row with exactly the given columns replaced |
| Sql.SelectId | Sources/App/Repositories/Markers/MarkerPostgresRepository.swift:133-138 | the existence `SELECT` returns no row exactly when the id is not in the table |
| Sql.ExecDelete | Sources/App/Repositories/Markers/MarkerPostgresRepository.swift:143 | `DELETE ... WHERE id` removes that id from that table and leaves every other table as it was |
| Sql.DeleteChecked | Sources/App/Repositories/Markers/MarkerPostgresRepository.swift:131-145 | `delete` returns true iff the existence `SELECT` finds the id; the `DELETE` is issued exactly then; only that row of that table goes |
| MarkerPostgres.UpdateQuery | Sources/App/Repositories/Markers/MarkerPostgresRepository.swift:80-111 | no `UPDATE` exactly when all three are `nil`; otherwise it targets `markers` `WHERE id` the id, assigns exactly the given columns in the order `marker_type`, `latitude`, `longitude`, and writes the type as its raw value |
| MarkerPostgres.UpdateQueryIsBuilder | Sources/App/Repositories/Markers/MarkerPostgresRepository.swift:83-111 | the eight hand-written branches are the general builder applied to the three fields |
| MarkerPostgres.ApplyRowGiven | Sources/App/Repositories/Markers/MarkerMemoryRepository.swift:32-40 | the updated marker's row holds each given field's value, and the stored value for a field given `nil` |
| MarkerPostgres.ApplyRowOthers | Sources/App/Repositories/Markers/MarkerMemoryRepository.swift:32-40 | the updated marker's row has the same columns and keeps `id`, the column no field updates |
| MarkerPostgres.ExecFieldsMatchesApply | Sources/App/Repositories/Markers/MarkerPostgresRepository.swift:83-114 | running the built assignments on a marker's row gives the row of the marker the in-memory update computes |
| MarkerPostgres.UpdateAgreesWithMemory | Sources/App/Repositories/Markers/MarkerPostgresRepository.swift:80-114 | the issued statement, or none, leaves the row of the in-memory updated marker |
| MarkerPostgres.DecodeMarker | Sources/App/Repositories/Markers/MarkerPostgresRepository.swift:49-50 | a row decodes to a marker with its fields exactly when its `marker_type` is a raw value; otherwise the force unwrap traps |
| MarkerPostgres.DecodeWrittenRow | Sources/App/Repositories/Markers/MarkerPostgresRepository.swift:49-50 | a row written with a marker's raw type reads back as that marker |
| MarkerPostgres.DecodeUnknownTypeTraps | Sources/App/Repositories/Markers/MarkerPostgresRepository.swift:50 | an unknown type string traps rather than giving a validation error |
| MarkerPostgres.Delete | Sources/App/Repositories/Markers/MarkerPostgresRepository.swift:131-145 | returns true iff the id is in `markers`; the `DELETE` is issued exactly then |
| MarkerPostgres.DeleteAgreesWithMemory | Sources/App/Repositories/Markers/MarkerPostgresRepository.swift:131-145 | with the table holding the store's ids, the result and the remaining ids match the in-memory `delete` |
| LegacyMarkerPostgres.Create | Sources/App/Repositories/MarkerPostgresRepository.swift:26-35 | the marker has the fresh id, title and order as given, url `urlPrefix + uuidString` naming its id, and `completed` `nil` |
| LegacyMarkerPostgres.CreateDiffersFromMemoryInCompleted | Sources/App/Repositories/MarkerPostgresRepository.swift:34 | the relational `create` returns what the in-memory one does except `completed`, which is `nil` instead of false |
| LegacyMarkerPostgres.CreateReturnsInsertedRow | Sources/App/Repositories/MarkerPostgresRepository.swift:28-34 | the returned marker is the row the `INSERT` writes |
| LegacyMarkerPostgres.UpdateQuery | Sources/App/Repositories/MarkerPostgresRepository.swift:69-101 | no `UPDATE` exactly when all three are `nil`; otherwise it targets `markers` `WHERE id` the id and assigns exactly the given columns in the order `title`, `order`, `completed` |
| LegacyMarkerPostgres.UpdateQueryIsBuilder | Sources/App/Repositories/MarkerPostgresRepository.swift:73-101 | the eight hand-written branches are the general builder applied to the three fields |
| LegacyMarkerPostgres.ApplyRowGiven | Sources/App/Repositories/MarkerMemoryRepository.swift:32-43 | the updated marker's row holds each given field's value, and the stored value for a field given `nil` |
| LegacyMarkerPostgres.ApplyRowOthers | Sources/App/Repositories/MarkerMemoryRepository.swift:32-43 | the updated marker's row has the same columns and keeps `id` and `url`, which no field updates |
| LegacyMarkerPostgres.ExecFieldsMatchesApply | Sources/App/Repositories/MarkerPostgresRepository.swift:73-104 | running the built assignments on a marker's row gives the row of the in-memory updated marker |
| LegacyMarkerPostgres.UpdateAgreesWithMemory | Sources/App/Repositories/MarkerPostgresRepository.swift:69-104 | the issued statement, or none, leaves the row of the in-memory updated marker, so a `nil` order keeps the stored order in both |
| LegacyMarkerPostgres.Delete | Sources/App/Repositories/MarkerPostgresRepository.swift:121-135 | returns true iff the id is in `markers`; the `DELETE` is issued exactly then |
| LegacyMarkerPostgres.DeleteAgreesWithMemory | Sources/App/Repositories/MarkerPostgresRepository.swift:121-135 | with the table holding the store's ids, the result and remaining ids match the in-memory `delete` |
| UserPostgres.Insert | Sources/App/Repositories/Users/UserPostgresRepository.swift:33-45 | an accepted `INSERT` adds the id to its table only; a failed one changes nothing |
| UserPostgres.CreateAsWritten | Sources/App/Repositories/Users/UserPostgresRepository.swift:29-47 | the returned user has a fresh id, the given fields, `created_on` from the clock and no `last_login`; the `INSERT` goes to `markers` |
| UserPostgres.CreateAsWrittenMissesUsers | Sources/App/Repositories/Users/UserPostgresRepository.swift:36 | the user `create` returns is not in `users` afterwards |
| UserPostgres.Create | Sources/App/Repositories/Users/UserPostgresRepository.swift:29-47 | as written but inserting into `users`: an accepted `INSERT` adds exactly the new id there, a failed one leaves the database as it was, and no other table changes |
| UserPostgres.CreateReturnsUserRegardless | Sources/App/Repositories/Users/UserPostgresRepository.swift:29-46 | the returned user depends neither on the `id` argument nor on whether the `INSERT` failed, and equals the in-memory `create`'s user |
| UserPostgres.UpdateAssignments | Sources/App/Repositories/Users/UserPostgresRepository.swift:71-78 | the appends build one assignment per given argument, in the order email, display_name, location_city, location_state, location_country |
| UserPostgres.UpdateQuery | Sources/App/Repositories/Users/UserPostgresRepository.swift:70-82 | no `UPDATE` exactly when every argument is `nil`; otherwise `UPDATE users` with those assignments `WHERE id` the id |
| UserPostgres.ApplyRowGiven | Sources/App/Repositories/Users/UserMemoryRepository.swift:26-41 | the updated user's row holds each given field's value |
| UserPostgres.ApplyRowOthers | Sources/App/Repositories/Users/UserMemoryRepository.swift:26-41 | the updated user's row keeps id, `created_on` and `last_login` |
| UserPostgres.ExecFieldsMatchesApply | Sources/App/Repositories/Users/UserPostgresRepository.swift:74-84 | running the built assignments on a user's row gives the row of the in-memory updated user |
| UserPostgres.UpdateAgreesWithMemory | Sources/App/Repositories/Users/UserPostgresRepository.swift:70-84 | the statement, or none, leaves the row of the in-memory updated user |
| UserPostgres.DeleteAsWritten | Sources/App/Repositories/Users/UserPostgresRepository.swift:102-116 | returns true iff the id is in `markers`, and never removes a user |
| UserPostgres.DeleteAsWrittenMissesUsers | Sources/App/Repositories/Users/UserPostgresRepository.swift:104-115 | a stored user whose id is no marker's: `delete` returns false, issues no `DELETE`, and the user stays |
| UserPostgres.Delete | Sources/App/Repositories/Users/UserPostgresRepository.swift:102-116 | on `users`: true iff the id is there; the `DELETE` is issued exactly then and removes only that id |
| UserPostgres.DeleteAgreesWithMemory | Sources/App/Repositories/Users/UserPostgresRepository.swift:102-116 | with the table holding the store's ids, the result and remaining ids match the in-memory `delete` |
| UserPostgres.CreateThenDelete | Sources/App/Repositories/Users/UserPostgresRepository.swift:29-116 | a user whose `INSERT` succeeded is deleted by the first `delete` and not found by a second |
| Uuids.UuidString | Sources/App/Repositories/MarkerMemoryRepository.swift:14 | Foundation's `uuidString`: 36 characters, dashes at the 8-4-4-4-12 boundaries, and each other character the upper-case digit of its nibble of the UUID |
| Uuids.DigitValue | Sources/App/Repositories/MarkerMemoryRepository.swift:14 | reading an upper-case hex digit gives its value, and any other character is rejected |
| Uuids.UuidRoundTrip | Sources/App/Repositories/MarkerMemoryRepository.swift:14 | `uuidString` parses back to the same UUID |
| Uuids.UuidStringInjective | Sources/App/Repositories/MarkerMemoryRepository.swift:14 | distinct UUIDs have distinct string forms |
| Uuids.ParseUuid | Sources/App/Repositories/MarkerMemoryRepository.swift:14 | the model's own inverse of `uuidString`, which `LegacyMarkers.UrlDeterminesId` uses to read the id back from a url: it succeeds exactly on strings in the 8-4-4-4-12 upper-case form. It is not Foundation's `UUID(uuidString:)`, which also accepts lower case |

## Left out

- Protocol dispatch: Dafny traits are not used. The `MarkerRepository` protocol is a module of functions that the in-memory marker store and the relational statements are proved against.
- Actor isolation, `async`/`await` and `Sendable`: every operation is a sequential method, which is what actor serialisation gives.
- Query execution, row decoding and `for try await` streaming in the relational repositories are network I/O. The relational `get` and `list` are therefore not modelled beyond `MarkerPostgres.DecodeMarker`.
- The re-fetch `SELECT`s after `update` of the current marker (Sources/App/Repositories/Markers/MarkerPostgresRepository.swift:118-122) and of the user repository (Sources/App/Repositories/Users/UserPostgresRepository.swift:89-93) name columns their tables do not have, and the user one reads `markers`. They are not modelled.
- The older marker variant's re-fetch after `update` (Sources/App/Repositories/MarkerPostgresRepository.swift:108-117) names only columns of its table. The marker it reads back is query I/O and is not modelled.
- Sql.ExecAssignments: an `UPDATE` that assigns the same column twice, or names a column the table lacks, is rejected by Postgres, and Postgres evaluates every `SET` expression against the old row. None of this is modelled: the model applies the assignments as successive map updates, which agrees with Postgres only for distinct columns the row has, the only case the agreement lemmas use.
- SQL text is not modelled: quoting, the `", "` join, and whether values are bound or spliced into the string. The user `update` splices values into plain strings. The older marker variant writes its `order` column unquoted in `UPDATE`, though `order` is a reserved word.
- The INSERT of the current marker's relational `create` names columns its table does not have (`marker_id`, `created_at`), and its failure is only logged. Its returned marker is just the given fields under the fresh id; it is not modelled further.
- `createTable`, the migrations, `Application+build.swift`, the controllers and the routes are schema bookkeeping and HTTP plumbing.
- LegacyMarkerPostgres.Create: only the returning case is modelled. The `INSERT` has no `catch`, so a failed `INSERT` throws out of `create`; that outcome is not modelled.
- Bcrypt and the `NIOThreadPool` hop are foreign code: `hash` and `verify` are function parameters. Failures of `runIfActive` and `save` are not modelled.
- Floating point: latitude and longitude are `real`, never computed on. `Float` NaN, which is unequal to itself, is not modelled. `MarkerTypes.MarkerEquality` is stated for the model's equality.
- `Date` is an integer clock reading.
- UUID generation is a `newId` parameter required to be unused. `UUID()` freshness is assumed, not proved.
- UserAuth.Login: the lookup is the first row with the email. Fluent's `.first()` has no `ORDER BY`, so which row it returns among duplicates is left to the database. No constraint on the `users` table makes it at most one; only `create`'s guard keeps emails distinct (`UserAuth.CreateKeepsUniqueEmails`).
- MarkerMemory.MarkerMemoryRepository.List: the order of `dict.values` is unspecified in Swift. The model states that every record appears once, not the order.
- LegacyMarkerMemory.MarkerMemoryRepository.List: the order of `dict.values` is not stated, for the same reason.

## Findings

| source | as written | input that shows it | evidently intended | confidence | as-written member | corrected member |
|---|---|---|---|---|---|---|
| Sources/App/Repositories/Users/UserPostgresRepository.swift:106-114 | the user repository's `delete` checks for the id in `markers` and deletes from `markers` | a database whose `users` holds the id and whose `markers` is empty: `delete` returns false, issues no `DELETE`, and the user stays (`UserPostgres.DeleteAsWrittenMissesUsers`) | check and delete in `users`, agreeing with the in-memory `delete` (`UserPostgres.DeleteAgreesWithMemory`) | high; not executed | UserPostgres.DeleteAsWritten | UserPostgres.Delete |
| Sources/App/Repositories/Users/UserPostgresRepository.swift:36 | the user repository's `create` inserts the new user into `markers` | any database where the new id is not yet in `users`: after `create` it is still not there, though `create` returned the user (`UserPostgres.CreateAsWrittenMissesUsers`) | insert into `users`, so a created user can then be deleted once (`UserPostgres.CreateThenDelete`) | high; not executed | UserPostgres.CreateAsWritten | UserPostgres.Create |
