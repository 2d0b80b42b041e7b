/**
 * The user record of the user repository (a value: the memory store copies it, writes
 * fields and stores the copy back) and the contract its in-memory actor follows.
 */
module UserStore {
  import opened Wrappers
  import opened Uuids
  import Stores

  /** `Date`, as the clock gives it. */
  type Date = int

  /** The struct `User`: location fields are required, `last_login` is optional. */
  datatype User = User(
    id: Uuid,
    email: string,
    displayName: string,
    locationCity: string,
    locationState: string,
    locationCountry: string,
    createdOn: Date,
    lastLogin: Option<Date>)

  function IdOf(u: User): Uuid { u.id }

  type Store = Stores.Store<User>

  predicate Valid(s: Store)
  {
    Stores.KeyedBy(s, IdOf)
  }

  /**
   * `create`: the `id` argument is not used; the user is stored under the fresh id with
   * the given fields, `created_on` from the clock and no `last_login`. There is no check
   * on the email, so `create` always succeeds.
   */
  function Create(s: Store, id: Uuid, email: string, displayName: string, locationCity: string,
                  locationState: string, locationCountry: string, newId: Uuid, now: Date): (r: (Store, User))
    requires newId !in s
    ensures var (s', u) := r;
      && u.id == newId && u.email == email && u.displayName == displayName
      && u.locationCity == locationCity && u.locationState == locationState && u.locationCountry == locationCountry
      && u.createdOn == now && u.lastLogin == None
      && Stores.Get(s', newId) == Some(u)
      && s'.Keys == s.Keys + {newId} && |s'| == |s| + 1
      && (forall k | k in s :: s'[k] == s[k])
      && (Valid(s) ==> Valid(s'))
  {
    var u := User(newId, email, displayName, locationCity, locationState, locationCountry, now, None);
    (s[newId := u], u)
  }

  /** The id passed to `create` makes no difference to what it stores or returns. */
  lemma CreateIgnoresId(s: Store, id1: Uuid, id2: Uuid, email: string, displayName: string, locationCity: string,
                        locationState: string, locationCountry: string, newId: Uuid, now: Date)
    requires newId !in s
    ensures Create(s, id1, email, displayName, locationCity, locationState, locationCountry, newId, now)
         == Create(s, id2, email, displayName, locationCity, locationState, locationCountry, newId, now)
  {
  }

  /** `create` does not enforce unique emails: a second user with a stored email is added. */
  lemma CreateAllowsDuplicateEmail(s: Store, k: Uuid, id: Uuid, displayName: string, locationCity: string,
                                   locationState: string, locationCountry: string, newId: Uuid, now: Date)
    requires k in s && newId !in s
    ensures var s' := Create(s, id, s[k].email, displayName, locationCity, locationState, locationCountry, newId, now).0;
            k in s' && newId in s' && k != newId && s'[k].email == s'[newId].email
  {
  }

  /**
   * The field writes of `update`: each of the five updatable fields takes its value only
   * when given; id, `created_on` and `last_login` never change.
   */
  function Apply(u: User, email: Option<string>, displayName: Option<string>, locationCity: Option<string>,
                 locationState: Option<string>, locationCountry: Option<string>): (r: User)
    ensures r.id == u.id && r.createdOn == u.createdOn && r.lastLogin == u.lastLogin
    ensures r.email == (if email.Some? then email.value else u.email)
    ensures r.displayName == (if displayName.Some? then displayName.value else u.displayName)
    ensures r.locationCity == (if locationCity.Some? then locationCity.value else u.locationCity)
    ensures r.locationState == (if locationState.Some? then locationState.value else u.locationState)
    ensures r.locationCountry == (if locationCountry.Some? then locationCountry.value else u.locationCountry)
  {
    var u1 := if email.Some? then u.(email := email.value) else u;
    var u2 := if displayName.Some? then u1.(displayName := displayName.value) else u1;
    var u3 := if locationCity.Some? then u2.(locationCity := locationCity.value) else u2;
    var u4 := if locationState.Some? then u3.(locationState := locationState.value) else u3;
    if locationCountry.Some? then u4.(locationCountry := locationCountry.value) else u4
  }

  /** `update`: `nil` and no change for an absent id; otherwise store and return the updated user. */
  function Update(s: Store, id: Uuid, email: Option<string>, displayName: Option<string>, locationCity: Option<string>,
                  locationState: Option<string>, locationCountry: Option<string>): (r: (Store, Option<User>))
    ensures id !in s ==> r == (s, None)
    ensures id in s ==>
      && r.1 == Some(Apply(s[id], email, displayName, locationCity, locationState, locationCountry))
      && Stores.Get(r.0, id) == r.1
      && r.0.Keys == s.Keys
      && (forall k | k in s && k != id :: r.0[k] == s[k])
    ensures Valid(s) ==> Valid(r.0)
  {
    if id in s then
      var u := Apply(s[id], email, displayName, locationCity, locationState, locationCountry);
      (s[id := u], Some(u))
    else
      (s, None)
  }

  /** An update with every argument `nil` returns the stored user and changes nothing. */
  lemma UpdateNothing(s: Store, id: Uuid)
    requires id in s
    ensures Update(s, id, None, None, None, None, None) == (s, Some(s[id]))
  {
    assert s[id := s[id]] == s;
  }
}
