/** The actor `UserMemoryRepository`: a dictionary of users by id. */
module UserMemory {
  import opened Wrappers
  import opened Uuids
  import Stores
  import opened UserStore

  class UserMemoryRepository {
    var users: map<Uuid, User>

    ghost predicate Valid()
      reads this
    {
      UserStore.Valid(users)
    }

    constructor ()
      ensures Valid() && users == map[]
    {
      users := map[];
    }

    /**
     * `create`: `id` is shadowed by a fresh `UUID()`, here `newId`; `now` is `Date.now`.
     */
    method Create(id: Uuid, email: string, displayName: string, locationCity: string, locationState: string,
                  locationCountry: string, newId: Uuid, now: Date) returns (user: User)
      requires Valid() && newId !in users
      modifies this
      ensures Valid()
      ensures (users, user) == UserStore.Create(old(users), id, email, displayName, locationCity, locationState, locationCountry, newId, now)
    {
      user := User(newId, email, displayName, locationCity, locationState, locationCountry, now, None);
      users := users[newId := user];
    }

    /** `get`: the stored user, or `nil`. */
    method Get(id: Uuid) returns (user: Option<User>)
      ensures user.Some? <==> id in users
      ensures user.Some? ==> user.value == users[id]
    {
      if id in users {
        user := Some(users[id]);
      } else {
        user := None;
      }
    }

    /** `update`: copy the stored user, write the given fields, store it back. */
    method Update(id: Uuid, email: Option<string>, displayName: Option<string>, locationCity: Option<string>,
                  locationState: Option<string>, locationCountry: Option<string>) returns (updated: Option<User>)
      requires Valid()
      modifies this
      ensures Valid()
      ensures (users, updated) == UserStore.Update(old(users), id, email, displayName, locationCity, locationState, locationCountry)
    {
      if id in users {
        var user := users[id];
        if email.Some? {
          user := user.(email := email.value);
        }
        if displayName.Some? {
          user := user.(displayName := displayName.value);
        }
        if locationCity.Some? {
          user := user.(locationCity := locationCity.value);
        }
        if locationState.Some? {
          user := user.(locationState := locationState.value);
        }
        if locationCountry.Some? {
          user := user.(locationCountry := locationCountry.value);
        }
        users := users[id := user];
        return Some(user);
      }
      return None;
    }

    /** `delete`: `true` exactly when the id was present; only that key goes. */
    method Delete(id: Uuid) returns (deleted: bool)
      requires Valid()
      modifies this
      ensures Valid()
      ensures (users, deleted) == Stores.Delete(old(users), id)
    {
      if id in users {
        users := users - {id};
        return true;
      }
      return false;
    }
  }
}
