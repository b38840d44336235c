/** The user entity and its table. */
module Users {
  import opened Wrappers

  /** A registered account. `id` is null until the row is saved; social
      accounts have no password; `refreshToken` is the one refresh token the
      account currently accepts. The role set is kept in a fixed order. */
  datatype User = User(
    id: Option<int>,
    username: string,
    password: Option<string>,
    roles: seq<string>,
    refreshToken: Option<string>)

  /** The shape of a saved table: rows keyed by their username, each with an id. */
  predicate Stored(users: map<string, User>) {
    forall name :: name in users ==> users[name].username == name && users[name].id.Some?
  }

  /** The `users` table, keyed by its unique `username` column. */
  class UserRepository {
    var users: map<string, User>

    /** Every row is stored under its own username and, being saved, has an id. */
    ghost predicate Valid()
      reads this
    {
      Stored(users)
    }

    constructor ()
      ensures Valid() && users == map[]
    {
      users := map[];
    }

    /** `findByUsername` / `findByUsernameWithRoles`: the row with that username, if any. */
    function FindByUsername(username: string): (r: Option<User>)
      reads this
      requires Valid()
      ensures r.Some? <==> username in users
      ensures r.Some? ==> r.value.username == username && r.value == users[username]
    {
      if username in users then Some(users[username]) else None
    }

    predicate ExistsByUsername(username: string)
      reads this
    {
      username in users
    }

    /** `save`: inserts the row, or replaces the row with the same username. */
    method Save(u: User)
      requires Valid() && u.id.Some?
      modifies this
      ensures Valid()
      ensures users == old(users)[u.username := u]
    {
      users := users[u.username := u];
    }
  }
}
