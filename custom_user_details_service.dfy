/** Loading a user's security details by username. */
module CustomUserDetailsService {
  import opened Wrappers
  import opened Errors
  import opened Users
  import opened Principals

  const NotFoundPrefix := "사용자를 찾을 수 없습니다: "

  /** The stored row's id, username, password and one authority per role; a
      missing row is a `UsernameNotFoundException`, a row without an id fails
      the non-null assertion. */
  function LoadUserByUsername(users: map<string, User>, username: string): (r: Outcome<CustomUserDetails>)
    ensures username !in users ==> r == Failure(Thrown("UsernameNotFoundException", Some(NotFoundPrefix + username)))
    ensures username in users && users[username].id.None? ==> r == Failure(Thrown("NullPointerException", None))
    ensures username in users && users[username].id.Some? ==> r.Ok?
    ensures r.Ok? ==> (username in users && users[username].id == Some(r.value.userId)
                       && r.value.username == users[username].username
                       && r.value.password == users[username].password
                       && Roles(r.value.authorities) == users[username].roles)
  {
    if username !in users then
      Failure(Thrown("UsernameNotFoundException", Some(NotFoundPrefix + username)))
    else
      var user := users[username];
      if user.id.None? then
        Failure(Thrown("NullPointerException", None))
      else
        RolesOfAuthorities(user.roles);
        Ok(CustomUserDetails(user.id.value, user.username, user.password, Authorities(user.roles)))
  }
}
