/** Local sign-up and the current user's profile. */
module UserService {
  import opened Wrappers
  import opened Errors
  import opened Users
  import opened Principals

  /** `PasswordEncoder.encode`. */
  type PasswordEncoder = string -> string

  const DuplicatePrefix := "중복된 username 입니다.: "
  const NoUserMessage := "사용자 정보가 없습니다."

  /** The row `signup` saves: the encoded password and the single role `ROLE_USER`. */
  function LocalUser(encode: PasswordEncoder, username: string, password: string, newId: int): (u: User)
    ensures u.username == username && u.id == Some(newId) && u.roles == ["ROLE_USER"]
    ensures u.password == Some(encode(password)) && u.refreshToken.None?
  {
    User(Some(newId), username, Some(encode(password)), ["ROLE_USER"], None)
  }

  /** `signup`: a taken username is refused and nothing changes; otherwise one
      row is added and no other row changes. */
  method Signup(repo: UserRepository, encode: PasswordEncoder, username: string, password: string, newId: int)
    returns (r: Outcome<()>)
    requires repo.Valid()
    modifies repo
    ensures repo.Valid()
    ensures username in old(repo.users) ==>
      (r == Failure(Err(DuplicateUsername, DuplicatePrefix + username)) && repo.users == old(repo.users))
    ensures username !in old(repo.users) ==>
      (r == Ok(()) && repo.users == old(repo.users)[username := LocalUser(encode, username, password, newId)])
  {
    if repo.ExistsByUsername(username) {
      return Failure(Err(DuplicateUsername, DuplicatePrefix + username));
    }
    var encodedPassword := encode(password);
    repo.Save(User(Some(newId), username, Some(encodedPassword), ["ROLE_USER"], None));
    r := Ok(());
  }

  /** A successful sign-up grows the table by exactly one row. */
  lemma SignupAddsOneRow(users: map<string, User>, u: User)
    requires u.username !in users
    ensures |users[u.username := u]| == |users| + 1
    ensures users[u.username := u].Keys == users.Keys + {u.username}
  {
    assert users[u.username := u].Keys == users.Keys + {u.username};
  }

  /** `getCurrentUser`: the row named by the principal's username. A missing
      authentication fails on the null dereference, a principal of another type
      on the cast; a username with no row is UNAUTHORIZED. */
  function GetCurrentUser(users: map<string, User>, authentication: Option<Authentication>): (r: Outcome<User>)
    ensures authentication.None? ==> r == Failure(Thrown("NullPointerException", None))
    ensures authentication.Some? && authentication.value.principal.OtherPrincipal? ==>
      r == Failure(Thrown("ClassCastException", None))
    ensures r.Ok? ==> (authentication.Some? && authentication.value.principal.Details?
                       && authentication.value.principal.details.username in users
                       && r.value == users[authentication.value.principal.details.username])
    ensures (authentication.Some? && authentication.value.principal.Details?
             && authentication.value.principal.details.username !in users)
            ==> r == Failure(Err(Unauthorized, NoUserMessage))
    ensures (authentication.Some? && authentication.value.principal.Details?
             && authentication.value.principal.details.username in users)
            ==> r.Ok?
  {
    match authentication
    case None => Failure(Thrown("NullPointerException", None))
    case Some(a) =>
      match a.principal
      case OtherPrincipal(_) => Failure(Thrown("ClassCastException", None))
      case Details(details) =>
        if details.username in users then Ok(users[details.username])
        else Failure(Err(Unauthorized, NoUserMessage))
  }

  datatype UserInfoResponse = UserInfoResponse(id: Option<int>, username: string, roles: seq<string>)

  /** `getCurrentUserInfo`: the current user's id, username and roles. The
      username argument is not consulted. */
  function GetCurrentUserInfo(users: map<string, User>, authentication: Option<Authentication>, username: string)
    : (r: Outcome<UserInfoResponse>)
    ensures r.Ok? <==> GetCurrentUser(users, authentication).Ok?
    ensures r.Ok? ==> (r.value.id == GetCurrentUser(users, authentication).value.id
                       && r.value.username == GetCurrentUser(users, authentication).value.username
                       && r.value.roles == GetCurrentUser(users, authentication).value.roles)
  {
    var user :- GetCurrentUser(users, authentication);
    Ok(UserInfoResponse(user.id, user.username, user.roles))
  }

  /** Whatever username the caller passes, the answer is the same. */
  lemma CurrentUserInfoIgnoresArgument(users: map<string, User>, authentication: Option<Authentication>, a: string, b: string)
    ensures GetCurrentUserInfo(users, authentication, a) == GetCurrentUserInfo(users, authentication, b)
  {
  }
}
