/** Local login, token issuance and refresh-token rotation. */
module AuthService {
  import opened Wrappers
  import opened Errors
  import opened Users
  import opened Principals
  import opened JwtTokenProvider
  import CustomUserDetailsService

  datatype TokenResponse = TokenResponse(
    tokenType: string,
    accessToken: string,
    refreshToken: string,
    expirationTime: int)

  /** `PasswordEncoder.matches(raw, encoded)`. */
  type PasswordMatcher = (string, string) -> bool

  const InvalidCredentialsMessage := "사용자 이름 또는 비밀번호가 일치하지 않습니다"
  const RefreshInvalidMessage := "refreshToken is invalid"

  /** The authentication manager: load the user's details, then compare the
      presented password with the stored hash; an account without a password
      never matches. */
  function Authenticate(users: map<string, User>, matches: PasswordMatcher, username: string, password: string): (ok: bool)
    ensures ok ==> username in users && users[username].id.Some? && users[username].password.Some?
  {
    match CustomUserDetailsService.LoadUserByUsername(users, username)
    case Failure(_) => false
    case Ok(details) => details.password.Some? && matches(password, details.password.value)
  }

  /** The credential check of `login`: the stored user, or one and the same
      error whether the username is unknown or the password is wrong. */
  function CheckLogin(users: map<string, User>, matches: PasswordMatcher, username: string, password: string): (r: Outcome<User>)
    ensures r.Ok? <==> (username in users && users[username].id.Some? && users[username].password.Some?
                        && matches(password, users[username].password.value))
    ensures r.Ok? ==> r.value == users[username]
    ensures r.Failure? ==> r.error == Err(InvalidCredentials, InvalidCredentialsMessage)
  {
    if !Authenticate(users, matches, username, password) then
      Failure(Err(InvalidCredentials, InvalidCredentialsMessage))
    else if username !in users then
      Failure(Err(UserNotFound, username + " not found"))
    else
      Ok(users[username])
  }

  /** The tokens `generateToken` issues for a user at `nowMs`. */
  function IssueTokens(p: Provider, user: User, nowMs: nat): (r: Outcome<TokenResponse>)
    ensures r.Failure? <==> user.id.None?
    ensures r.Failure? ==> r.error == Err(InternalServerError, "User ID is null")
    ensures r.Ok? ==> r.value.tokenType == "Bearer" && r.value.expirationTime == p.validityInMs
  {
    match user.id
    case None => Failure(Err(InternalServerError, "User ID is null"))
    case Some(userId) =>
      Ok(TokenResponse("Bearer",
                       CreateToken(p, userId, user.username, user.roles, nowMs),
                       CreateRefreshToken(p, Some(user.username), nowMs),
                       GetExpirationTime(p)))
  }

  /** The issued access token identifies the user, with the user's roles, until
      it expires; the refresh token names the user until its own expiry. */
  lemma IssuedTokensIdentifyUser(p: Provider, user: User, issuedMs: nat, nowMs: nat)
    requires user.id.Some?
    ensures var r := IssueTokens(p, user, issuedMs);
      r.Ok?
      && (nowMs <= AccessExpiryMs(p, issuedMs) ==>
            GetUserId(p, r.value.accessToken, nowMs) == Ok(user.id.value)
            && GetUsername(p, r.value.accessToken, nowMs) == Ok(user.username)
            && GetRoles(p, r.value.accessToken, nowMs) == Ok(user.roles))
      && (nowMs <= Seconds(issuedMs + p.refreshValidityInMs) * 1000 ==>
            ValidateToken(p, r.value.refreshToken, nowMs)
            && GetUsername(p, r.value.refreshToken, nowMs) == Ok(user.username))
  {
    if nowMs <= AccessExpiryMs(p, issuedMs) {
      AccessTokenRoundTrip(p, user.id.value, user.username, user.roles, issuedMs, nowMs);
    }
    if nowMs <= Seconds(issuedMs + p.refreshValidityInMs) * 1000 {
      RefreshTokenClaims(p, user.username, issuedMs, nowMs);
    }
  }

  /** The checks of `refresh`, in the order the source makes them. On success,
      the row whose stored refresh token is the presented one. */
  function CheckRefresh(p: Provider, users: map<string, User>, refreshToken: string, nowMs: nat): (r: Outcome<User>)
    ensures !ValidateToken(p, refreshToken, nowMs) ==> r == Failure(Err(InvalidRefreshToken, RefreshInvalidMessage))
    ensures ValidateToken(p, refreshToken, nowMs) ==>
      var name := GetUsername(p, refreshToken, nowMs);
      (name.Failure? ==> r == Failure(name.error))
      && (name.Ok? && name.value !in users ==> r == Failure(Err(UserNotFound, name.value + " is not found")))
      && (name.Ok? && name.value in users && users[name.value].refreshToken != Some(refreshToken) ==>
            r == Failure(Err(InvalidRefreshToken, refreshToken + " is not matched to user")))
      && (name.Ok? && name.value in users && users[name.value].refreshToken == Some(refreshToken) ==>
            r == Ok(users[name.value]))
    ensures r.Ok? ==> (ValidateToken(p, refreshToken, nowMs)
                       && GetUsername(p, refreshToken, nowMs).Ok?
                       && GetUsername(p, refreshToken, nowMs).value in users
                       && r.value == users[GetUsername(p, refreshToken, nowMs).value]
                       && r.value.refreshToken == Some(refreshToken))
  {
    if !ValidateToken(p, refreshToken, nowMs) then
      Failure(Err(InvalidRefreshToken, RefreshInvalidMessage))
    else
      var username :- GetUsername(p, refreshToken, nowMs);
      if username !in users then
        Failure(Err(UserNotFound, username + " is not found"))
      else if users[username].refreshToken != Some(refreshToken) then
        Failure(Err(InvalidRefreshToken, refreshToken + " is not matched to user"))
      else
        Ok(users[username])
  }

  /** The refresh token last stored for a user is accepted while it is valid. */
  lemma CurrentRefreshTokenAccepted(p: Provider, users: map<string, User>, username: string, issuedMs: nat, nowMs: nat)
    requires username in users
    requires users[username].refreshToken == Some(CreateRefreshToken(p, Some(username), issuedMs))
    requires nowMs <= Seconds(issuedMs + p.refreshValidityInMs) * 1000
    ensures CheckRefresh(p, users, CreateRefreshToken(p, Some(username), issuedMs), nowMs) == Ok(users[username])
  {
    RefreshTokenClaims(p, username, issuedMs, nowMs);
  }

  /** Rotation: once a second refresh issued in a later second has replaced a
      user's stored token, the first token is refused, at any time. */
  lemma SupersededRefreshTokenRejected(p: Provider, users: map<string, User>, user: User, t1: nat, t2: nat, nowMs: nat)
    requires user.id.Some? && user.username in users && users[user.username] == user
    requires Seconds(t1) != Seconds(t2)
    ensures var first := IssueTokens(p, user, t1).value.refreshToken;
      var users1 := users[user.username := user.(refreshToken := Some(first))];
      var second := IssueTokens(p, users1[user.username], t2).value.refreshToken;
      var users2 := users1[user.username := users1[user.username].(refreshToken := Some(second))];
      var r := CheckRefresh(p, users2, first, nowMs);
      r.Failure? && r.error.Err? && r.error.code == InvalidRefreshToken
  {
    var name := user.username;
    var first := CreateRefreshToken(p, Some(name), t1);
    assert IssueTokens(p, user, t1).value.refreshToken == first;
    var users1 := users[name := user.(refreshToken := Some(first))];
    var second := CreateRefreshToken(p, Some(name), t2);
    assert IssueTokens(p, users1[name], t2).value.refreshToken == second;
    var users2 := users1[name := users1[name].(refreshToken := Some(second))];
    RefreshTokensBySecond(p, Some(name), t1, t2);
    assert users2[name].refreshToken != Some(first);
    var r := CheckRefresh(p, users2, first, nowMs);
    if ValidateToken(p, first, nowMs) {
      RefreshTokenLifetime(p, Some(name), t1, nowMs);
      RefreshTokenClaims(p, name, t1, nowMs);
      assert r == Failure(Err(InvalidRefreshToken, first + " is not matched to user"));
    }
  }

  /** `generateToken`: issues both tokens and stores the new refresh token on the
      user's row; a user without an id changes nothing. */
  method GenerateToken(p: Provider, repo: UserRepository, user: User, nowMs: nat) returns (r: Outcome<TokenResponse>)
    requires repo.Valid() && user.username in repo.users && repo.users[user.username] == user
    modifies repo
    ensures repo.Valid()
    ensures r == IssueTokens(p, user, nowMs)
    ensures r.Ok? ==> repo.users == old(repo.users)[user.username := user.(refreshToken := Some(r.value.refreshToken))]
    ensures r.Failure? ==> repo.users == old(repo.users)
  {
    if user.id.None? {
      return Failure(Err(InternalServerError, "User ID is null"));
    }
    var userId := user.id.value;
    var accessToken := CreateToken(p, userId, user.username, user.roles, nowMs);
    var refreshToken := CreateRefreshToken(p, Some(user.username), nowMs);
    var expirationTime := GetExpirationTime(p);
    repo.Save(user.(refreshToken := Some(refreshToken)));
    r := Ok(TokenResponse("Bearer", accessToken, refreshToken, expirationTime));
  }

  /** `login`: tokens for valid credentials, INVALID_CREDENTIALS otherwise. */
  method Login(p: Provider, repo: UserRepository, matches: PasswordMatcher, username: string, password: string, nowMs: nat)
    returns (r: Outcome<TokenResponse>)
    requires repo.Valid()
    modifies repo
    ensures repo.Valid()
    ensures var c := CheckLogin(old(repo.users), matches, username, password);
      (c.Failure? ==> r == Failure(c.error) && repo.users == old(repo.users))
      && (c.Ok? ==> r == IssueTokens(p, c.value, nowMs)
                    && repo.users == old(repo.users)[username := c.value.(refreshToken := Some(r.value.refreshToken))])
  {
    var checked := CheckLogin(repo.users, matches, username, password);
    if checked.Failure? {
      return Failure(checked.error);
    }
    r := GenerateToken(p, repo, checked.value, nowMs);
  }

  /** `refresh`: after the checks, a new pair of tokens, the new refresh token
      replacing the presented one. */
  method Refresh(p: Provider, repo: UserRepository, refreshToken: string, nowMs: nat) returns (r: Outcome<TokenResponse>)
    requires repo.Valid()
    modifies repo
    ensures repo.Valid()
    ensures var c := CheckRefresh(p, old(repo.users), refreshToken, nowMs);
      (c.Failure? ==> r == Failure(c.error) && repo.users == old(repo.users))
      && (c.Ok? ==> r == IssueTokens(p, c.value, nowMs)
                    && (r.Ok? ==> repo.users == old(repo.users)[c.value.username := c.value.(refreshToken := Some(r.value.refreshToken))])
                    && (r.Failure? ==> repo.users == old(repo.users)))
  {
    var checked := CheckRefresh(p, repo.users, refreshToken, nowMs);
    if checked.Failure? {
      return Failure(checked.error);
    }
    r := GenerateToken(p, repo, checked.value, nowMs);
  }
}
