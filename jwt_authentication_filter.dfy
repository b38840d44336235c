/** The per-request filter that turns an `Authorization: Bearer <token>` header
    into an authenticated principal in the security context. `DoFilterInternal`
    is the filter as written; `DoFilterInternalGuarded` is the same filter with
    the claim reads made total (see the README's findings). */
module JwtAuthenticationFilter {
  import opened Wrappers
  import opened Errors
  import opened Text
  import opened Principals
  import opened JwtCompact
  import opened JwtTokenProvider

  const BearerPrefix := "Bearer "

  /** `resolveToken`: the text after `Bearer ` in a non-blank header that starts
      with it; nothing otherwise. */
  function ResolveToken(header: Option<string>): (r: Option<string>)
    ensures r.Some? <==> (header.Some? && !IsBlank(header.value) && StartsWith(header.value, BearerPrefix))
    ensures r.Some? ==> header.value == BearerPrefix + r.value
  {
    if header.Some? && !IsBlank(header.value) && StartsWith(header.value, BearerPrefix) then
      assert header.value == BearerPrefix + header.value[|BearerPrefix|..];
      Some(header.value[|BearerPrefix|..])
    else
      None
  }

  /** Whatever follows the prefix is handed on unchanged. */
  lemma BearerHeaderResolves(token: string)
    ensures ResolveToken(Some(BearerPrefix + token)) == Some(token)
  {
    var h := BearerPrefix + token;
    assert !IsWhitespace(h[0]);
    assert h[..|BearerPrefix|] == BearerPrefix;
  }

  /** The authentication the filter installs for a validated token. */
  function AuthenticationOf(userId: int, username: string, roles: seq<string>): Authentication {
    var authorities := Authorities(roles);
    Authentication(Details(CustomUserDetails(userId, username, Some(""), authorities)), authorities, true)
  }

  /** The filter's decision as written: no authentication unless the token is
      non-blank and validates; then the three claim reads, any of which may throw
      out of the filter. */
  function AuthenticationFor(p: Provider, token: Option<string>, nowMs: nat): (r: Outcome<Option<Authentication>>)
    ensures (token.None? || IsBlank(token.value) || !ValidateToken(p, token.value, nowMs)) ==> r == Ok(None)
    ensures r.Ok? && r.value.Some? ==>
      (GetUserId(p, token.value, nowMs).Ok? && GetUsername(p, token.value, nowMs).Ok? && GetRoles(p, token.value, nowMs).Ok?
       && r.value.value == AuthenticationOf(GetUserId(p, token.value, nowMs).value, GetUsername(p, token.value, nowMs).value,
                                            GetRoles(p, token.value, nowMs).value))
  {
    if token.None? || IsBlank(token.value) || !ValidateToken(p, token.value, nowMs) then
      Ok(None)
    else
      var userId :- GetUserId(p, token.value, nowMs);
      var username :- GetUsername(p, token.value, nowMs);
      var roles :- GetRoles(p, token.value, nowMs);
      Ok(Some(AuthenticationOf(userId, username, roles)))
  }

  /** A compact token starts with the claims' presence tag, never with whitespace. */
  lemma TokenNotBlank(p: Provider, c: Claims)
    ensures !IsBlank(Sign(p, c))
  {
    var t := Sign(p, c);
    assert t[0] == EncodeClaims(c)[0];
  }

  /** An access token presented as a bearer header authenticates its user with
      the user's roles, until it expires. */
  lemma AccessTokenAuthenticates(p: Provider, userId: int, username: string, roles: seq<string>, issuedMs: nat, nowMs: nat)
    requires nowMs <= AccessExpiryMs(p, issuedMs)
    ensures var token := CreateToken(p, userId, username, roles, issuedMs);
      AuthenticationFor(p, ResolveToken(Some(BearerPrefix + token)), nowMs) == Ok(Some(AuthenticationOf(userId, username, roles)))
  {
    var token := CreateToken(p, userId, username, roles, issuedMs);
    BearerHeaderResolves(token);
    TokenNotBlank(p, AccessClaims(p, userId, username, roles, issuedMs));
    AccessTokenRoundTrip(p, userId, username, roles, issuedMs, nowMs);
  }

  /** As written, a valid refresh token presented as a bearer header makes the
      user-id read throw inside the filter, so the request never reaches the
      rest of the chain. */
  lemma RefreshTokenAsBearerThrows(p: Provider, username: string, issuedMs: nat, nowMs: nat)
    requires nowMs <= Seconds(issuedMs + p.refreshValidityInMs) * 1000
    ensures var token := CreateRefreshToken(p, Some(username), issuedMs);
      AuthenticationFor(p, ResolveToken(Some(BearerPrefix + token)), nowMs)
        == Failure(Thrown("IllegalStateException", Some(UserIdNotNumber)))
  {
    var token := CreateRefreshToken(p, Some(username), issuedMs);
    BearerHeaderResolves(token);
    TokenNotBlank(p, Claims(Some(username), Some(Seconds(issuedMs)), Some(Seconds(issuedMs + p.refreshValidityInMs)), None, None));
    RefreshTokenClaims(p, username, issuedMs, nowMs);
  }

  /** `doFilterInternal` as written: installs the authentication when there is
      one, and continues the chain (`Ok`) unless a claim read threw. */
  method DoFilterInternal(p: Provider, context: SecurityContext, authorization: Option<string>, nowMs: nat)
    returns (r: Outcome<()>)
    modifies context
    ensures var decision := AuthenticationFor(p, ResolveToken(authorization), nowMs);
      (decision.Failure? ==> r == Failure(decision.error) && context.authentication == old(context.authentication))
      && (decision.Ok? ==>
            (r == Ok(())
             && context.authentication == (if decision.value.Some? then decision.value else old(context.authentication))))
  {
    var token := ResolveToken(authorization);
    if token.Some? && !IsBlank(token.value) && ValidateToken(p, token.value, nowMs) {
      var userId := GetUserId(p, token.value, nowMs);
      if userId.Failure? {
        return Failure(userId.error);
      }
      var username := GetUsername(p, token.value, nowMs);
      if username.Failure? {
        return Failure(username.error);
      }
      var roles := GetRoles(p, token.value, nowMs);
      if roles.Failure? {
        return Failure(roles.error);
      }
      context.SetAuthentication(AuthenticationOf(userId.value, username.value, roles.value));
    }
    r := Ok(());
  }

  /** The evidently intended decision: a validated token whose claims cannot be
      read authenticates no one, and the request carries on unauthenticated. */
  function GuardedAuthenticationFor(p: Provider, token: Option<string>, nowMs: nat): (r: Option<Authentication>)
    ensures AuthenticationFor(p, token, nowMs).Ok? ==> r == AuthenticationFor(p, token, nowMs).value
    ensures AuthenticationFor(p, token, nowMs).Failure? ==> r.None?
  {
    match AuthenticationFor(p, token, nowMs)
    case Ok(a) => a
    case Failure(_) => None
  }

  /** With the guarded decision, a refresh token used as a bearer token leaves
      the request unauthenticated instead of failing it. */
  lemma GuardedRefreshTokenAsBearer(p: Provider, username: string, issuedMs: nat, nowMs: nat)
    requires nowMs <= Seconds(issuedMs + p.refreshValidityInMs) * 1000
    ensures var token := CreateRefreshToken(p, Some(username), issuedMs);
      GuardedAuthenticationFor(p, ResolveToken(Some(BearerPrefix + token)), nowMs).None?
  {
    RefreshTokenAsBearerThrows(p, username, issuedMs, nowMs);
  }

  /** `doFilterInternal` with the guarded decision: the chain always continues. */
  method DoFilterInternalGuarded(p: Provider, context: SecurityContext, authorization: Option<string>, nowMs: nat)
    modifies context
    ensures var decision := GuardedAuthenticationFor(p, ResolveToken(authorization), nowMs);
      context.authentication == (if decision.Some? then decision else old(context.authentication))
  {
    var decision := GuardedAuthenticationFor(p, ResolveToken(authorization), nowMs);
    if decision.Some? {
      context.SetAuthentication(decision.value);
    }
  }
}
