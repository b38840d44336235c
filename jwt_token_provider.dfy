/** The token service: issues access and refresh tokens signed with the
    application's secret key, and reads their claims back. The clock is the
    parameter `nowMs` (milliseconds since the epoch); token times are whole
    seconds, as JWT NumericDate values are. HMAC-SHA256 itself is the opaque
    function `hmac` of the provider. */
module JwtTokenProvider {
  import opened Wrappers
  import opened Text
  import opened Errors
  import opened JwtCompact

  /** A keyed message authentication code: `hmac(key, signedText)`. */
  type Mac = (string, string) -> string

  datatype Provider = Provider(
    secretKey: string,
    validityInMs: nat,
    refreshValidityInMs: nat,
    hmac: Mac)

  /** The shortest key `Keys.hmacShaKeyFor` accepts for HS256, in bytes. */
  const MinKeyBytes := 32

  /** Building the provider derives the signing key from the secret's UTF-8
      bytes; a key under 256 bits is refused. */
  function NewProvider(secretKey: string, validityInMs: nat, refreshValidityInMs: nat, hmac: Mac): (r: Outcome<Provider>)
    ensures r.Ok? <==> Utf8Length(secretKey) >= MinKeyBytes
    ensures r.Ok? ==> (r.value.secretKey == secretKey && r.value.validityInMs == validityInMs
                       && r.value.refreshValidityInMs == refreshValidityInMs)
    ensures r.Failure? ==> r.error.Thrown? && r.error.simpleName == "WeakKeyException"
  {
    if Utf8Length(secretKey) < MinKeyBytes then Failure(Thrown("WeakKeyException", None))
    else Ok(Provider(secretKey, validityInMs, refreshValidityInMs, hmac))
  }

  /** `signWith(key, HS256).compact()`. */
  function Sign(p: Provider, c: Claims): string {
    Compact(c, p.hmac(p.secretKey, EncodeClaims(c)))
  }

  /** A `java.util.Date` written as a NumericDate: whole seconds. */
  function Seconds(ms: nat): nat {
    ms / 1000
  }

  function AccessClaims(p: Provider, userId: int, username: string, roles: seq<string>, nowMs: nat): Claims {
    Claims(Some(username), Some(Seconds(nowMs)), Some(Seconds(nowMs + p.validityInMs)), Some(userId), Some(roles))
  }

  /** An access token: the roles and user id as private claims, the username as subject. */
  function CreateToken(p: Provider, userId: int, username: string, roles: seq<string>, nowMs: nat): string {
    Sign(p, AccessClaims(p, userId, username, roles, nowMs))
  }

  /** A refresh token with explicit issue and expiry instants: subject, `iat` and
      `exp` only; a null username leaves the subject out. */
  function CreateRefreshTokenAt(p: Provider, username: Option<string>, issuedAtMs: nat, validityMs: nat): string {
    Sign(p, Claims(username, Some(Seconds(issuedAtMs)), Some(Seconds(validityMs)), None, None))
  }

  /** A refresh token valid for the configured refresh lifetime from now. */
  function CreateRefreshToken(p: Provider, username: Option<string>, nowMs: nat): string {
    CreateRefreshTokenAt(p, username, nowMs, nowMs + p.refreshValidityInMs)
  }

  predicate SignatureMatches(p: Provider, jws: Jws) {
    jws.signature == p.hmac(p.secretKey, jws.payload)
  }

  /** jjwt's expiry rule: a token is expired once the clock is past its `exp`. */
  predicate Expired(c: Claims, nowMs: nat) {
    c.exp.Some? && nowMs > c.exp.value * 1000
  }

  /** `parseClaimsJws(token).body`: rejects an empty string, text that is not a
      token, a signature that does not match, and an expired token, in that order. */
  function ParseClaimsJws(p: Provider, token: string, nowMs: nat): (r: Outcome<Claims>)
    ensures r.Ok? ==> !Expired(r.value, nowMs)
    ensures r.Ok? ==> (ParseCompact(token).Some? && ParseCompact(token).value.claims == r.value
                       && SignatureMatches(p, ParseCompact(token).value))
    ensures r.Failure? ==> (r.error.Thrown? && r.error.simpleName in
                            {"IllegalArgumentException", "MalformedJwtException", "SignatureException", "ExpiredJwtException"})
  {
    if token == "" then Failure(Thrown("IllegalArgumentException", None))
    else
      match ParseCompact(token)
      case None => Failure(Thrown("MalformedJwtException", None))
      case Some(jws) =>
        if !SignatureMatches(p, jws) then Failure(Thrown("SignatureException", None))
        else if Expired(jws.claims, nowMs) then Failure(Thrown("ExpiredJwtException", None))
        else Ok(jws.claims)
  }

  /** How the JSON parser materialises an integer claim: an `Int` when it fits
      32 bits, a `Long` otherwise. */
  datatype JsonNumber = IntNumber(i: int) | LongNumber(l: int)

  function Materialise(v: int): (n: JsonNumber)
    ensures n.IntNumber? <==> -0x8000_0000 <= v < 0x8000_0000
    ensures n.IntNumber? ==> n.i == v
    ensures n.LongNumber? ==> n.l == v
  {
    if -0x8000_0000 <= v < 0x8000_0000 then IntNumber(v) else LongNumber(v)
  }

  const UserIdNotNumber := "User ID is not a number"

  /** The `userId` claim as a Long, whichever width it was read as. */
  function GetUserId(p: Provider, token: string, nowMs: nat): (r: Outcome<int>)
    ensures r.Ok? ==> ParseClaimsJws(p, token, nowMs).Ok? && ParseClaimsJws(p, token, nowMs).value.userId == Some(r.value)
    ensures ParseClaimsJws(p, token, nowMs).Ok? && ParseClaimsJws(p, token, nowMs).value.userId.None?
      ==> r == Failure(Thrown("IllegalStateException", Some(UserIdNotNumber)))
  {
    var claims :- ParseClaimsJws(p, token, nowMs);
    match claims.userId
    case None => Failure(Thrown("IllegalStateException", Some(UserIdNotNumber)))
    case Some(v) =>
      match Materialise(v)
      case IntNumber(i) => Ok(i)
      case LongNumber(l) => Ok(l)
  }

  /** The subject; a token without one fails the non-null return type. */
  function GetUsername(p: Provider, token: string, nowMs: nat): (r: Outcome<string>)
    ensures r.Ok? ==> ParseClaimsJws(p, token, nowMs).Ok? && ParseClaimsJws(p, token, nowMs).value.sub == Some(r.value)
    ensures ParseClaimsJws(p, token, nowMs).Ok? && ParseClaimsJws(p, token, nowMs).value.sub.None?
      ==> r == Failure(Thrown("NullPointerException", None))
  {
    var claims :- ParseClaimsJws(p, token, nowMs);
    match claims.sub
    case None => Failure(Thrown("NullPointerException", None))
    case Some(s) => Ok(s)
  }

  /** The `roles` claim; a token without one fails the cast to a non-null list. */
  function GetRoles(p: Provider, token: string, nowMs: nat): (r: Outcome<seq<string>>)
    ensures r.Ok? ==> ParseClaimsJws(p, token, nowMs).Ok? && ParseClaimsJws(p, token, nowMs).value.roles == Some(r.value)
    ensures ParseClaimsJws(p, token, nowMs).Ok? && ParseClaimsJws(p, token, nowMs).value.roles.None?
      ==> r == Failure(Thrown("NullPointerException", None))
  {
    var claims :- ParseClaimsJws(p, token, nowMs);
    match claims.roles
    case None => Failure(Thrown("NullPointerException", None))
    case Some(rs) => Ok(rs)
  }

  /** Never throws: true exactly when the token is well formed, carries this
      key's signature and an expiry, and the clock is not past that expiry. */
  function ValidateToken(p: Provider, token: string, nowMs: nat): (b: bool)
    ensures b <==> (token != "" && ParseCompact(token).Some? && SignatureMatches(p, ParseCompact(token).value)
                    && ParseCompact(token).value.claims.exp.Some?
                    && nowMs <= ParseCompact(token).value.claims.exp.value * 1000)
  {
    match ParseClaimsJws(p, token, nowMs)
    case Failure(_) => false
    case Ok(claims) => claims.exp.Some? && !(claims.exp.value * 1000 < nowMs)
  }

  /** The access-token lifetime reported to clients. */
  function GetExpirationTime(p: Provider): (ms: int)
    ensures ms == p.validityInMs
  {
    p.validityInMs
  }

  // ---- properties of issued tokens ----

  /** A token this provider signed parses back to the claims it was built from,
      until it expires. */
  lemma SignedTokenParses(p: Provider, c: Claims, nowMs: nat)
    ensures ParseClaimsJws(p, Sign(p, c), nowMs) == if Expired(c, nowMs)
      then Failure(Thrown("ExpiredJwtException", None)) else Ok(c)
  {
    ParseCompactRoundTrip(c, p.hmac(p.secretKey, EncodeClaims(c)));
  }

  /** Different claims never sign to the same token. */
  lemma SignInjective(p: Provider, c1: Claims, c2: Claims)
    requires Sign(p, c1) == Sign(p, c2)
    ensures c1 == c2
  {
    CompactInjective(c1, p.hmac(p.secretKey, EncodeClaims(c1)), c2, p.hmac(p.secretKey, EncodeClaims(c2)));
  }

  /** A token this provider signed validates exactly while its expiry, if it
      has one, is not past. */
  lemma SignedTokenValidates(p: Provider, c: Claims, nowMs: nat)
    ensures ValidateToken(p, Sign(p, c), nowMs) <==> c.exp.Some? && nowMs <= c.exp.value * 1000
  {
    ParseCompactRoundTrip(c, p.hmac(p.secretKey, EncodeClaims(c)));
  }

  /** A token whose signature is not this key's MAC of its claims is refused,
      whoever built it. */
  lemma ForgedSignatureRejected(p: Provider, c: Claims, signature: string, nowMs: nat)
    requires signature != p.hmac(p.secretKey, EncodeClaims(c))
    ensures ParseClaimsJws(p, Compact(c, signature), nowMs) == Failure(Thrown("SignatureException", None))
    ensures !ValidateToken(p, Compact(c, signature), nowMs)
  {
    ParseCompactRoundTrip(c, signature);
  }

  /** The instant, in milliseconds, after which an access token issued at
      `issuedMs` is refused. */
  function AccessExpiryMs(p: Provider, issuedMs: nat): nat {
    Seconds(issuedMs + p.validityInMs) * 1000
  }

  /** An access token gives back its user id, username and roles while valid. */
  lemma AccessTokenRoundTrip(p: Provider, userId: int, username: string, roles: seq<string>, issuedMs: nat, nowMs: nat)
    requires nowMs <= AccessExpiryMs(p, issuedMs)
    ensures GetUserId(p, CreateToken(p, userId, username, roles, issuedMs), nowMs) == Ok(userId)
    ensures GetUsername(p, CreateToken(p, userId, username, roles, issuedMs), nowMs) == Ok(username)
    ensures GetRoles(p, CreateToken(p, userId, username, roles, issuedMs), nowMs) == Ok(roles)
    ensures ValidateToken(p, CreateToken(p, userId, username, roles, issuedMs), nowMs)
  {
    var c := AccessClaims(p, userId, username, roles, issuedMs);
    SignedTokenParses(p, c, nowMs);
    ParseCompactRoundTrip(c, p.hmac(p.secretKey, EncodeClaims(c)));
  }

  /** An access token is valid exactly up to its expiry instant, which lies
      less than a second before issue time plus the configured lifetime. */
  lemma {:induction false} AccessTokenLifetime(p: Provider, userId: int, username: string, roles: seq<string>, issuedMs: nat, nowMs: nat)
    ensures ValidateToken(p, CreateToken(p, userId, username, roles, issuedMs), nowMs)
      <==> nowMs <= AccessExpiryMs(p, issuedMs)
    ensures issuedMs + p.validityInMs - 1000 < AccessExpiryMs(p, issuedMs) <= issuedMs + p.validityInMs
  {
    SignedTokenValidates(p, AccessClaims(p, userId, username, roles, issuedMs), nowMs);
  }

  /** With a lifetime of at least a second, a token is valid when issued. */
  lemma FreshAccessTokenValid(p: Provider, userId: int, username: string, roles: seq<string>, issuedMs: nat)
    requires p.validityInMs >= 1000
    ensures ValidateToken(p, CreateToken(p, userId, username, roles, issuedMs), issuedMs)
  {
    AccessTokenLifetime(p, userId, username, roles, issuedMs, issuedMs);
  }

  /** A refresh token names its user but carries no user id and no roles. */
  lemma RefreshTokenClaims(p: Provider, username: string, issuedMs: nat, nowMs: nat)
    requires nowMs <= Seconds(issuedMs + p.refreshValidityInMs) * 1000
    ensures ValidateToken(p, CreateRefreshToken(p, Some(username), issuedMs), nowMs)
    ensures GetUsername(p, CreateRefreshToken(p, Some(username), issuedMs), nowMs) == Ok(username)
    ensures GetUserId(p, CreateRefreshToken(p, Some(username), issuedMs), nowMs)
      == Failure(Thrown("IllegalStateException", Some(UserIdNotNumber)))
    ensures GetRoles(p, CreateRefreshToken(p, Some(username), issuedMs), nowMs)
      == Failure(Thrown("NullPointerException", None))
  {
    var c := Claims(Some(username), Some(Seconds(issuedMs)), Some(Seconds(issuedMs + p.refreshValidityInMs)), None, None);
    var token := CreateRefreshToken(p, Some(username), issuedMs);
    assert token == Sign(p, c);
    SignedTokenParses(p, c, nowMs);
    assert ParseClaimsJws(p, token, nowMs) == Ok(c);
    ParseCompactRoundTrip(c, p.hmac(p.secretKey, EncodeClaims(c)));
  }

  /** A refresh token is valid exactly up to its expiry instant. */
  lemma RefreshTokenLifetime(p: Provider, username: Option<string>, issuedMs: nat, nowMs: nat)
    ensures ValidateToken(p, CreateRefreshToken(p, username, issuedMs), nowMs)
      <==> nowMs <= Seconds(issuedMs + p.refreshValidityInMs) * 1000
  {
    var c := Claims(username, Some(Seconds(issuedMs)), Some(Seconds(issuedMs + p.refreshValidityInMs)), None, None);
    assert CreateRefreshToken(p, username, issuedMs) == Sign(p, c);
    SignedTokenValidates(p, c, nowMs);
  }

  /** Refresh tokens for one user issued in different seconds are different
      strings. */
  lemma RefreshTokensBySecond(p: Provider, username: Option<string>, t1: nat, t2: nat)
    ensures Seconds(t1) != Seconds(t2) ==> CreateRefreshToken(p, username, t1) != CreateRefreshToken(p, username, t2)
  {
    if CreateRefreshToken(p, username, t1) == CreateRefreshToken(p, username, t2) {
      var c1 := Claims(username, Some(Seconds(t1)), Some(Seconds(t1 + p.refreshValidityInMs)), None, None);
      var c2 := Claims(username, Some(Seconds(t2)), Some(Seconds(t2 + p.refreshValidityInMs)), None, None);
      SignInjective(p, c1, c2);
    }
  }

  /** Within the same second (of issue and of expiry) they coincide: the token
      carries no finer clock. */
  lemma RefreshTokensWithinSecond(p: Provider, username: Option<string>, t1: nat, t2: nat)
    requires Seconds(t1) == Seconds(t2) && Seconds(t1 + p.refreshValidityInMs) == Seconds(t2 + p.refreshValidityInMs)
    ensures CreateRefreshToken(p, username, t1) == CreateRefreshToken(p, username, t2)
  {
  }
}
