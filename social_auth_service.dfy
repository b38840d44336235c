/** Social login: the provider's user-info endpoint is asked who owns the access
    token, and the account `<provider>_<id>` is found or created. The HTTP
    client is the parameter `fetch`. */
module SocialAuthService {
  import opened Wrappers
  import opened Errors
  import opened Users
  import opened Text
  import opened JwtTokenProvider
  import opened AuthService

  /** A JSON value as the HTTP client's map deserialiser produces it. */
  datatype Json =
    | JNull
    | JBool(b: bool)
    | JNum(n: int)
    | JStr(s: string)
    | JArr(items: seq<Json>)
    | JObj(fields: map<string, Json>)

  /** `value?.toString()`: None for a missing or null value. A nested object or
      array renders as a fixed placeholder. */
  function ToText(j: Option<Json>): (r: Option<string>)
    ensures r.None? <==> (j.None? || j.value.JNull?)
    ensures j.Some? && j.value.JStr? ==> r == Some(j.value.s)
    ensures j.Some? && j.value.JNum? ==> r == Some(IntToString(j.value.n))
  {
    match j
    case None => None
    case Some(JNull) => None
    case Some(JBool(b)) => Some(if b then "true" else "false")
    case Some(JNum(n)) => Some(IntToString(n))
    case Some(JStr(s)) => Some(s)
    case Some(JArr(_)) => Some("[...]")
    case Some(JObj(_)) => Some("{...}")
  }

  /** `map?.get(key)`. */
  function Lookup(m: Option<map<string, Json>>, key: string): (r: Option<Json>)
    ensures r.Some? <==> m.Some? && key in m.value
  {
    if m.Some? && key in m.value then Some(m.value[key]) else None
  }

  /** `value as? Map<*, *>`. */
  function AsMap(j: Option<Json>): (r: Option<map<string, Json>>)
    ensures r.Some? <==> j.Some? && j.value.JObj?
  {
    match j
    case Some(JObj(fields)) => Some(fields)
    case _ => None
  }

  datatype OutboundRequest = HttpGet(url: string, headers: seq<(string, string)>)

  /** The decoded response body (None for an empty body), or what the client threw. */
  datatype ProviderReply = Body(json: Option<map<string, Json>>) | Raised(failure: Failure)

  type Fetch = OutboundRequest -> ProviderReply

  datatype SocialUserInfo = SocialUserInfo(provider: string, providerId: string, email: Option<string>)

  const KakaoUserInfoUrl := "https://kapi.kakao.com/v2/user/me"
  const NaverUserInfoUrl := "https://openapi.naver.com/v1/nid/me"
  const InvalidProviderMessage := "지원되지 않는 플랫폼의 소셜 로그인입니다."
  const KakaoMissingMessage := "Kakao id 또는 email을 찾을 수 없습니다."
  const NaverMissingMessage := "Naver id 또는 email을 찾을 수 없습니다."

  function KakaoRequest(accessToken: string): OutboundRequest {
    HttpGet(KakaoUserInfoUrl, [("Authorization", "Bearer " + accessToken),
                               ("Content-Type", "application/x-www-form-urlencoded;charset=utf-8")])
  }

  function NaverRequest(accessToken: string): OutboundRequest {
    HttpGet(NaverUserInfoUrl, [("Authorization", "Bearer " + accessToken)])
  }

  /** Kakao's reply: `id` at the top level, `email` inside `kakao_account`. */
  function ReadKakaoReply(body: Option<map<string, Json>>): (r: Outcome<SocialUserInfo>)
    ensures var id := ToText(Lookup(body, "id"));
      var email := ToText(Lookup(AsMap(Lookup(body, "kakao_account")), "email"));
      (r.Ok? <==> id.Some? && email.Some?)
      && (r.Ok? ==> r.value == SocialUserInfo("kakao", id.value, email))
    ensures r.Failure? ==> r.error == Err(InvalidSocialToken, KakaoMissingMessage)
    ensures r.Ok? ==> r.value.provider == "kakao" && r.value.email.Some?
  {
    var id := ToText(Lookup(body, "id"));
    var email := ToText(Lookup(AsMap(Lookup(body, "kakao_account")), "email"));
    if id.None? || email.None? then Failure(Err(InvalidSocialToken, KakaoMissingMessage))
    else Ok(SocialUserInfo("kakao", id.value, email))
  }

  /** Naver's reply: `id` and `email` both inside `response`. */
  function ReadNaverReply(body: Option<map<string, Json>>): (r: Outcome<SocialUserInfo>)
    ensures var response := AsMap(Lookup(body, "response"));
      var id := ToText(Lookup(response, "id"));
      var email := ToText(Lookup(response, "email"));
      (r.Ok? <==> id.Some? && email.Some?)
      && (r.Ok? ==> r.value == SocialUserInfo("naver", id.value, email))
    ensures r.Failure? ==> r.error == Err(InvalidSocialToken, NaverMissingMessage)
    ensures r.Ok? ==> r.value.provider == "naver" && r.value.email.Some?
  {
    var response := AsMap(Lookup(body, "response"));
    var id := ToText(Lookup(response, "id"));
    var email := ToText(Lookup(response, "email"));
    if id.None? || email.None? then Failure(Err(InvalidSocialToken, NaverMissingMessage))
    else Ok(SocialUserInfo("naver", id.value, email))
  }

  /** A Kakao reply with a numeric id and an account email gives that identity,
      whatever else the reply holds. */
  lemma KakaoReplyRead(body: map<string, Json>, id: int, email: string)
    requires "id" in body && body["id"] == JNum(id)
    requires "kakao_account" in body && body["kakao_account"].JObj?
    requires "email" in body["kakao_account"].fields && body["kakao_account"].fields["email"] == JStr(email)
    ensures ReadKakaoReply(Some(body)) == Ok(SocialUserInfo("kakao", IntToString(id), Some(email)))
  {
  }

  /** A Kakao reply without an id, without an account object, or whose account
      object holds no email, is refused. */
  lemma KakaoReplyRefused(body: Option<map<string, Json>>)
    requires ToText(Lookup(body, "id")).None?
             || AsMap(Lookup(body, "kakao_account")).None?
             || ToText(Lookup(AsMap(Lookup(body, "kakao_account")), "email")).None?
    ensures ReadKakaoReply(body) == Failure(Err(InvalidSocialToken, KakaoMissingMessage))
  {
  }

  /** A Naver reply whose `response` object holds a string id and an email
      gives that identity. */
  lemma NaverReplyRead(body: map<string, Json>, id: string, email: string)
    requires "response" in body && body["response"].JObj?
    requires "id" in body["response"].fields && body["response"].fields["id"] == JStr(id)
    requires "email" in body["response"].fields && body["response"].fields["email"] == JStr(email)
    ensures ReadNaverReply(Some(body)) == Ok(SocialUserInfo("naver", id, Some(email)))
  {
  }

  /** A Naver reply without a `response` object, or whose `response` lacks the
      id or the email, is refused. */
  lemma NaverReplyRefused(body: Option<map<string, Json>>)
    requires AsMap(Lookup(body, "response")).None?
             || ToText(Lookup(AsMap(Lookup(body, "response")), "id")).None?
             || ToText(Lookup(AsMap(Lookup(body, "response")), "email")).None?
    ensures ReadNaverReply(body) == Failure(Err(InvalidSocialToken, NaverMissingMessage))
  {
  }

  /** One call to Kakao's user-info endpoint; a body is read by `ReadKakaoReply`,
      a failure of the client propagates unchanged. */
  function VerifyKakaoAccessToken(fetch: Fetch, accessToken: string): (r: Outcome<SocialUserInfo>)
    ensures fetch(KakaoRequest(accessToken)).Raised? ==> r == Failure(fetch(KakaoRequest(accessToken)).failure)
    ensures fetch(KakaoRequest(accessToken)).Body? ==> r == ReadKakaoReply(fetch(KakaoRequest(accessToken)).json)
  {
    match fetch(KakaoRequest(accessToken))
    case Raised(f) => Failure(f)
    case Body(json) => ReadKakaoReply(json)
  }

  /** One call to Naver's user-info endpoint; a body is read by `ReadNaverReply`,
      a failure of the client propagates unchanged. */
  function VerifyNaverAccessToken(fetch: Fetch, accessToken: string): (r: Outcome<SocialUserInfo>)
    ensures fetch(NaverRequest(accessToken)).Raised? ==> r == Failure(fetch(NaverRequest(accessToken)).failure)
    ensures fetch(NaverRequest(accessToken)).Body? ==> r == ReadNaverReply(fetch(NaverRequest(accessToken)).json)
  {
    match fetch(NaverRequest(accessToken))
    case Raised(f) => Failure(f)
    case Body(json) => ReadNaverReply(json)
  }

  /** Dispatch on the provider name; an unsupported name is refused. A result
      always names the requested provider and carries an email. */
  function VerifyAndGetUserInfo(fetch: Fetch, provider: string, accessToken: string): (r: Outcome<SocialUserInfo>)
    ensures provider != "kakao" && provider != "naver" ==> r == Failure(Err(InvalidProvider, InvalidProviderMessage))
    ensures r.Ok? ==> r.value.provider == provider && r.value.email.Some?
    ensures provider == "kakao" && r.Failure? ==>
      (fetch(KakaoRequest(accessToken)).Raised? || r.error == Err(InvalidSocialToken, KakaoMissingMessage))
    ensures provider == "naver" && r.Failure? ==>
      (fetch(NaverRequest(accessToken)).Raised? || r.error == Err(InvalidSocialToken, NaverMissingMessage))
  {
    if provider == "kakao" then VerifyKakaoAccessToken(fetch, accessToken)
    else if provider == "naver" then VerifyNaverAccessToken(fetch, accessToken)
    else Failure(Err(InvalidProvider, InvalidProviderMessage))
  }

  /** An unsupported provider is refused before any outbound call: the answer
      does not depend on the HTTP client at all. */
  lemma UnsupportedProviderMakesNoCall(fetch1: Fetch, fetch2: Fetch, provider: string, accessToken: string)
    requires provider != "kakao" && provider != "naver"
    ensures VerifyAndGetUserInfo(fetch1, provider, accessToken) == VerifyAndGetUserInfo(fetch2, provider, accessToken)
  {
  }

  /** The local account name of a social identity. */
  function SocialUsername(info: SocialUserInfo): string {
    info.provider + "_" + info.providerId
  }

  /** `createOrGetUser` on the table's value: the existing row, or a new
      password-less `ROLE_USER` row with the id the database assigns. */
  function Provision(users: map<string, User>, info: SocialUserInfo, newId: int): (r: (map<string, User>, User))
    requires Stored(users)
    ensures Stored(r.0)
    ensures SocialUsername(info) in r.0 && r.0[SocialUsername(info)] == r.1
    ensures SocialUsername(info) in users ==> r == (users, users[SocialUsername(info)])
    ensures SocialUsername(info) !in users ==>
      (r.0 == users[SocialUsername(info) := r.1] && r.1.id == Some(newId) && r.1.password.None?
       && r.1.roles == ["ROLE_USER"] && r.1.refreshToken.None?)
  {
    var name := SocialUsername(info);
    if name in users then (users, users[name])
    else
      var user := User(Some(newId), name, None, ["ROLE_USER"], None);
      (users[name := user], user)
  }

  /** Logging in twice with one identity creates at most one account: the
      second call finds the row the first created. */
  lemma ProvisionIdempotent(users: map<string, User>, info: SocialUserInfo, id1: int, id2: int)
    requires Stored(users)
    ensures var first := Provision(users, info, id1);
      Provision(first.0, info, id2) == first
  {
  }

  method CreateOrGetUser(repo: UserRepository, info: SocialUserInfo, newId: int) returns (user: User)
    requires repo.Valid()
    modifies repo
    ensures repo.Valid()
    ensures (repo.users, user) == Provision(old(repo.users), info, newId)
  {
    var username := SocialUsername(info);
    var found := repo.FindByUsername(username);
    if found.Some? {
      return found.value;
    }
    user := User(Some(newId), username, None, ["ROLE_USER"], None);
    repo.Save(user);
  }

  /** `loginWithSocial`: verify the token with the provider, find or create the
      account, then issue tokens as a local login does. */
  method LoginWithSocial(p: Provider, repo: UserRepository, fetch: Fetch, provider: string, accessToken: string,
                         newId: int, nowMs: nat) returns (r: Outcome<TokenResponse>)
    requires repo.Valid()
    modifies repo
    ensures repo.Valid()
    ensures var info := VerifyAndGetUserInfo(fetch, provider, accessToken);
      (info.Failure? ==> r == Failure(info.error) && repo.users == old(repo.users))
      && (info.Ok? ==>
            var (users1, user) := Provision(old(repo.users), info.value, newId);
            r == IssueTokens(p, user, nowMs)
            && r.Ok?
            && repo.users == users1[user.username := user.(refreshToken := Some(r.value.refreshToken))])
  {
    var info := VerifyAndGetUserInfo(fetch, provider, accessToken);
    if info.Failure? {
      return Failure(info.error);
    }
    var user := CreateOrGetUser(repo, info.value, newId);
    r := GenerateToken(p, repo, user, nowMs);
  }
}
