/** The interceptor that times every request and queues one log line for it. */
module ApiLogInterceptor {
  import opened Wrappers
  import opened Text
  import opened Principals
  import opened Servlet
  import opened ApiLogService
  import GlobalExceptionHandler
  import UserArgumentResolver
  import Errors

  const StartTimeAttribute := "startTime"

  /** `preHandle`: records the start time and lets the request through. */
  method PreHandle(request: HttpRequest, nowMs: int) returns (proceed: bool)
    modifies request
    ensures proceed
    ensures request.attributes == old(request.attributes)[StartTimeAttribute := LongValue(nowMs)]
  {
    request.SetAttribute(StartTimeAttribute, LongValue(nowMs));
    proceed := true;
  }

  /** `getClientIp`: the first entry of a non-empty `X-Forwarded-For`, trimmed;
      otherwise the peer address. */
  function GetClientIp(info: RequestInfo): (ip: string)
    ensures (GetHeader(info, "X-Forwarded-For").None? || GetHeader(info, "X-Forwarded-For").value == "")
            ==> ip == info.remoteAddr
    ensures (GetHeader(info, "X-Forwarded-For").Some? && GetHeader(info, "X-Forwarded-For").value != "")
            ==> (',' !in ip && (ip == [] || (!IsWhitespace(ip[0]) && !IsWhitespace(ip[|ip| - 1]))))
  {
    var forwarded := GetHeader(info, "X-Forwarded-For");
    if forwarded.Some? && forwarded.value != "" then
      var first := BeforeFirst(forwarded.value, ',');
      NotInTrim(first, ',');
      Trim(first)
    else
      info.remoteAddr
  }

  /** With several proxies, the client is the first address in the list,
      with the whitespace around it removed. */
  lemma ForwardedForFirstHop(info: RequestInfo, ws1: string, client: string, ws2: string, proxies: string)
    requires GetHeader(info, "X-Forwarded-For") == Some(ws1 + client + ws2 + "," + proxies)
    requires IsBlank(ws1) && IsBlank(ws2)
    requires ',' !in client && client != [] && !IsWhitespace(client[0]) && !IsWhitespace(client[|client| - 1])
    ensures GetClientIp(info) == client
  {
    var entry := ws1 + client + ws2;
    NoCommaInPadded(ws1, client, ws2);
    assert ws1 + client + ws2 + "," + proxies == entry + [','] + proxies;
    BeforeFirstOf(entry, ',', proxies);
    TrimPadded(ws1, client, ws2);
  }

  /** A header naming only the client gives the client, trimmed. */
  lemma ForwardedForSingleEntry(info: RequestInfo, ws1: string, client: string, ws2: string)
    requires GetHeader(info, "X-Forwarded-For") == Some(ws1 + client + ws2)
    requires IsBlank(ws1) && IsBlank(ws2)
    requires ',' !in client && client != [] && !IsWhitespace(client[0]) && !IsWhitespace(client[|client| - 1])
    ensures GetClientIp(info) == client
  {
    NoCommaInPadded(ws1, client, ws2);
    BeforeFirstWhole(ws1 + client + ws2, ',');
    TrimPadded(ws1, client, ws2);
  }

  /** A header of whitespace only is not empty, so there is no fallback to the
      peer address: the client address is the empty string. */
  lemma ForwardedForBlank(info: RequestInfo)
    requires GetHeader(info, "X-Forwarded-For").Some?
    requires GetHeader(info, "X-Forwarded-For").value != "" && IsBlank(GetHeader(info, "X-Forwarded-For").value)
    ensures GetClientIp(info) == ""
  {
    var header := GetHeader(info, "X-Forwarded-For").value;
    var first := BeforeFirst(header, ',');
    assert IsBlank(first) by {
      forall i | 0 <= i < |first| ensures IsWhitespace(first[i]) {
        assert first[i] == header[i];
      }
    }
  }

  /** Whitespace holds no comma. */
  lemma NoCommaInPadded(ws1: string, client: string, ws2: string)
    requires IsBlank(ws1) && IsBlank(ws2) && ',' !in client
    ensures ',' !in ws1 + client + ws2
  {
    var s := ws1 + client + ws2;
    forall i | 0 <= i < |s| ensures s[i] != ',' {
      if i < |ws1| {
        assert s[i] == ws1[i];
      } else if i < |ws1| + |client| {
        assert s[i] == client[i - |ws1|];
      } else {
        assert s[i] == ws2[i - |ws1| - |client|];
      }
    }
  }

  /** The user id logged for a request: the principal's, when the request is
      authenticated with the application's details. */
  function LoggedUserId(authentication: Option<Authentication>): (r: Option<int>)
    ensures r.Some? <==> (authentication.Some? && authentication.value.authenticated
                          && authentication.value.principal.Details?)
    ensures r.Some? ==> r.value == authentication.value.principal.details.userId
  {
    if authentication.Some? && authentication.value.authenticated && authentication.value.principal.Details? then
      Some(authentication.value.principal.details.userId)
    else
      None
  }

  /** The logged user is exactly the user a `@CurrentUser` parameter resolves to. */
  lemma LoggedUserIsResolvedUser(authentication: Option<Authentication>)
    ensures LoggedUserId(authentication).Some? <==> UserArgumentResolver.ResolveArgument(authentication).Ok?
    ensures LoggedUserId(authentication).Some? ==>
      LoggedUserId(authentication).value == UserArgumentResolver.ResolveArgument(authentication).value
  {
  }

  /** The log line `afterCompletion` builds, or None when the start time is
      missing or is not a Long. */
  function DeriveLog(info: RequestInfo, attributes: map<string, Attribute>, status: int,
                     authentication: Option<Authentication>, endMs: int, timestamp: int): (r: Option<ApiLog>)
    ensures r.Some? <==> (StartTimeAttribute in attributes && attributes[StartTimeAttribute].LongValue?)
    ensures r.Some? ==> (r.value.executionTime == endMs - attributes[StartTimeAttribute].l
                         && r.value.userId == LoggedUserId(authentication)
                         && r.value.requestParam == info.queryString.GetOr("")
                         && r.value.userAgent == GetHeader(info, "User-Agent").GetOr("")
                         && r.value.clientIp == GetClientIp(info)
                         && r.value.status == status && r.value.requestUri == info.requestUri
                         && r.value.httpMethod == info.httpMethod && r.value.timestamp == timestamp)
    ensures r.Some? ==> (r.value.errorMessage.Some? <==>
                         (GlobalExceptionHandler.ErrorMessageAttribute in attributes
                          && attributes[GlobalExceptionHandler.ErrorMessageAttribute].StringValue?))
    ensures r.Some? && r.value.errorMessage.Some? ==>
      r.value.errorMessage.value == attributes[GlobalExceptionHandler.ErrorMessageAttribute].s
  {
    if StartTimeAttribute !in attributes || !attributes[StartTimeAttribute].LongValue? then
      None
    else
      var startTime := attributes[StartTimeAttribute].l;
      var errorMessage :=
        if GlobalExceptionHandler.ErrorMessageAttribute in attributes
           && attributes[GlobalExceptionHandler.ErrorMessageAttribute].StringValue?
        then Some(attributes[GlobalExceptionHandler.ErrorMessageAttribute].s)
        else None;
      Some(ApiLog(info.requestUri, info.httpMethod, info.queryString.GetOr(""), status, timestamp,
                  endMs - startTime, LoggedUserId(authentication), GetClientIp(info),
                  GetHeader(info, "User-Agent").GetOr(""), errorMessage))
  }

  /** A request that failed with an exception that reaches the catch-all
      handler is logged with the exception's class name and message, and
      with the time between the two interceptor calls. */
  lemma FailedRequestLogged(info: RequestInfo, attributes: map<string, Attribute>, startMs: int, endMs: int,
                            simpleName: string, message: Option<string>, authentication: Option<Authentication>,
                            timestamp: int)
    ensures var handled := GlobalExceptionHandler.Handle(Errors.Thrown(simpleName, message));
      var after := attributes[StartTimeAttribute := LongValue(startMs)]
                             [GlobalExceptionHandler.ErrorMessageAttribute := StringValue(handled.1.value)];
      var log := DeriveLog(info, after, handled.0.httpStatus, authentication, endMs, timestamp);
      log.Some? && log.value.status == 500 && log.value.executionTime == endMs - startMs
      && log.value.errorMessage == Some(simpleName + ": " + message.GetOr("No message"))
  {
  }

  /** `afterCompletion`: queues the derived log line, if there is one. */
  method AfterCompletion(request: HttpRequest, status: int, authentication: Option<Authentication>,
                         endMs: int, timestamp: int, service: ApiLogService)
    requires service.Valid()
    modifies service, service.repository
    ensures service.Valid()
    ensures var log := DeriveLog(request.info, request.attributes, status, authentication, endMs, timestamp);
      (log.None? ==> service.enqueued == old(service.enqueued) && service.queue == old(service.queue)
                     && service.repository.rows == old(service.repository.rows))
      && (log.Some? ==> service.enqueued == old(service.enqueued) + [log.value])
  {
    var log := DeriveLog(request.info, request.attributes, status, authentication, endMs, timestamp);
    if log.None? {
      return;
    }
    service.EnqueueLog(log.value);
  }
}
