# gava backend, modelled in Dafny

This project models the core of the gava todo backend. The backend is a Spring Boot service, written in Kotlin with one older Java service. The model covers four parts of it.

- **Tokens and sessions.**
  - Issuing and reading access and refresh tokens (HS256-signed JSON Web Tokens).
  - Local login, refresh-token rotation and token issuance.
  - Social login through Kakao and Naver.
  - The bearer-token filter, and the lookups around the user table.
- **Errors and validation.**
  - The error-code-to-status table and the exception handler's response envelope.
  - The sign-up field constraints.
- **The todo domain.**
  - Todos, sub-todos and groups as objects in in-memory tables; icons as values in a table of their own.
  - The two-sided todo/group association.
  - The create, done, delete and update operations, with their existence and ownership checks.
  - The filter query, entity identity, the content equality of an icon download, and the calendar windows of the reactive month and year queries.
- **API logging.**
  - The record derived from each request and the client-IP rule.
  - The FIFO queue that is written out in batches of 100.

How the model is built:

- Values become datatypes and functions.
- Code that changes things in place becomes classes with `modifies` clauses.
  - The todo, sub-todo and todo-group entities.
  - The repositories, as maps from id to entity.
  - The user repository, keyed by username.
  - The security context, the request attributes and the log queue.
- Each method is proved against a function of its inputs and old state, or against a representation invariant.
  - `Linked` says that the todo and group sides of the association agree.
  - `ApiLogService.Valid` says that no log is lost or reordered.
- Everything outside the core becomes a parameter:
  - the clock (`nowMs`), the HMAC (`hmac`), the password encoder and matcher;
  - the HTTP client of the social providers (`fetch`);
  - the ids the database and the id generator hand out (`newId`, `todoId`, `firstSubTodoId`).

Failures are the datatype `Errors.Failure`:
- `Err(code, message)` for the application's `CustomException`;
- `Thrown(simpleName, detail)` for any other exception that reaches the catch-all handler (the standard Spring MVC exceptions that the inherited `ResponseEntityExceptionHandler` answers itself are left out, see "## Left out");
- four framework exceptions that the handler treats specially.

Where the code departs from its tests and documentation, the model follows the code:

- **Failed provider calls.** The provider's user-info call is not wrapped: an HTTP error from the client propagates as it is (`src/main/kotlin/com/example/gava/domain/auth/service/SocialAuthService.kt:41-46`). It is not turned into INVALID_SOCIAL_TOKEN. `VerifyAndGetUserInfo` passes the client's failure through.
- **Role names.** New accounts get the role `ROLE_USER`, not `USER`.
- **Missing error codes.** `ErrorCode.kt` declares neither INVALID_CREDENTIALS, VALIDATION_FAILED, ACCESS_DENIED and REQUEST_TIMEOUT nor `defaultMessage`. The model adds the four codes, with the statuses the handler and the tests give them: 401, 400, 403 and 408. The name of a code stands in for its default message.
- **Sub-todo times.** `SubTodo.kt` has no `startTime`/`dueTime`, but the service sets and reads them. The model gives sub-todos both fields.
- **A missing method.** `Todo.removeGroupWithoutBackReference`, which `TodoGroup.kt` calls, does not exist. The model takes it to remove the group from the todo's side only.
- **The password of a password-less account.** `src/main/kotlin/com/example/gava/security/CustomUserDetailsService.kt:29` passes the nullable `User.password` (`User.kt:13`) where `CustomUserDetails` takes a non-null `String` (`CustomUserDetails.kt:9`), so the code as written does not type-check there. The model passes the password as an `Option`, so a password-less social account loads. No login result depends on this reading: a failure inside `loadUserByUsername` reaches `login` as an authentication failure, which gives INVALID_CREDENTIALS as well.
- **The filter does not always continue.** The bearer filter does not continue the chain when a claim read throws. See "## Findings".

## Model

| member | source | states |
|---|---|---|
| JwtTokenProvider.NewProvider | src/main/kotlin/com/example/gava/security/JwtTokenProvider.kt:12-18 | a provider exists exactly when the secret's UTF-8 bytes are at least 32 (the HS256 key minimum); otherwise WeakKeyException |
| JwtTokenProvider.ParseClaimsJws | src/main/kotlin/com/example/gava/security/JwtTokenProvider.kt:54-57 | parsing succeeds only for a well-formed token whose signature is this key's MAC and which is not expired, and then yields its claims; each other case is one of the four named parse exceptions |
| JwtTokenProvider.Materialise | src/main/kotlin/com/example/gava/security/JwtTokenProvider.kt:61-63 | a numeric claim is read as an Int exactly when it fits 32 bits, otherwise as a Long, and either way keeps its value |
| JwtTokenProvider.GetUserId | src/main/kotlin/com/example/gava/security/JwtTokenProvider.kt:53-66 | a result is the token's `userId` claim; a verified token without one fails with IllegalStateException "User ID is not a number" |
| JwtTokenProvider.GetUsername | src/main/kotlin/com/example/gava/security/JwtTokenProvider.kt:68-75 | a result is the token's subject; a verified token without one fails the non-null return |
| JwtTokenProvider.GetRoles | src/main/kotlin/com/example/gava/security/JwtTokenProvider.kt:77-84 | a result is the token's `roles` claim; a verified token without one fails the cast |
| JwtTokenProvider.ValidateToken | src/main/kotlin/com/example/gava/security/JwtTokenProvider.kt:86-96 | never fails; true exactly when the token is non-empty, well formed, signed with this key, has an expiry, and the clock is not past it (so still valid at the expiry instant) |
| JwtTokenProvider.GetExpirationTime | src/main/kotlin/com/example/gava/security/JwtTokenProvider.kt:98-100 | the configured access lifetime in ms, a constant rather than an instant |
| JwtTokenProvider.SignedTokenParses | src/main/kotlin/com/example/gava/security/JwtTokenProvider.kt:28-34 | a token this provider signed parses back to exactly its claims, or to ExpiredJwtException once expired |
| JwtTokenProvider.ForgedSignatureRejected | src/main/kotlin/com/example/gava/security/JwtTokenProvider.kt:86-96 | any token whose signature is not this key's MAC of its claims is refused by parsing and by `validateToken` |
| JwtTokenProvider.AccessTokenRoundTrip | src/main/kotlin/com/example/gava/security/JwtTokenProvider.kt:20-35 | until expiry, an access token for (userId, username, roles) gives back exactly that userId, username and roles, and validates |
| JwtTokenProvider.AccessTokenLifetime | src/main/kotlin/com/example/gava/security/JwtTokenProvider.kt:25-26 | an access token validates exactly up to its expiry instant, which lies within a second below issue time plus the access lifetime |
| JwtTokenProvider.FreshAccessTokenValid | src/main/kotlin/com/example/gava/security/JwtTokenProvider.kt:25-26 | with a lifetime of at least a second, a token validates at its issue time |
| JwtTokenProvider.RefreshTokenClaims | src/main/kotlin/com/example/gava/security/JwtTokenProvider.kt:37-51 | a live refresh token validates and names its user, but reading its user id fails with "User ID is not a number" and reading its roles fails |
| JwtTokenProvider.RefreshTokenLifetime | src/main/kotlin/com/example/gava/security/JwtTokenProvider.kt:38-41 | a refresh token validates exactly up to issue time plus the refresh lifetime (whole seconds) |
| JwtTokenProvider.RefreshTokensBySecond | src/main/kotlin/com/example/gava/security/JwtTokenProvider.kt:44-51 | refresh tokens for one user issued in different seconds are different strings |
| JwtTokenProvider.RefreshTokensWithinSecond | src/main/kotlin/com/example/gava/security/JwtTokenProvider.kt:37-51 | two refresh tokens for one user whose issue and expiry fall in the same seconds are the same string |
| JwtTokenProvider.SignInjective | src/main/kotlin/com/example/gava/security/JwtTokenProvider.kt:28-34 | two tokens this provider signed are equal only when their claims are |
| JwtTokenProvider.SignedTokenValidates | src/main/kotlin/com/example/gava/security/JwtTokenProvider.kt:86-96 | a token this provider signed validates exactly when it has an expiry and the clock is not past it |
| JwtCompact.ParseCompactRoundTrip | src/main/kotlin/com/example/gava/security/JwtTokenProvider.kt:28-34 | the compact form of claims and a signature reads back to those claims, that signature and the signed text |
| JwtCompact.CompactInjective | src/main/kotlin/com/example/gava/security/JwtTokenProvider.kt:28-34 | two compact tokens are equal only when their claims and signatures are |
| JwtCompact.DecodeEncodeClaims | src/main/kotlin/com/example/gava/security/JwtTokenProvider.kt:21-32 | the claim set (`sub`, `iat`, `exp`, `userId`, `roles`) decodes back to itself, leaving the rest of the text |
| AuthService.Authenticate | src/main/kotlin/com/example/gava/domain/auth/service/AuthService.kt:26-27 | authentication succeeds only for a stored user with an id and a password |
| AuthService.CheckLogin | src/main/kotlin/com/example/gava/domain/auth/service/AuthService.kt:23-39 | login's check succeeds exactly for a stored user with an id whose stored password matches, yielding that user; unknown user and wrong password give one and the same INVALID_CREDENTIALS error |
| AuthService.IssueTokens | src/main/kotlin/com/example/gava/domain/auth/service/AuthService.kt:61-80 | fails with INTERNAL_SERVER_ERROR "User ID is null" exactly for a user without an id; otherwise tokenType is "Bearer" and expirationTime the access lifetime |
| AuthService.IssuedTokensIdentifyUser | src/main/kotlin/com/example/gava/domain/auth/service/AuthService.kt:66-67 | the issued access token gives back the user's id, username and roles until it expires; the refresh token validates and names the user until its own expiry |
| AuthService.CheckRefresh | src/main/kotlin/com/example/gava/domain/auth/service/AuthService.kt:42-55 | the checks in order: an invalid token fails with INVALID_REFRESH_TOKEN "refreshToken is invalid"; a subject that cannot be read fails with that read's error; an unknown subject fails with USER_NOT_FOUND "<username> is not found"; a stored token other than the presented one fails with INVALID_REFRESH_TOKEN "<token> is not matched to user"; otherwise the stored user |
| AuthService.CurrentRefreshTokenAccepted | src/main/kotlin/com/example/gava/domain/auth/service/AuthService.kt:42-58 | the refresh token stored for a user is accepted while it is live |
| AuthService.SupersededRefreshTokenRejected | src/main/kotlin/com/example/gava/domain/auth/service/AuthService.kt:53-55 | rotation: after a refresh in a later second stored a new token, the first token is refused with INVALID_REFRESH_TOKEN at any time |
| AuthService.GenerateToken | src/main/kotlin/com/example/gava/domain/auth/service/AuthService.kt:61-80 | returns the issued tokens; the user's row then stores the returned refresh token and no other row changes; a user without an id changes nothing |
| AuthService.Login | src/main/kotlin/com/example/gava/domain/auth/service/AuthService.kt:23-39 | a failed credential check returns its error and changes nothing; otherwise the issued tokens, with only that user's refresh token overwritten |
| AuthService.Refresh | src/main/kotlin/com/example/gava/domain/auth/service/AuthService.kt:42-59 | a failed check returns its error and changes nothing; otherwise new tokens, the new refresh token replacing the presented one on that user's row only |
| SocialAuthService.ToText | src/main/kotlin/com/example/gava/domain/auth/service/SocialAuthService.kt:48-50 | `?.toString()` is absent exactly for a missing or null value; strings pass through and numbers render in decimal |
| SocialAuthService.Lookup | src/main/kotlin/com/example/gava/domain/auth/service/SocialAuthService.kt:48 | a map lookup is present exactly when the map is and holds the key |
| SocialAuthService.AsMap | src/main/kotlin/com/example/gava/domain/auth/service/SocialAuthService.kt:49 | the safe cast to a map succeeds exactly for a JSON object |
| SocialAuthService.ReadKakaoReply | src/main/kotlin/com/example/gava/domain/auth/service/SocialAuthService.kt:48-56 | succeeds exactly when the reply has an `id` and a `kakao_account.email` that render as text, giving the "kakao" identity with exactly those; otherwise INVALID_SOCIAL_TOKEN with the Kakao message |
| SocialAuthService.ReadNaverReply | src/main/kotlin/com/example/gava/domain/auth/service/SocialAuthService.kt:66-74 | succeeds exactly when the reply's `response` object has an `id` and an `email` that render as text, giving the "naver" identity with exactly those; otherwise INVALID_SOCIAL_TOKEN with the Naver message |
| SocialAuthService.KakaoReplyRead | src/main/kotlin/com/example/gava/domain/auth/service/SocialAuthService.kt:48-50 | a Kakao reply with a top-level id and `kakao_account.email` yields exactly that id and email |
| SocialAuthService.KakaoReplyRefused | src/main/kotlin/com/example/gava/domain/auth/service/SocialAuthService.kt:52-54 | a Kakao reply missing the id, or without an email under `kakao_account` (absent, not an object, or no `email`), is refused with INVALID_SOCIAL_TOKEN |
| SocialAuthService.NaverReplyRead | src/main/kotlin/com/example/gava/domain/auth/service/SocialAuthService.kt:66-68 | a Naver reply whose `response` object holds id and email yields exactly those |
| SocialAuthService.NaverReplyRefused | src/main/kotlin/com/example/gava/domain/auth/service/SocialAuthService.kt:66-72 | a Naver reply whose `response` is not an object, or lacks the id or the email, is refused with INVALID_SOCIAL_TOKEN |
| SocialAuthService.VerifyKakaoAccessToken | src/main/kotlin/com/example/gava/domain/auth/service/SocialAuthService.kt:40-57 | a reply body is read by `ReadKakaoReply`; an exception from the HTTP client propagates unchanged |
| SocialAuthService.VerifyNaverAccessToken | src/main/kotlin/com/example/gava/domain/auth/service/SocialAuthService.kt:59-75 | a reply body is read by `ReadNaverReply`; an exception from the HTTP client propagates unchanged |
| SocialAuthService.VerifyAndGetUserInfo | src/main/kotlin/com/example/gava/domain/auth/service/SocialAuthService.kt:32-38 | any name other than exactly "kakao" or "naver" fails with INVALID_PROVIDER; a result names the dispatched provider and carries an email; every other failure is the client's or the provider's missing-field error |
| SocialAuthService.UnsupportedProviderMakesNoCall | src/main/kotlin/com/example/gava/domain/auth/service/SocialAuthService.kt:36 | for an unsupported provider the answer does not depend on the HTTP client: no call is made |
| SocialAuthService.Provision | src/main/kotlin/com/example/gava/domain/auth/service/SocialAuthService.kt:77-91 | the account is named provider + "_" + providerId; an existing row is returned unchanged, otherwise exactly one password-less ROLE_USER row is added |
| SocialAuthService.ProvisionIdempotent | src/main/kotlin/com/example/gava/domain/auth/service/SocialAuthService.kt:79-82 | provisioning the same identity twice returns the first account and adds no row |
| SocialAuthService.CreateOrGetUser | src/main/kotlin/com/example/gava/domain/auth/service/SocialAuthService.kt:77-91 | the user table and the returned user are those `Provision` gives |
| SocialAuthService.LoginWithSocial | src/main/kotlin/com/example/gava/domain/auth/service/SocialAuthService.kt:21-30 | a failed verification changes nothing; otherwise the account is found or created and tokens are issued for it, its row storing the new refresh token |
| JwtAuthenticationFilter.ResolveToken | src/main/kotlin/com/example/gava/security/JwtAuthenticationFilter.kt:45-51 | a token exactly when the header is present, not blank and starts with the case-sensitive "Bearer "; the token is exactly the rest of the header, untrimmed |
| JwtAuthenticationFilter.BearerHeaderResolves | src/main/kotlin/com/example/gava/security/JwtAuthenticationFilter.kt:47-48 | "Bearer " followed by any text resolves to that text |
| JwtAuthenticationFilter.AuthenticationFor | src/main/kotlin/com/example/gava/security/JwtAuthenticationFilter.kt:26-32 | no authentication unless the token is non-blank and validates; an authentication carries the token's userId, subject and one authority per role, with password "" |
| JwtAuthenticationFilter.TokenNotBlank | src/main/kotlin/com/example/gava/security/JwtAuthenticationFilter.kt:26 | an issued token is never blank |
| JwtAuthenticationFilter.AccessTokenAuthenticates | src/main/kotlin/com/example/gava/security/JwtAuthenticationFilter.kt:23-39 | a live access token sent as "Bearer <token>" authenticates its user with the user's roles |
| JwtAuthenticationFilter.RefreshTokenAsBearerThrows | src/main/kotlin/com/example/gava/security/JwtAuthenticationFilter.kt:26-27 | as written, a live refresh token sent as a bearer token makes the filter throw IllegalStateException |
| JwtAuthenticationFilter.DoFilterInternal | src/main/kotlin/com/example/gava/security/JwtAuthenticationFilter.kt:17-43 | the context receives the decided authentication or is left as it was, and the chain continues, unless a claim read threw |
| JwtAuthenticationFilter.GuardedAuthenticationFor | src/main/kotlin/com/example/gava/security/JwtAuthenticationFilter.kt:26-39 | the corrected decision: the written decision when it succeeds, no authentication when a claim read would throw |
| JwtAuthenticationFilter.GuardedRefreshTokenAsBearer | src/main/kotlin/com/example/gava/security/JwtAuthenticationFilter.kt:26-42 | with the corrected decision, a refresh token as bearer leaves the request unauthenticated |
| JwtAuthenticationFilter.DoFilterInternalGuarded | src/main/kotlin/com/example/gava/security/JwtAuthenticationFilter.kt:17-43 | the corrected filter: installs the decided authentication or leaves the context unchanged, and always continues |
| CustomUserDetailsService.LoadUserByUsername | src/main/kotlin/com/example/gava/security/CustomUserDetailsService.kt:18-32 | an unknown username raises UsernameNotFoundException with its message; a stored row with an id always loads; the details copy the stored row's id, username and password, with one authority per role, in order |
| Principals.Authorities | src/main/kotlin/com/example/gava/security/CustomUserDetailsService.kt:23 | one authority per role, in order, carrying the role's string |
| Principals.RolesOfAuthorities | src/main/kotlin/com/example/gava/security/CustomUserDetailsService.kt:23 | reading the roles back from the authorities gives exactly the original roles |
| Principals.SecurityContext.SetAuthentication | src/main/kotlin/com/example/gava/security/JwtAuthenticationFilter.kt:39 | the context then holds exactly that authentication |
| UserArgumentResolver.SupportsParameter | src/main/kotlin/com/example/gava/resolver/UserArgumentResolver.kt:21-24 | supported exactly for parameters of type User carrying @CurrentUser |
| UserArgumentResolver.ResolveArgument | src/main/kotlin/com/example/gava/resolver/UserArgumentResolver.kt:26-43 | resolves exactly when an authenticated authentication holds the application's details, to the principal's user id; every other case is UNAUTHORIZED, never null |
| UserService.LocalUser | src/main/kotlin/com/example/gava/domain/user/service/UserService.kt:28-33 | the new row has the given username, the encoded password (never the plaintext) and the single role ROLE_USER |
| UserService.Signup | src/main/kotlin/com/example/gava/domain/user/service/UserService.kt:21-36 | a taken username fails with DUPLICATE_USERNAME and changes nothing; otherwise exactly that one row is added |
| UserService.SignupAddsOneRow | src/main/kotlin/com/example/gava/domain/user/service/UserService.kt:35 | a sign-up grows the table by exactly one row, after which the username exists |
| UserService.GetCurrentUser | src/main/kotlin/com/example/gava/domain/user/service/UserService.kt:38-42 | the row named by the principal's username, which a stored username always gives; UNAUTHORIZED when there is none; a missing authentication or a principal of another type fails |
| UserService.GetCurrentUserInfo | src/main/kotlin/com/example/gava/domain/user/service/UserService.kt:44-51 | succeeds exactly when the current user is found, with that user's id, username and roles |
| UserService.CurrentUserInfoIgnoresArgument | src/main/kotlin/com/example/gava/domain/user/service/UserService.kt:44-45 | the username argument does not affect the answer |
| Users.UserRepository.FindByUsername | src/main/kotlin/com/example/gava/domain/user/service/UserService.kt:40 | exact-username lookup: present exactly when a row has that username, and then that row |
| Users.UserRepository.Save | src/main/kotlin/com/example/gava/domain/user/service/UserService.kt:35 | the row under the user's username becomes the user; the table stays keyed by username |
| SignupRequest.ValidateSignup | src/main/kotlin/com/example/gava/domain/auth/dto/SignupRequest.kt:6-20 | no violation exactly when both fields match their patterns and are not blank; each of the four messages (username pattern, username required, password pattern, password required) is reported on its field exactly when its constraint fails; at most four violations |
| SignupRequest.ValidateLogin | src/main/kotlin/com/example/gava/domain/auth/dto/LoginRequest.kt:5-11 | no violation exactly when both fields are not blank |
| SignupRequest.ValidateRefresh | src/main/kotlin/com/example/gava/domain/auth/dto/RefreshRequest.kt:5-8 | no violation exactly when the refresh token is not blank |
| SignupRequest.UsernameAcceptedIff | src/main/kotlin/com/example/gava/domain/auth/dto/SignupRequest.kt:7-12 | a username is accepted exactly when non-empty and made only of ASCII letters, digits and Hangul syllables U+AC00 to U+D7A3 |
| SignupRequest.PasswordAcceptedIff | src/main/kotlin/com/example/gava/domain/auth/dto/SignupRequest.kt:14-19 | a password is accepted exactly when non-empty and made only of ASCII letters, digits and the listed symbols |
| SignupRequest.EmptyOnlyFailsNotBlank | src/main/kotlin/com/example/gava/domain/auth/dto/SignupRequest.kt:8-11 | the empty string matches both patterns; only @NotBlank refuses it |
| SignupRequest.ForbiddenCharacters | src/main/kotlin/com/example/gava/domain/auth/dto/SignupRequest.kt:8-15 | any whitespace makes either field invalid; a backslash, backtick, tilde or bar makes a password invalid |
| Errors.Name | src/main/kotlin/com/example/gava/exception/ErrorCode.kt:5-26 | every code has a non-empty enum name |
| Errors.NamesDistinct | src/main/kotlin/com/example/gava/exception/ErrorCode.kt:5-26 | distinct codes have distinct names |
| Errors.Status | src/main/kotlin/com/example/gava/exception/ErrorCode.kt:5-26 | the status is 400, 401, 403, 408 or 500: 401 exactly for UNAUTHORIZED, INVALID_REFRESH_TOKEN, INVALID_SOCIAL_TOKEN and INVALID_CREDENTIALS; 403 exactly for FORBIDDEN and ACCESS_DENIED; 408 exactly for REQUEST_TIMEOUT; 500 exactly for INTERNAL_SERVER_ERROR; the not-found codes 400; no code the enum declares is 408 |
| Errors.DefaultMessage | src/main/kotlin/com/example/gava/exception/GlobalExceptionHandler.kt:27 | a non-empty fallback message for every code |
| GlobalExceptionHandler.BuildResponse | src/main/kotlin/com/example/gava/exception/GlobalExceptionHandler.kt:18-31 | the body's status is the response status, its code the enum name, its message the given one or else the code's default |
| GlobalExceptionHandler.FieldErrorTexts | src/main/kotlin/com/example/gava/exception/GlobalExceptionHandler.kt:49-51 | one "field: message" text per field error, in binding order |
| GlobalExceptionHandler.ValidationMessageSnoc | src/main/kotlin/com/example/gava/exception/GlobalExceptionHandler.kt:49-51 | one more field error appends ", field: message" to the validation message |
| GlobalExceptionHandler.Handle | src/main/kotlin/com/example/gava/exception/GlobalExceptionHandler.kt:33-86 | each failure kind gets its status, code and message (CustomException its own code, timeout 408, validation 400, denied 403, any other exception that reaches the catch-all 500); the body status always equals the HTTP status; only the catch-all sets "errorMessage" to "Name: message or 'No message'" |
| GlobalExceptionHandler.StatusClassification | src/main/kotlin/com/example/gava/exception/GlobalExceptionHandler.kt:33-86 | every response is 4xx or 5xx, and 5xx exactly for an exception that reaches the catch-all or an explicit INTERNAL_SERVER_ERROR |
| GlobalExceptionHandler.HandleException | src/main/kotlin/com/example/gava/exception/GlobalExceptionHandler.kt:82-86 | the response is `Handle`'s, and only an exception that reaches the catch-all sets the request's "errorMessage" attribute |
| Servlet.HttpRequest.SetAttribute | src/main/kotlin/com/example/gava/apiLog/ApiLogInterceptor.kt:19 | the attribute then holds the value; the others are unchanged |
| Servlet.HeaderNameCaseIgnored | src/main/kotlin/com/example/gava/apiLog/ApiLogInterceptor.kt:46 | `getHeader` ignores the case of the header name |
| Servlet.ForwardedForHeaderFolded | src/main/kotlin/com/example/gava/apiLog/ApiLogInterceptor.kt:70 | "X-Forwarded-For" finds a header sent as "x-forwarded-for" |
| ApiLogInterceptor.PreHandle | src/main/kotlin/com/example/gava/apiLog/ApiLogInterceptor.kt:17-21 | always lets the request through and records the start time |
| ApiLogInterceptor.GetClientIp | src/main/kotlin/com/example/gava/apiLog/ApiLogInterceptor.kt:69-76 | a missing or empty X-Forwarded-For gives the remote address; otherwise a comma-free entry without surrounding whitespace (the lemmas below say which) |
| ApiLogInterceptor.ForwardedForFirstHop | src/main/kotlin/com/example/gava/apiLog/ApiLogInterceptor.kt:72 | with several hops, the client IP is exactly the first entry, with the whitespace around it trimmed |
| ApiLogInterceptor.ForwardedForSingleEntry | src/main/kotlin/com/example/gava/apiLog/ApiLogInterceptor.kt:71-72 | a header of one entry gives that entry, trimmed |
| ApiLogInterceptor.ForwardedForBlank | src/main/kotlin/com/example/gava/apiLog/ApiLogInterceptor.kt:71-72 | a non-empty header of whitespace only gives the empty string, with no fallback to the remote address |
| ApiLogInterceptor.LoggedUserId | src/main/kotlin/com/example/gava/apiLog/ApiLogInterceptor.kt:34-41 | a user id exactly when the request is authenticated with the application's details, and then the principal's id |
| ApiLogInterceptor.LoggedUserIsResolvedUser | src/main/kotlin/com/example/gava/apiLog/ApiLogInterceptor.kt:34-41 | the logged user is exactly the user a @CurrentUser parameter resolves to |
| ApiLogInterceptor.DeriveLog | src/main/kotlin/com/example/gava/apiLog/ApiLogInterceptor.kt:29-63 | a record exactly when a Long start time is recorded; it has the elapsed time, the logged user, the HTTP method, the timestamp, the query string or "", the user agent or "", the client IP, the status and the URI; an error message exactly when the "errorMessage" attribute is a String, and then that String |
| ApiLogInterceptor.FailedRequestLogged | src/main/kotlin/com/example/gava/apiLog/ApiLogInterceptor.kt:29-63 | a request that failed with an exception that reaches the catch-all is logged with status 500, the elapsed time and "Name: message" |
| ApiLogInterceptor.AfterCompletion | src/main/kotlin/com/example/gava/apiLog/ApiLogInterceptor.kt:23-67 | without a start time nothing is logged; otherwise exactly one record is enqueued |
| ApiLogService.ToEntity | src/main/kotlin/com/example/gava/apiLog/ApiLogService.kt:41 | the entity leaves the id to the database |
| ApiLogService.EntityRoundTrip | src/main/kotlin/com/example/gava/apiLog/ApiLogService.kt:41 | converting a log to an entity loses no field |
| ApiLogService.ToEntities | src/main/kotlin/com/example/gava/apiLog/ApiLogService.kt:41 | one entity per log, in order |
| ApiLogService.ToEntitiesAppend | src/main/kotlin/com/example/gava/apiLog/ApiLogService.kt:39-42 | conversion distributes over concatenation, so batches keep FIFO order |
| ApiLogService.ApiLogRepository.SaveAll | src/main/kotlin/com/example/gava/apiLog/ApiLogService.kt:42 | the table gains exactly the given rows, at its end |
| ApiLogService.ApiLogService.FlushLogsToDb | src/main/kotlin/com/example/gava/apiLog/ApiLogService.kt:34-45 | the queue ends empty and the table gains exactly the drained logs, in order (nothing for an empty queue); nothing enqueued is lost or duplicated |
| ApiLogService.ApiLogService.EnqueueLog | src/main/kotlin/com/example/gava/apiLog/ApiLogService.kt:23-29 | the log joins the tail; reaching 100 flushes the whole queue to the table; afterwards the queue holds fewer than 100 and table plus queue are every log enqueued, in order |
| Persistence.LongHashCode | src/main/kotlin/com/example/gava/common/BaseEntity.kt:35 | `Long.hashCode` is a 32-bit signed value |
| Persistence.LongHashCodeExamples | src/main/kotlin/com/example/gava/common/BaseEntity.kt:35 | 1 hashes to 1, -1 to 0, and 2^32 to 1 |
| Persistence.BaseEntity.constructor | src/main/kotlin/com/example/gava/common/BaseEntity.kt:15-22 | a new entity keeps the given id and reports isNew |
| Persistence.BaseEntity.Load | src/main/kotlin/com/example/gava/common/BaseEntity.kt:37-41 | after the persist/load callback the entity is no longer new |
| Persistence.BaseEntity.Equals | src/main/kotlin/com/example/gava/common/BaseEntity.kt:24-33 | the same object is equal, null is not, another class is not, otherwise the ids decide |
| Persistence.BaseEntity.HashCode | src/main/kotlin/com/example/gava/common/BaseEntity.kt:35 | a 32-bit value computed from the id alone |
| Persistence.EqualsConsistentWithHashCode | src/main/kotlin/com/example/gava/common/BaseEntity.kt:24-35 | equal entities hash alike |
| Persistence.EqualsIsEquivalence | src/main/kotlin/com/example/gava/common/BaseEntity.kt:24-33 | equality is reflexive, symmetric and transitive |
| DataResponse.Wrap32 | src/main/kotlin/com/example/gava/domain/todo/dto/DataResponse.kt:17-21 | the JVM int a number wraps to: in range, congruent modulo 2^32, unchanged when already in range |
| DataResponse.WrapCongruent | src/main/kotlin/com/example/gava/domain/todo/dto/DataResponse.kt:17-21 | numbers congruent modulo 2^32 wrap to the same int |
| DataResponse.HashStepWraps | src/main/kotlin/com/example/gava/domain/todo/dto/DataResponse.kt:17-21 | wrapping the accumulator between steps does not change the wrapped result |
| DataResponse.ContentHash | src/main/kotlin/com/example/gava/domain/todo/dto/DataResponse.kt:18 | the array hash is a 32-bit value |
| DataResponse.ContentHashIsPolynomial | src/main/kotlin/com/example/gava/domain/todo/dto/DataResponse.kt:18 | the array hash is the unbounded polynomial 31^n + Σ data[i]·31^(n-1-i), reduced once to an int |
| DataResponse.Utf16 | src/main/kotlin/com/example/gava/domain/todo/dto/DataResponse.kt:19 | a string's UTF-16 units are 16-bit values, one or two per character |
| DataResponse.StringHash | src/main/kotlin/com/example/gava/domain/todo/dto/DataResponse.kt:19 | the string hash is a 32-bit value |
| DataResponse.Equals | src/main/kotlin/com/example/gava/domain/todo/dto/DataResponse.kt:7-15 | the same reference is equal, another type is not, and two responses are equal exactly when their bytes agree position by position and their content types agree |
| DataResponse.HashCode | src/main/kotlin/com/example/gava/domain/todo/dto/DataResponse.kt:17-21 | a 32-bit value |
| DataResponse.HashCodeIsPolynomial | src/main/kotlin/com/example/gava/domain/todo/dto/DataResponse.kt:17-21 | the hash is 31 × content polynomial + content-type hash, wrapped once to 32 bits |
| DataResponse.EqualsConsistentWithHashCode | src/main/kotlin/com/example/gava/domain/todo/dto/DataResponse.kt:7-21 | equal responses hash alike |
| DataResponse.EqualsSymmetric | src/main/kotlin/com/example/gava/domain/todo/dto/DataResponse.kt:11-14 | equality between responses is symmetric |
| Time.LengthOfMonth | src/main/java/com/example/gava/service/TodoService.java:54 | February has 28 days, or 29 exactly in a Gregorian leap year; April, June, September and November have 30; the other months 31 |
| Time.YearLength | src/main/java/com/example/gava/service/TodoService.java:59-60 | 365 or 366 days, 366 exactly in Gregorian leap years |
| Time.YearMonthOf | src/main/java/com/example/gava/service/TodoService.java:52 | fails with DateTimeException exactly for a month outside 1..12 or a year outside the ISO range |
| Time.LocalDateTimeOf | src/main/java/com/example/gava/service/TodoService.java:59-60 | fails exactly for an out-of-range field; otherwise that date-time |
| Time.StartOfMonth | src/main/java/com/example/gava/service/TodoService.java:53 | day 1 of the month at 00:00:00 |
| Time.EndOfMonth | src/main/java/com/example/gava/service/TodoService.java:54 | the month's last day at 23:59:59 |
| Time.EndOfMonthMeetsNext | src/main/java/com/example/gava/service/TodoService.java:52-55 | the second after a month's last second is the next month's first second |
| ReactiveTodoService.MonthRange | src/main/java/com/example/gava/service/TodoService.java:51-56 | an invalid month or year fails; otherwise from day 1 00:00:00 to the last day 23:59:59, start before end |
| ReactiveTodoService.YearRange | src/main/java/com/example/gava/service/TodoService.java:58-62 | January 1 00:00:00 to December 31 23:59:59, start before end; an out-of-range year fails |
| ReactiveTodoService.DaysBeforeMonthMonotone | src/main/java/com/example/gava/service/TodoService.java:52-54 | later months start later in the year |
| ReactiveTodoService.MonthRangeNonEmpty | src/main/java/com/example/gava/service/TodoService.java:53-54 | a month window starts strictly before it ends on the time line |
| ReactiveTodoService.MonthWithinYear | src/main/java/com/example/gava/service/TodoService.java:51-61 | each month window lies inside its year window |
| ReactiveTodoService.ConsecutiveMonthsMeet | src/main/java/com/example/gava/service/TodoService.java:52-55 | consecutive month windows neither overlap nor leave a gap at second resolution |
| ReactiveTodoService.ConsecutiveYearsMeet | src/main/java/com/example/gava/service/TodoService.java:59-60 | consecutive year windows neither overlap nor leave a gap |
| Text.IntToString | src/main/kotlin/com/example/gava/domain/todo/service/TodoService.kt:47 | decimal rendering of a Long in messages, a minus sign exactly for negatives |
| Text.IntToStringInjective | src/main/kotlin/com/example/gava/domain/todo/service/TodoService.kt:47 | different ids render differently in messages |
| Text.Trim | src/main/kotlin/com/example/gava/apiLog/ApiLogInterceptor.kt:72 | `trim()` is empty exactly for a blank string, and otherwise neither starts nor ends with whitespace |
| Text.TrimPadded | src/main/kotlin/com/example/gava/apiLog/ApiLogInterceptor.kt:72 | trimming whitespace padding gives back the padded text, when that text neither starts nor ends with whitespace |
| Text.NotInTrim | src/main/kotlin/com/example/gava/apiLog/ApiLogInterceptor.kt:72 | trimming never introduces a character, so the first hop holds no comma |
| Text.BeforeFirst | src/main/kotlin/com/example/gava/apiLog/ApiLogInterceptor.kt:72 | `split(",").first()` is the prefix before the first comma, which holds no comma |
| Text.BeforeFirstWhole | src/main/kotlin/com/example/gava/apiLog/ApiLogInterceptor.kt:72 | a text without the separator is its own first piece |
| Text.Utf8Length | src/main/kotlin/com/example/gava/security/JwtTokenProvider.kt:18 | the number of UTF-8 bytes of the secret: between one and four per character |
| TodoEntities.SubTodo.constructor | src/main/kotlin/com/example/gava/domain/todo/entity/SubTodo.kt:7-17 | a sub-todo keeps its id, its parent todo and the given fields |
| TodoEntities.Todo.constructor | src/main/kotlin/com/example/gava/domain/todo/entity/Todo.kt:12-44 | a todo keeps its id, owner and fields, and starts with no sub-todos and no groups |
| TodoEntities.Todo.AddSubTodo | src/main/kotlin/com/example/gava/domain/todo/entity/Todo.kt:42-48 | a set insertion: adding a sub-todo twice is adding it once |
| TodoEntities.Todo.RemoveSubTodo | src/main/kotlin/com/example/gava/domain/todo/entity/Todo.kt:50-52 | only the given sub-todo leaves the set |
| TodoEntities.Todo.AddGroup | src/main/kotlin/com/example/gava/domain/todo/entity/Todo.kt:65-68 | the group joins the todo's set and the todo the group's set; a consistent todo/group population stays consistent |
| TodoEntities.Todo.RemoveGroup | src/main/kotlin/com/example/gava/domain/todo/entity/Todo.kt:70-73 | the link leaves both sides; a consistent population stays consistent |
| TodoEntities.Todo.RemoveGroupWithoutBackReference | src/main/kotlin/com/example/gava/domain/todo/entity/TodoGroup.kt:35 | only the todo's side loses the group |
| TodoEntities.TodoGroup.constructor | src/main/kotlin/com/example/gava/domain/todo/entity/TodoGroup.kt:12-25 | a group keeps its id, name, colour and owner, and lists no todos |
| TodoEntities.TodoGroup.RemoveTodoWithoutBackReference | src/main/kotlin/com/example/gava/domain/todo/entity/TodoGroup.kt:27-29 | only the group's side loses the todo |
| TodoEntities.TodoGroup.RemoveGroupsFromTodos | src/main/kotlin/com/example/gava/domain/todo/entity/TodoGroup.kt:31-38 | the group's set ends empty; every todo linked at the start no longer lists the group; each is visited exactly once (the snapshot); consistency is kept |
| TodoDtos.GroupResponsesOf | src/main/kotlin/com/example/gava/domain/todo/service/TodoService.kt:128-134 | one response per group, in order, with its id, name and colour |
| TodoRepositories.Distinct | src/main/kotlin/com/example/gava/domain/todo/service/TodoService.kt:54 | the requested ids, each once, none lost |
| TodoRepositories.Present | src/main/kotlin/com/example/gava/domain/todo/service/TodoService.kt:54 | exactly the requested ids that have a row, no longer than the request, without repeats when the request has none |
| TodoRepositories.PresentShorter | src/main/kotlin/com/example/gava/domain/todo/service/TodoService.kt:55 | a missing id makes the found list shorter than the request |
| TodoRepositories.TodoRepository.FindById | src/main/kotlin/com/example/gava/domain/todo/service/TodoService.kt:215-216 | present exactly when the id has a row, and then that todo |
| TodoRepositories.TodoRepository.Save | src/main/kotlin/com/example/gava/domain/todo/service/TodoService.kt:110 | the row under the todo's id becomes the todo |
| TodoRepositories.TodoRepository.Delete | src/main/kotlin/com/example/gava/domain/todo/service/TodoService.kt:249 | exactly the todo's row goes |
| TodoRepositories.TodoRepository.FindAllByUserIdAndDateAndGroupIdAndDone | src/main/kotlin/com/example/gava/domain/todo/repository/TodoRepository.kt:10-25 | every result is a stored todo of the user that meets each filter that is given (date, group, done); every stored todo that does is a result |
| TodoRepositories.TodoRepository.UnfilteredIsAllOfUser | src/main/kotlin/com/example/gava/domain/todo/repository/TodoRepository.kt:15-18 | with no filter, the result is all of the user's todos |
| TodoRepositories.TodoRepository.FiltersNarrow | src/main/kotlin/com/example/gava/domain/todo/repository/TodoRepository.kt:16-18 | giving a filter can only narrow the result |
| TodoRepositories.TodoGroupRepository.FindById | src/main/kotlin/com/example/gava/domain/todo/service/TodoGroupService.kt:31 | present exactly when the id has a row, and then that group |
| TodoRepositories.TodoGroupRepository.FindAllById | src/main/kotlin/com/example/gava/domain/todo/service/TodoService.kt:54 | each stored group whose id is requested, once |
| TodoRepositories.TodoGroupRepository.FindAllByUserId | src/main/kotlin/com/example/gava/domain/todo/repository/TodoGroupRepository.kt:9-10 | exactly the stored groups whose owner has that id |
| TodoRepositories.TodoGroupRepository.Save | src/main/kotlin/com/example/gava/domain/todo/service/TodoGroupService.kt:21 | the row under the group's id becomes the group |
| TodoRepositories.TodoGroupRepository.Delete | src/main/kotlin/com/example/gava/domain/todo/service/TodoGroupService.kt:53 | exactly the group's row goes |
| TodoRepositories.SubTodoRepository.FindSubTodoById | src/main/kotlin/com/example/gava/domain/todo/repository/SubTodoRepository.kt:10-11 | present exactly when the id has a row, and then that sub-todo |
| TodoRepositories.SubTodoRepository.Save | src/main/kotlin/com/example/gava/domain/todo/service/TodoService.kt:270 | the row under the sub-todo's id becomes the sub-todo |
| TodoRepositories.SubTodoRepository.SaveAll | src/main/kotlin/com/example/gava/domain/todo/entity/Todo.kt:37-41 | saving a todo cascades: each new sub-todo is stored under its id, other rows are kept, and nothing else is added |
| TodoRepositories.SubTodoRepository.DeleteAllOf | src/main/kotlin/com/example/gava/domain/todo/entity/Todo.kt:37-41 | deleting a todo removes exactly its sub-todos' rows |
| TodoRepositories.TodoIconRepository.FindById | src/main/kotlin/com/example/gava/domain/todo/service/TodoIconService.kt:36 | present exactly when the id has a row, and then that icon |
| TodoRepositories.TodoIconRepository.Save | src/main/kotlin/com/example/gava/domain/todo/service/TodoIconService.kt:30 | the row under the icon's id becomes the icon |
| TodoService.NotFoundIds | src/main/kotlin/com/example/gava/domain/todo/service/TodoService.kt:57 | exactly the requested ids that were not found |
| TodoService.MissingIds | src/main/kotlin/com/example/gava/domain/todo/service/TodoService.kt:55-62 | exactly the requested ids without a row |
| TodoService.NotFoundIdsAreMissing | src/main/kotlin/com/example/gava/domain/todo/service/TodoService.kt:56-57 | filtering against the found ids lists exactly the missing ids, in request order with repeats |
| TodoService.MissingIdsAppend | src/main/kotlin/com/example/gava/domain/todo/service/TodoService.kt:57 | the missing ids keep request order |
| TodoService.IdsOf | src/main/kotlin/com/example/gava/domain/todo/service/TodoService.kt:56 | the ids of the found groups, in order |
| TodoService.FoundIdsFacts | src/main/kotlin/com/example/gava/domain/todo/service/TodoService.kt:54-58 | the not-found list is the missing ids; it is non-empty exactly when some id is missing, and then the found list is shorter |
| TodoService.FoundGroupIds | src/main/kotlin/com/example/gava/domain/todo/service/TodoService.kt:54-56 | the found groups' ids are the requested ids that exist |
| TodoService.FoundGroupsStored | src/main/kotlin/com/example/gava/domain/todo/service/TodoService.kt:54 | every group the lookup returns is a stored row |
| TodoService.FindTodoGroupsByIds | src/main/kotlin/com/example/gava/domain/todo/service/TodoService.kt:52-66 | an empty request gives an empty result; fails exactly when a requested id has no row, naming every missing id in request order; repeated existing ids do not fail |
| TodoService.SubTodoResponsesOf | src/main/kotlin/com/example/gava/domain/todo/service/TodoService.kt:136-144 | one response per requested sub-todo, in order, with its assigned id and requested fields |
| TodoService.LinkedWithUnlinked | src/main/kotlin/com/example/gava/domain/todo/service/TodoService.kt:35-38 | a new todo that no group lists joins a consistent population without breaking it |
| TodoService.Completed | src/main/kotlin/com/example/gava/domain/todo/service/TodoService.kt:228 | the todo is completed and every other field is as before |
| TodoService.CompletedIsIdempotent | src/main/kotlin/com/example/gava/domain/todo/service/TodoService.kt:213-231 | completing twice is completing once, and a completed todo is unchanged |
| TodoService.TodoService.FindIconById | src/main/kotlin/com/example/gava/domain/todo/service/TodoService.kt:43-50 | the stored icon exactly when the id has a row; otherwise ICON_NOT_FOUND naming the id |
| TodoService.TodoService.SaveTodoAll | src/main/kotlin/com/example/gava/domain/todo/service/TodoService.kt:102-111 | the todo gets the sub-todos and exactly the given groups, each group lists it, its row and its sub-todos' rows are stored, and todo/group consistency is kept |
| TodoService.TodoService.Persist | src/main/kotlin/com/example/gava/domain/todo/service/TodoService.kt:110 | the todo's row is stored, and by cascade each of its new sub-todos under its id; other sub-todo rows are kept |
| TodoService.TodoService.AttachSubTodos | src/main/kotlin/com/example/gava/domain/todo/service/TodoService.kt:107 | the todo's sub-todos are the old ones plus the given ones |
| TodoService.TodoService.LinkGroups | src/main/kotlin/com/example/gava/domain/todo/service/TodoService.kt:108 | every given group is linked on both sides, no other group changes, and consistency is kept |
| TodoService.TodoService.CreateSubTodoEntities | src/main/kotlin/com/example/gava/domain/todo/service/TodoService.kt:87-100 | one new sub-todo per request, in order, pointing at the todo and carrying the request's fields |
| TodoService.TodoService.Create | src/main/kotlin/com/example/gava/domain/todo/service/TodoService.kt:30-41 | an unknown icon fails with ICON_NOT_FOUND, then missing groups fail as in `FindTodoGroupsByIds`, and either failure stores nothing; otherwise a new todo of the caller with the request's fields, sub-todos and groups is stored and the response mirrors it; consistency is kept |
| TodoService.TodoService.CreateAndSave | src/main/kotlin/com/example/gava/domain/todo/service/TodoService.kt:35-38 | builds the todo and its sub-todos from the request and stores them with their groups linked |
| TodoService.TodoService.NewTodo | src/main/kotlin/com/example/gava/domain/todo/service/TodoService.kt:68-100 | a new todo of the caller with the request's fields, in no group, and one new sub-todo per request pointing at it, in order; no stored row or group changes |
| TodoService.TodoService.Done | src/main/kotlin/com/example/gava/domain/todo/service/TodoService.kt:213-231 | TODO_NOT_FOUND, then FORBIDDEN for another owner; succeeds exactly for the owner, and then only that todo's isCompleted becomes true |
| TodoService.TodoService.Delete | src/main/kotlin/com/example/gava/domain/todo/service/TodoService.kt:233-250 | TODO_NOT_FOUND, then FORBIDDEN, with nothing removed; on success exactly that todo's row, its sub-todo rows and its group links go, and consistency is kept |
| TodoService.TodoService.DropGroupLinks | src/main/kotlin/com/example/gava/domain/todo/entity/Todo.kt:55-63 | each of the todo's groups stops listing it; the rest stays consistent |
| TodoService.TodoService.UpdateSubTodo | src/main/kotlin/com/example/gava/domain/todo/service/TodoService.kt:252-279 | SUB_TODO_NOT_FOUND, then FORBIDDEN when the parent todo has another owner; on success exactly name, start, due and completion take the request's values, and no other sub-todo changes |
| TodoGroupService.CheckUserAuthorization | src/main/kotlin/com/example/gava/domain/todo/service/TodoGroupService.kt:56-60 | passes exactly for the owner; an ownerless group is forbidden to all |
| TodoGroupService.TodoGroupService.Create | src/main/kotlin/com/example/gava/domain/todo/service/TodoGroupService.kt:18-23 | stores one new group with the given name, colour and owner, and returns its response |
| TodoGroupService.TodoGroupService.GetAll | src/main/kotlin/com/example/gava/domain/todo/service/TodoGroupService.kt:25-27 | the responses of exactly the user's groups |
| TodoGroupService.TodoGroupService.GetAllOnePerGroup | src/main/kotlin/com/example/gava/domain/todo/service/TodoGroupService.kt:25-27 | one response per group of the user |
| TodoGroupService.TodoGroupService.GetById | src/main/kotlin/com/example/gava/domain/todo/service/TodoGroupService.kt:30-34 | TODO_GROUP_NOT_FOUND "<id> is not found", then FORBIDDEN; otherwise that group's response |
| TodoGroupService.TodoGroupService.Update | src/main/kotlin/com/example/gava/domain/todo/service/TodoGroupService.kt:36-46 | the same checks; on success only that group's name and colour change, and no other group changes |
| TodoGroupService.TodoGroupService.Delete | src/main/kotlin/com/example/gava/domain/todo/service/TodoGroupService.kt:48-54 | the same checks, and on failure nothing changes: no row, no group's todos, no todo's groups; on success exactly that group's row goes, its todos no longer list it, every other group and todo keeps its links, and consistency is kept |
| TodoIconService.ContentTypeOf | src/main/kotlin/com/example/gava/domain/todo/service/TodoIconService.kt:28 | the client's content type, or "application/octet-stream" |
| TodoIconService.TodoIconService.Create | src/main/kotlin/com/example/gava/domain/todo/service/TodoIconService.kt:19-33 | an empty file fails with FILE_IS_EMPTY and stores nothing; otherwise one icon with the exact bytes is stored, and `GetIconDataById` then returns them |
| TodoIconService.TodoIconService.GetById | src/main/kotlin/com/example/gava/domain/todo/service/TodoIconService.kt:35-39 | the icon's response exactly when it exists; otherwise ICON_NOT_FOUND "Icon id: <id> 를 찾을 수 없습니다." |
| TodoIconService.TodoIconService.GetAll | src/main/kotlin/com/example/gava/domain/todo/service/TodoIconService.kt:41-43 | the responses of exactly the stored icons |
| TodoIconService.TodoIconService.GetAllOnePerIcon | src/main/kotlin/com/example/gava/domain/todo/service/TodoIconService.kt:41-43 | one response per stored icon |
| TodoIconService.TodoIconService.GetIconDataById | src/main/kotlin/com/example/gava/domain/todo/service/TodoIconService.kt:45-52 | the stored bytes and content type, unchanged, exactly when the icon exists; otherwise ICON_NOT_FOUND |
| TodoIconService.TodoIconService.LookupsAgree | src/main/kotlin/com/example/gava/domain/todo/service/TodoIconService.kt:35-52 | both lookups fail on the same ids with the same error, and agree on the content type |

## Left out

- **Framework and I/O.** Spring wiring, HTTP routing, transactions, caching (`@Cacheable`) and the Hibernate session are not modelled. The heap of the model stands for the database state.
- **Lazy loading and proxies.** `getReferenceById` and lazy proxies are not modelled. `UserArgumentResolver.ResolveArgument` returns the user's id, which is what the reference carries.
- **Token encoding and signing.**
  - The jjwt compact form (base64url JSON segments) is replaced by a self-delimiting text encoding with a proved decode round trip (`JwtCompact`).
  - HMAC-SHA256 is the opaque function `hmac` of the provider.
  - Token times are whole seconds, as the compact form stores them.
- **Hidden dependencies become parameters.**
  - The authentication manager is the user lookup plus the opaque password `matches`.
  - The password encoder, the clock, and the ids the database and the TSID generator hand out are all parameters.
- **Social-provider HTTP calls.** The call is the parameter `fetch`. Timeouts, headers and JSON decoding beyond the map shape are not modelled.
- **Asynchrony in the log queue.** `@Async` on `enqueueLog`, the lock in `flushLogsToDb` and the scheduled flush (`LogFlushScheduler.kt`) are concurrency. The queue is modelled sequentially.
- **Ordered results.** Several operations return a `List` whose order the database chooses. The model returns sets or orders results by request:
  - `TodoGroupService.TodoGroupService.GetAll`;
  - `TodoIconService.TodoIconService.GetAll`;
  - `TodoRepositories.TodoRepository.FindAllByUserIdAndDateAndGroupIdAndDone`;
  - `TodoRepositories.TodoGroupRepository.FindAllById`.
- TodoRepositories.TodoRepository.FindAllByUserIdAndDateAndGroupIdAndDone: the `LEFT JOIN FETCH` with a group filter loads only the matching group into each fetched todo's collection. The model states which todos are returned, not how their collections are filled.
- **Todo listing.** The Kotlin `TodoService.getAll` and the single-todo `toTodoResponse` overload only map stored fields to responses and are not modelled. `Create` states its response.
- **Unread members of the Java service.** The controllers and the reactive Java service's repository calls are not modelled. Only its month and year windows are.
- **The missing base class.** `PrimaryKeyEntity.kt` is not part of this model. Todo, user and icon ids are taken as given.
- **Read-only views.** `Todo.subTodos` and `Todo.groups` are read-only views over private sets. The model keeps one field each and changes it only through the methods above.
- **Roles as a sequence.** The user entity's `roles` is a `Set<String>`. The model keeps a sequence, in the order given, and authorities come out in that order. It does not rule out a repeated role, which the set cannot hold.
- **Entity identity in collections.** The todo and group sets, and the values of the tables, hold objects by reference. The source's entities compare by id (`BaseEntity.equals`), so two distinct objects with one id would be one element there and two here. The tables are keyed by id, so they never hold two such objects.
- **Header names.** `getHeader` ignores the case of the name. The model stores header names lower-cased and folds only ASCII letters, which is all that header names contain.
- TodoEntities.TodoGroup.RemoveGroupsFromTodos: the visit order over the snapshot is not modelled, because the set has none.
- GlobalExceptionHandler.Handle: the exceptions that the inherited `ResponseEntityExceptionHandler` answers itself are not modelled. Examples are an unsupported method (405), an unsupported media type (415), a missing parameter or request part or an argument type mismatch (400), no resource (404), an upload over the size limit (413) and an async request timeout (503). They keep their own status and a ProblemDetail body, and no "errorMessage" attribute is set. `Thrown` stands only for the exceptions that reach the catch-all at `GlobalExceptionHandler.kt:82-86`, so its 500, the attribute and `FailedRequestLogged` apply to those alone.
- Errors.DefaultMessage: the enum declares no default messages, so the code's name stands in for each.
- Persistence.LongHashCode: shown on the worked values only. Its contract states the 32-bit range, not the bit-level folding.
- DataResponse.Equals: the Kotlin `equals` also compares by reference against arbitrary objects. The model distinguishes only the same reference, another `DataResponse`, and anything else.

## Findings

| source | as written | input that shows it | evidently intended | confidence | as-written member | corrected member |
|---|---|---|---|---|---|---|
| src/main/kotlin/com/example/gava/security/JwtAuthenticationFilter.kt:26-29 | after `validateToken` passes, `getUserId`, `getUsername` and `getRoles` are called unguarded, so a valid token without a `userId` claim throws out of the filter and the chain at line 42 is never reached | the header `Bearer <refresh token>` with a live refresh token from `createRefreshToken`, which carries only `sub`, `iat` and `exp` | a validated token whose claims cannot be read authenticates no one, and the request continues unauthenticated | not executed | JwtAuthenticationFilter.RefreshTokenAsBearerThrows | JwtAuthenticationFilter.GuardedRefreshTokenAsBearer |
