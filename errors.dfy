/** The application's error codes and the failures its services raise.
    `ErrorCode` mirrors exception/ErrorCode.kt, completed with the four codes the
    exception handler and the tests use but the enum does not declare. */
module Errors {
  import opened Wrappers

  datatype ErrorCode =
    | Unauthorized
    | InvalidRefreshToken
    | InvalidSocialToken
    | Forbidden
    | UserNotFound
    | TodoNotFound
    | TodoGroupNotFound
    | InvalidProvider
    | IconNotFound
    | SubTodoNotFound
    | FileIsEmpty
    | DuplicateUsername
    | InternalServerError
    // referenced by the handler and the tests, absent from the enum
    | InvalidCredentials
    | ValidationFailed
    | AccessDenied
    | RequestTimeout

  /** The codes the enum itself declares. */
  predicate DeclaredInEnum(c: ErrorCode) {
    !(c.InvalidCredentials? || c.ValidationFailed? || c.AccessDenied? || c.RequestTimeout?)
  }

  /** `code.name`: the enum constant's name. */
  function Name(c: ErrorCode): (s: string)
    ensures |s| > 0
  {
    match c
    case Unauthorized => "UNAUTHORIZED"
    case InvalidRefreshToken => "INVALID_REFRESH_TOKEN"
    case InvalidSocialToken => "INVALID_SOCIAL_TOKEN"
    case Forbidden => "FORBIDDEN"
    case UserNotFound => "USER_NOT_FOUND"
    case TodoNotFound => "TODO_NOT_FOUND"
    case TodoGroupNotFound => "TODO_GROUP_NOT_FOUND"
    case InvalidProvider => "INVALID_PROVIDER"
    case IconNotFound => "ICON_NOT_FOUND"
    case SubTodoNotFound => "SUB_TODO_NOT_FOUND"
    case FileIsEmpty => "FILE_IS_EMPTY"
    case DuplicateUsername => "DUPLICATE_USERNAME"
    case InternalServerError => "INTERNAL_SERVER_ERROR"
    case InvalidCredentials => "INVALID_CREDENTIALS"
    case ValidationFailed => "VALIDATION_FAILED"
    case AccessDenied => "ACCESS_DENIED"
    case RequestTimeout => "REQUEST_TIMEOUT"
  }

  /** The HTTP status bound to each code. */
  function Status(c: ErrorCode): (s: int)
    ensures s in {400, 401, 403, 408, 500}
    ensures s == 401 <==> c in {Unauthorized, InvalidRefreshToken, InvalidSocialToken, InvalidCredentials}
    ensures s == 403 <==> c in {Forbidden, AccessDenied}
    ensures s == 408 <==> c == RequestTimeout
    ensures s == 500 <==> c == InternalServerError
    ensures c in {UserNotFound, TodoNotFound, TodoGroupNotFound, IconNotFound, SubTodoNotFound} ==> s == 400
    ensures DeclaredInEnum(c) ==> s in {400, 401, 403, 500}
  {
    match c
    case Unauthorized | InvalidRefreshToken | InvalidSocialToken | InvalidCredentials => 401
    case Forbidden | AccessDenied => 403
    case UserNotFound | TodoNotFound | TodoGroupNotFound | InvalidProvider
      | IconNotFound | SubTodoNotFound | FileIsEmpty | DuplicateUsername | ValidationFailed => 400
    case RequestTimeout => 408
    case InternalServerError => 500
  }

  /** The message used when a failure carries none; the enum declares no message
      of its own, so the code's name stands in. */
  function DefaultMessage(c: ErrorCode): (s: string)
    ensures |s| > 0
  {
    Name(c)
  }

  /** Every code has its own name. */
  lemma NamesDistinct(a: ErrorCode, b: ErrorCode)
    requires a != b
    ensures Name(a) != Name(b)
  {
  }

  /** A bean-validation error on one field of a request body. */
  datatype FieldError = FieldError(field: string, defaultMessage: Option<string>)

  /** What a service or the framework raises instead of returning normally. */
  datatype Failure =
    | Err(code: ErrorCode, message: string)                    // CustomException
    | Thrown(simpleName: string, detail: Option<string>)       // any other exception that reaches the catch-all handler
    | Timeout                                                   // TimeoutException
    | AuthorizationDenied(deniedMessage: Option<string>)       // AuthorizationDeniedException
    | ArgumentNotValid(fieldErrors: seq<FieldError>)           // MethodArgumentNotValidException
    | NotReadable(readMessage: Option<string>)                  // HttpMessageNotReadableException

  type Outcome<T> = Result<T, Failure>
}
