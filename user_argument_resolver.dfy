/** Resolution of controller parameters annotated `@CurrentUser`. */
module UserArgumentResolver {
  import opened Wrappers
  import opened Errors
  import opened Principals

  /** A controller method parameter: its declared type and its annotations. */
  datatype MethodParameter = MethodParameter(parameterType: string, annotations: set<string>)

  const NoUserMessage := "사용자 정보가 없습니다."

  /** Only parameters of type `User` that carry `@CurrentUser` are resolved here. */
  function SupportsParameter(parameter: MethodParameter): (b: bool)
    ensures b ==> parameter.parameterType == "User"
    ensures "CurrentUser" !in parameter.annotations ==> !b
    ensures parameter.parameterType == "User" && "CurrentUser" in parameter.annotations ==> b
  {
    parameter.parameterType == "User" && "CurrentUser" in parameter.annotations
  }

  /** The id of the user the parameter resolves to (a reference by id, loaded
      lazily): the principal's user id when the request is authenticated with
      the application's details; UNAUTHORIZED otherwise. */
  function ResolveArgument(authentication: Option<Authentication>): (r: Outcome<int>)
    ensures r.Ok? <==> (authentication.Some? && authentication.value.authenticated
                        && authentication.value.principal.Details?)
    ensures r.Ok? ==> r.value == authentication.value.principal.details.userId
    ensures r.Failure? ==> r.error == Err(Unauthorized, NoUserMessage)
  {
    if authentication.None? || !authentication.value.authenticated then
      Failure(Err(Unauthorized, NoUserMessage))
    else
      match authentication.value.principal
      case Details(details) => Ok(details.userId)
      case OtherPrincipal(_) => Failure(Err(Unauthorized, NoUserMessage))
  }
}
