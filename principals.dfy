/** The security principal types: granted authorities, the application's
    `UserDetails`, an authentication and the per-request security context. */
module Principals {
  import opened Wrappers

  datatype GrantedAuthority = SimpleGrantedAuthority(role: string)

  /** The application's `UserDetails`: the user id is its own field. */
  datatype CustomUserDetails = CustomUserDetails(
    userId: int,
    username: string,
    password: Option<string>,
    authorities: seq<GrantedAuthority>)

  /** What an authentication names: the application's details, or any other
      principal (such as the anonymous user's name). */
  datatype Principal = Details(details: CustomUserDetails) | OtherPrincipal(name: string)

  datatype Authentication = Authentication(
    principal: Principal,
    authorities: seq<GrantedAuthority>,
    authenticated: bool)

  /** `roles.map { SimpleGrantedAuthority(it) }`. */
  function Authorities(roles: seq<string>): (r: seq<GrantedAuthority>)
    ensures |r| == |roles|
    ensures forall i :: 0 <= i < |roles| ==> r[i] == SimpleGrantedAuthority(roles[i])
  {
    if roles == [] then [] else [SimpleGrantedAuthority(roles[0])] + Authorities(roles[1..])
  }

  /** The role names of a list of authorities. */
  function Roles(authorities: seq<GrantedAuthority>): (r: seq<string>)
    ensures |r| == |authorities|
  {
    if authorities == [] then [] else [authorities[0].role] + Roles(authorities[1..])
  }

  /** The authorities of a user give back exactly the user's roles, in order. */
  lemma {:induction false} RolesOfAuthorities(roles: seq<string>)
    ensures Roles(Authorities(roles)) == roles
  {
    if roles != [] {
      assert Authorities(roles)[1..] == Authorities(roles[1..]);
      RolesOfAuthorities(roles[1..]);
    }
  }

  /** The security context of the current request. */
  class SecurityContext {
    var authentication: Option<Authentication>

    constructor ()
      ensures authentication == None
    {
      authentication := None;
    }

    method SetAuthentication(a: Authentication)
      modifies this
      ensures authentication == Some(a)
    {
      authentication := Some(a);
    }
  }
}
