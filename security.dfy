/**
 * The security layer's decisions as inputs. Who the current user is and which
 * roles the framework grants the current token are resolved outside the
 * controllers; `grants` is an arbitrary set, so `IsGranted` is an
 * uninterpreted predicate of the caller and the role.
 */
module Security {
  import opened Common
  import opened UserRole
  import opened Entity
  import opened Views

  datatype Caller = Anonymous | Authenticated(id: nat, grants: set<Role>)

  /**
   * Whether the caller holds a role, as both the inline check and the
   * method attribute ask it; an anonymous caller holds no role.
   */
  predicate IsGranted(c: Caller, r: Role)
  {
    c.Authenticated? && r in c.grants
  }

  /**
   * The role hierarchy `ROLE_ADMIN: [ROLE_AUTHOR]`, which the controllers do
   * not show. Facts that need an administrator to pass an author check take
   * it as an explicit hypothesis.
   */
  predicate AdminInheritsAuthor(c: Caller)
  {
    IsGranted(c, Admin) ==> IsGranted(c, Author)
  }

  /** The current user is reloaded from the users table on every request. */
  ghost predicate CurrentUserStored(c: Caller, users: map<nat, UserRow>)
  {
    c.Authenticated? ==> c.id in users
  }

  /**
   * The framework's answer when a method or class attribute denies access:
   * an anonymous caller is asked to authenticate, anyone else is forbidden.
   */
  function Deny(c: Caller): (r: Response)
    ensures r.payload == ErrorPage
    ensures r.status == UNAUTHORIZED <==> c.Anonymous?
    ensures r.status == FORBIDDEN <==> c.Authenticated?
  {
    if c.Anonymous? then Response(UNAUTHORIZED, ErrorPage) else Response(FORBIDDEN, ErrorPage)
  }
}
