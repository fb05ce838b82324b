/** Admin-or-self access checks against the principal of the current request. The
    principal's name (`Authentication.getName()`) is a parameter. */
module Access {
  import opened Wrappers
  import opened Text
  import opened Errors
  import opened Entities
  import opened Stores
  import opened Authorities

  const ADMIN_AUTHORITY := "ROLE_ADMIN"

  class UserAccessValidator {
    const users: UserRepository
    const mapper: RolesToAuthorityMapper

    constructor (users: UserRepository, mapper: RolesToAuthorityMapper)
      ensures this.users == users && this.mapper == mapper
    {
      this.users := users;
      this.mapper := mapper;
    }

    /** The stored user the principal names, up to case. */
    function GetCurrentAuthenticatedUser(principal: Option<string>): (r: Fallible<User>)
      requires users.Valid()
      reads users
      ensures r.Success? <==> principal.Some? && users.FindByEmailIgnoreCase(principal.value).Some?
      ensures r.Success? ==>
        && Some(r.value) == users.FindByEmailIgnoreCase(principal.value)
        && r.value.userId.Some? && EqualsIgnoreCase(r.value.email, principal.value)
      ensures r.Failure? ==> r.error == Error(AccessDenied, "Authenticated user not found")
    {
      var found := if principal.None? then None else users.FindByEmailIgnoreCase(principal.value);
      match found
      case None => Failure(Error(AccessDenied, "Authenticated user not found"))
      case Some(u) =>
        assert UserKey(u).Some?;
        Success(u)
    }

    /** Holds the authority "ROLE_ADMIN", compared exactly. */
    predicate IsAdmin(u: User)
      requires u.userId.Some?
      reads mapper.userRoles, mapper.roles
      ensures IsAdmin(u) ==> mapper.userRoles.FindByUserId(u.userId.value) != []
    {
      ADMIN_AUTHORITY in mapper.MapRolesToAuthorities(u.userId.value)
    }

    /** The current user's id equals the target id; an id-less user owns nothing. */
    predicate IsOwnResource(u: User, targetUserId: int)
      ensures u.userId.None? ==> !IsOwnResource(u, targetUserId)
      ensures IsOwnResource(u, targetUserId) ==> u.userId.value == targetUserId
    {
      u.userId == Some(targetUserId)
    }

    /** Admin or the target itself; fails when the principal is not a stored user. */
    function IsAdminOrSelf(principal: Option<string>, targetUserId: int): (r: Fallible<bool>)
      requires users.Valid()
      reads users, mapper.userRoles, mapper.roles
      ensures r.Failure? <==> GetCurrentAuthenticatedUser(principal).Failure?
      ensures r.Failure? ==> r.error == GetCurrentAuthenticatedUser(principal).error
      ensures r.Success? ==> var u := GetCurrentAuthenticatedUser(principal).value;
        r.value <==> IsAdmin(u) || u.userId == Some(targetUserId)
    {
      var u :- GetCurrentAuthenticatedUser(principal);
      Success(IsAdmin(u) || IsOwnResource(u, targetUserId))
    }

    /** The overload by email: the target must be a stored user too. */
    function IsAdminOrSelfByEmail(principal: Option<string>, targetUserEmail: string): (r: Fallible<bool>)
      requires users.Valid()
      reads users, mapper.userRoles, mapper.roles
      ensures GetCurrentAuthenticatedUser(principal).Failure? ==> r == Failure(GetCurrentAuthenticatedUser(principal).error)
      ensures GetCurrentAuthenticatedUser(principal).Success? && users.FindByEmailIgnoreCase(targetUserEmail).None? ==>
        r == Failure(Error(AccessDenied, "User not found with email: " + targetUserEmail))
      ensures GetCurrentAuthenticatedUser(principal).Success? && users.FindByEmailIgnoreCase(targetUserEmail).Some? ==>
        r == IsAdminOrSelf(principal, users.FindByEmailIgnoreCase(targetUserEmail).value.userId.value)
      ensures r.Success? ==>
        && users.FindByEmailIgnoreCase(targetUserEmail).Some?
        && r == IsAdminOrSelf(principal, users.FindByEmailIgnoreCase(targetUserEmail).value.userId.value)
    {
      var u :- GetCurrentAuthenticatedUser(principal);
      match users.FindByEmailIgnoreCase(targetUserEmail)
      case None => Failure(Error(AccessDenied, "User not found with email: " + targetUserEmail))
      case Some(target) =>
        assert UserKey(target).Some?;
        Success(IsAdmin(u) || IsOwnResource(u, target.userId.value))
    }

    /** Returns normally exactly when `isAdminOrSelf` would answer true. */
    function ValidateUserAccess(principal: Option<string>, targetUserId: int): (r: Check)
      requires users.Valid()
      reads users, mapper.userRoles, mapper.roles
      ensures r.Pass? <==> IsAdminOrSelf(principal, targetUserId) == Success(true)
      ensures r.Fail? && GetCurrentAuthenticatedUser(principal).Failure? ==>
        r.error == Error(AccessDenied, "Authenticated user not found")
      ensures r.Fail? && GetCurrentAuthenticatedUser(principal).Success? ==>
        r.error == Error(AccessDenied, "Access denied to user ID: " + IntToString(targetUserId))
    {
      match GetCurrentAuthenticatedUser(principal)
      case Failure(e) => Fail(e)
      case Success(u) =>
        if IsAdmin(u) || IsOwnResource(u, targetUserId) then Pass
        else Fail(Error(AccessDenied, "Access denied to user ID: " + IntToString(targetUserId)))
    }
  }

  /** An authenticated user may always reach their own resources. */
  lemma SelfAlwaysPasses(v: UserAccessValidator, principal: Option<string>)
    requires v.users.Valid()
    requires v.GetCurrentAuthenticatedUser(principal).Success?
    ensures var u := v.GetCurrentAuthenticatedUser(principal).value;
      v.ValidateUserAccess(principal, u.userId.value).Pass?
  {
  }

  /** An admin may reach every user's resources; anyone else only their own. */
  lemma AdminOrSelfOnly(v: UserAccessValidator, principal: Option<string>, target: int)
    requires v.users.Valid()
    requires v.GetCurrentAuthenticatedUser(principal).Success?
    ensures var u := v.GetCurrentAuthenticatedUser(principal).value;
      v.ValidateUserAccess(principal, target).Pass? <==> v.IsAdmin(u) || u.userId == Some(target)
  {
  }

  /** Admin is exactly holding an assignment of a stored role named "ADMIN". */
  lemma AdminMeansAdminRole(v: UserAccessValidator, u: User)
    requires u.userId.Some?
    ensures v.IsAdmin(u) <==>
      exists ur :: ur in v.mapper.userRoles.rows && ur.userId == u.userId.value
        && ById(v.mapper.roles.rows, RoleKey, ur.roleId).Some?
        && ById(v.mapper.roles.rows, RoleKey, ur.roleId).value.roleName == "ADMIN"
  {
    MappedAuthorities(v.mapper, u.userId.value, ADMIN_AUTHORITY);
    assert ADMIN_AUTHORITY == ROLE_PREFIX + "ADMIN";
    forall ur | ur in v.mapper.userRoles.rows && ById(v.mapper.roles.rows, RoleKey, ur.roleId).Some?
      ensures Grants(ur, v.mapper.roles.rows, ADMIN_AUTHORITY)
          <==> ById(v.mapper.roles.rows, RoleKey, ur.roleId).value.roleName == "ADMIN"
    {
      PrefixInjective(ById(v.mapper.roles.rows, RoleKey, ur.roleId).value.roleName, "ADMIN");
    }
  }
}
