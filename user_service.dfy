/** User administration: listing users, looking one up under the admin-or-self
    rule, the older direct insert, and granting or withdrawing a role. */
module Users {
  import opened Wrappers
  import opened Errors
  import opened Entities
  import opened Dtos
  import opened Mappers
  import opened Stores
  import opened Fetch
  import opened Access

  class UserService {
    const users: UserRepository
    const roles: RoleRepository
    const userRoles: UserRoleRepository
    const validator: UserAccessValidator

    ghost predicate Valid()
      reads this, users, roles, userRoles
    {
      && validator.users == users && validator.mapper.userRoles == userRoles && validator.mapper.roles == roles
      && users.Valid() && roles.Valid() && userRoles.Valid()
    }

    constructor (users: UserRepository, roles: RoleRepository, userRoles: UserRoleRepository, validator: UserAccessValidator)
      requires validator.users == users && validator.mapper.userRoles == userRoles && validator.mapper.roles == roles
      requires users.Valid() && roles.Valid() && userRoles.Valid()
      ensures Valid()
      ensures this.users == users && this.roles == roles && this.userRoles == userRoles && this.validator == validator
    {
      this.users := users;
      this.roles := roles;
      this.userRoles := userRoles;
      this.validator := validator;
    }

    /** One view per stored user, in table order. */
    function GetAllUserDtos(): (r: seq<UserDto>)
      reads users
      ensures |r| == |users.rows|
      ensures forall i :: 0 <= i < |r| ==> r[i] == MapToUserDto(users.rows[i])
    {
      seq(|users.rows|, i requires 0 <= i < |users.rows| reads users => MapToUserDto(users.rows[i]))
    }

    /** The user with that email, shown only to an admin or to that user. */
    function GetUserByEmail(principal: Option<string>, email: string): (r: Fallible<UserDto>)
      requires Valid()
      reads this, users, userRoles, roles
      ensures GetUserByEmailOrThrow(Some(email), users).Failure? ==>
        r == Failure(GetUserByEmailOrThrow(Some(email), users).error)
      ensures GetUserByEmailOrThrow(Some(email), users).Success? ==>
        var target := GetUserByEmailOrThrow(Some(email), users).value;
        && target.userId.Some?
        && (r.Success? <==> validator.IsAdminOrSelf(principal, target.userId.value) == Success(true))
        && (r.Success? ==> r.value == MapToUserDto(target))
        && (r.Failure? ==> r.error.kind == AccessDenied)
    {
      var target :- GetUserByEmailOrThrow(Some(email), users);
      assert UserKey(target).Some?;
      :- validator.ValidateUserAccess(principal, target.userId.value);
      Success(MapToUserDto(target))
    }

    /** The older direct insert: the input becomes a new user as given, password
        included, under the next id. */
    method AddUser(dto: UserInput, now: Instant) returns (r: UserDto)
      requires Valid()
      modifies users
      ensures Valid()
      ensures var u := InsertedUser(MapToUserEntity(dto), old(users.nextId), now);
        && users.rows == old(users.rows) + [u] && users.nextId == old(users.nextId) + 1
        && u.password == dto.password
        && r == MapToUserDto(u)
    {
      var user := MapToUserEntity(dto);
      UpsertSpec(users.rows, users.nextId, UserKey, user, InsertedUser(user, users.nextId, now));
      var saved := users.Save(user, now);
      return MapToUserDto(saved);
    }

    /** What a role change resolves before touching any store: the editor (the
        principal's user), the target user by email and the role by name, failing
        at the first that is missing. The editor's access check is against the
        editor's own id, so it never refuses. */
    function ResolveChange(principal: Option<string>, req: RoleChangeRequest): (r: Fallible<(User, Role)>)
      requires Valid()
      reads this, users, roles, userRoles
      ensures validator.GetCurrentAuthenticatedUser(principal).Failure? ==>
        r == Failure(Error(AccessDenied, "Authenticated user not found"))
      ensures validator.GetCurrentAuthenticatedUser(principal).Success? ==>
        var editor := validator.GetCurrentAuthenticatedUser(principal).value;
        && validator.ValidateUserAccess(principal, editor.userId.value).Pass?
        && (GetUserByEmailOrThrow(req.email, users).Failure? ==> r == Failure(GetUserByEmailOrThrow(req.email, users).error))
        && (GetUserByEmailOrThrow(req.email, users).Success? && GetRoleOrThrow(req.roleName, roles).Failure? ==>
              r == Failure(GetRoleOrThrow(req.roleName, roles).error))
        && (GetUserByEmailOrThrow(req.email, users).Success? && GetRoleOrThrow(req.roleName, roles).Success? ==>
              r == Success((GetUserByEmailOrThrow(req.email, users).value, GetRoleOrThrow(req.roleName, roles).value)))
      ensures r.Success? ==> r.value.0.userId.Some? && r.value.0 in users.rows && r.value.1 in roles.rows
    {
      var editor :- validator.GetCurrentAuthenticatedUser(principal);
      SelfAlwaysPasses(validator, principal);
      var target :- GetUserByEmailOrThrow(req.email, users);
      assert UserKey(target).Some?;
      var role :- GetRoleOrThrow(req.roleName, roles);
      Success((target, role))
    }

    /** Idempotent grant: the (target, role) pair is stored afterwards; it is added
        only when absent, and a present pair leaves the table as it was. A failed
        resolution changes nothing. */
    method AssignRole(principal: Option<string>, req: RoleChangeRequest, now: Instant) returns (r: Fallible<UserDto>)
      requires Valid()
      modifies userRoles
      ensures Valid()
      ensures old(ResolveChange(principal, req)).Failure? ==>
        r == Failure(old(ResolveChange(principal, req)).error) && userRoles.rows == old(userRoles.rows)
      ensures old(ResolveChange(principal, req)).Success? ==>
        var (target, role) := old(ResolveChange(principal, req)).value;
        var key := UserRoleId(target.userId.value, role.roleId);
        && r == Success(MapToUserDto(target))
        && userRoles.ExistsByUserIdAndRoleId(target.userId.value, role.roleId)
        && (HasKey(old(userRoles.rows), key) ==> userRoles.rows == old(userRoles.rows))
        && (!HasKey(old(userRoles.rows), key) ==>
              userRoles.rows == old(userRoles.rows) + [UserRoleOnCreate(NewUserRole(target.userId.value, role.roleId), now)])
    {
      var resolved := ResolveChange(principal, req);
      if resolved.Failure? {
        return Failure(resolved.error);
      }
      var (target, role) := resolved.value;
      var userId := target.userId.value;
      if !userRoles.ExistsByUserIdAndRoleId(userId, role.roleId) {
        SaveUserRoleSpec(userRoles.rows, NewUserRole(userId, role.roleId), now);
        userRoles.Save(NewUserRole(userId, role.roleId), now);
      }
      return Success(MapToUserDto(target));
    }

    /** The (target, role) pair is withdrawn and every other assignment stays. A
        failed resolution changes nothing. */
    method RemoveRole(principal: Option<string>, req: RoleChangeRequest) returns (r: Fallible<UserDto>)
      requires Valid()
      modifies userRoles
      ensures Valid()
      ensures old(ResolveChange(principal, req)).Failure? ==>
        r == Failure(old(ResolveChange(principal, req)).error) && userRoles.rows == old(userRoles.rows)
      ensures old(ResolveChange(principal, req)).Success? ==>
        var (target, role) := old(ResolveChange(principal, req)).value;
        && r == Success(MapToUserDto(target))
        && userRoles.rows == WithoutKey(old(userRoles.rows), UserRoleId(target.userId.value, role.roleId))
        && !userRoles.ExistsByUserIdAndRoleId(target.userId.value, role.roleId)
    {
      var resolved := ResolveChange(principal, req);
      if resolved.Failure? {
        return Failure(resolved.error);
      }
      var (target, role) := resolved.value;
      userRoles.DeleteByUserIdAndRoleId(target.userId.value, role.roleId);
      return Success(MapToUserDto(target));
    }
  }
}
