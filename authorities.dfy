/** From role assignments to granted authorities, and the principal that wraps a
    user with them. */
module Authorities {
  import opened Wrappers
  import opened Text
  import opened Errors
  import opened Entities
  import opened Stores

  const ROLE_PREFIX := "ROLE_"

  predicate HasRolePrefix(a: string) {
    |ROLE_PREFIX| <= |a| && a[..|ROLE_PREFIX|] == ROLE_PREFIX
  }

  /** The authority of each assignment whose role exists, in assignment order; an
      assignment whose role id has no role is skipped. */
  function AuthoritiesOf(assignments: seq<UserRole>, roles: seq<Role>): (r: seq<string>)
    ensures |r| <= |assignments|
    ensures forall k :: 0 <= k < |r| ==> HasRolePrefix(r[k])
  {
    if |assignments| == 0 then []
    else
      var head := match ById(roles, RoleKey, assignments[0].roleId)
        case Some(role) => [ROLE_PREFIX + role.roleName]
        case None => [];
      head + AuthoritiesOf(assignments[1..], roles)
  }

  /** The role assignment `ur` grants the authority `a`. */
  predicate Grants(ur: UserRole, roles: seq<Role>, a: string) {
    ById(roles, RoleKey, ur.roleId).Some? && a == ROLE_PREFIX + ById(roles, RoleKey, ur.roleId).value.roleName
  }

  /** Soundness and completeness: an authority is listed exactly when some
      assignment grants it. */
  lemma {:induction false} AuthoritiesExactly(assignments: seq<UserRole>, roles: seq<Role>, a: string)
    ensures a in AuthoritiesOf(assignments, roles) <==>
      exists i :: 0 <= i < |assignments| && Grants(assignments[i], roles, a)
  {
    if |assignments| > 0 {
      AuthoritiesExactly(assignments[1..], roles, a);
      if exists i :: 0 <= i < |assignments[1..]| && Grants(assignments[1..][i], roles, a) {
        var i :| 0 <= i < |assignments[1..]| && Grants(assignments[1..][i], roles, a);
        assert Grants(assignments[i + 1], roles, a);
      }
      if exists i :: 0 <= i < |assignments| && Grants(assignments[i], roles, a) {
        var i :| 0 <= i < |assignments| && Grants(assignments[i], roles, a);
        if i > 0 {
          assert Grants(assignments[1..][i - 1], roles, a);
        }
      }
    }
  }

  /** The mapping distributes over concatenation, so it follows assignment order;
      in particular a dangling assignment contributes nothing. */
  lemma {:induction false} AuthoritiesAppend(xs: seq<UserRole>, ys: seq<UserRole>, roles: seq<Role>)
    ensures AuthoritiesOf(xs + ys, roles) == AuthoritiesOf(xs, roles) + AuthoritiesOf(ys, roles)
  {
    if |xs| > 0 {
      assert (xs + ys)[1..] == xs[1..] + ys;
      AuthoritiesAppend(xs[1..], ys, roles);
    } else {
      assert xs + ys == ys;
    }
  }

  /** One authority per assignment exactly when every assignment's role exists. */
  lemma {:induction false} AuthoritiesComplete(assignments: seq<UserRole>, roles: seq<Role>)
    ensures |AuthoritiesOf(assignments, roles)| == |assignments| <==>
      forall i :: 0 <= i < |assignments| ==> ById(roles, RoleKey, assignments[i].roleId).Some?
  {
    if |assignments| > 0 {
      AuthoritiesComplete(assignments[1..], roles);
      if forall i :: 0 <= i < |assignments[1..]| ==> ById(roles, RoleKey, assignments[1..][i].roleId).Some? {
        forall i | 0 < i < |assignments| ensures ById(roles, RoleKey, assignments[i].roleId).Some? {
          assert assignments[i] == assignments[1..][i - 1];
        }
      }
    }
  }

  /** The prefix keeps role names apart: an authority names one role only. */
  lemma PrefixInjective(n: string, m: string)
    ensures ROLE_PREFIX + n == ROLE_PREFIX + m <==> n == m
  {
    if ROLE_PREFIX + n == ROLE_PREFIX + m {
      assert n == (ROLE_PREFIX + n)[|ROLE_PREFIX|..];
      assert m == (ROLE_PREFIX + m)[|ROLE_PREFIX|..];
    }
  }

  class RolesToAuthorityMapper {
    const userRoles: UserRoleRepository
    const roles: RoleRepository

    constructor (userRoles: UserRoleRepository, roles: RoleRepository)
      ensures this.userRoles == userRoles && this.roles == roles
    {
      this.userRoles := userRoles;
      this.roles := roles;
    }

    /** The user's assignments, mapped to authorities; reads the stores only. */
    function MapRolesToAuthorities(userId: int): (r: seq<string>)
      reads userRoles, roles
      ensures r == AuthoritiesOf(userRoles.FindByUserId(userId), roles.rows)
      ensures userRoles.FindByUserId(userId) == [] ==> r == []
    {
      AuthoritiesOf(userRoles.FindByUserId(userId), roles.rows)
    }
  }

  /** The user of a stored assignment holds the authority of that assignment's role,
      and holds no authority that no assignment of theirs grants. */
  lemma MappedAuthorities(m: RolesToAuthorityMapper, userId: int, a: string)
    ensures a in m.MapRolesToAuthorities(userId) <==>
      exists ur :: ur in m.userRoles.rows && ur.userId == userId && Grants(ur, m.roles.rows, a)
  {
    var mine := m.userRoles.FindByUserId(userId);
    AuthoritiesExactly(mine, m.roles.rows, a);
    if exists ur :: ur in m.userRoles.rows && ur.userId == userId && Grants(ur, m.roles.rows, a) {
      var ur :| ur in m.userRoles.rows && ur.userId == userId && Grants(ur, m.roles.rows, a);
      assert ur in mine;
      var i :| 0 <= i < |mine| && mine[i] == ur;
    }
  }

  // ============================================================ the principal

  /** The authenticated principal: a user and the authorities it was built with. */
  datatype CustomUserDetails = CustomUserDetails(user: User, authorities: seq<string>) {
    function GetAuthorities(): seq<string> { authorities }
    function GetPassword(): string { user.password }
    function GetUsername(): string { user.email }
    predicate IsEnabled() { user.enabled }
    predicate IsAccountNonLocked() { user.accountNonLocked }
    predicate IsAccountNonExpired() { user.accountNonExpired }
    predicate IsCredentialsNonExpired() { user.credentialsNonExpired }
    function GetId(): Option<int> { user.userId }
    function GetFullName(): string { user.firstName + " " + user.lastName }
  }

  /** Each getter answers the wrapped user's field, or the authorities given. */
  lemma DetailsDelegate(u: User, authorities: seq<string>)
    ensures var d := CustomUserDetails(u, authorities);
      && d.GetAuthorities() == authorities && d.GetPassword() == u.password && d.GetUsername() == u.email
      && (d.IsEnabled() <==> u.enabled) && (d.IsAccountNonLocked() <==> u.accountNonLocked)
      && (d.IsAccountNonExpired() <==> u.accountNonExpired)
      && (d.IsCredentialsNonExpired() <==> u.credentialsNonExpired)
      && d.GetId() == u.userId
      && d.GetFullName()[..|u.firstName|] == u.firstName && d.GetFullName()[|u.firstName|] == ' '
      && d.GetFullName()[|u.firstName| + 1..] == u.lastName
  {
    var d := CustomUserDetails(u, authorities);
    assert d.GetFullName() == u.firstName + (" " + u.lastName);
  }

  class UserDetailsService {
    const users: UserRepository
    const mapper: RolesToAuthorityMapper

    constructor (users: UserRepository, mapper: RolesToAuthorityMapper)
      ensures this.users == users && this.mapper == mapper
    {
      this.users := users;
      this.mapper := mapper;
    }

    /** The user with that email up to case, wrapped with its authorities; an
        unknown email is refused. Nothing is written. */
    function LoadUserByUsername(username: string): (r: Fallible<CustomUserDetails>)
      requires users.Valid()
      reads users, mapper.userRoles, mapper.roles
      ensures r.Success? <==> users.FindByEmailIgnoreCase(username).Some?
      ensures r.Success? ==>
        && Some(r.value.user) == users.FindByEmailIgnoreCase(username)
        && r.value.user.userId.Some?
        && r.value.authorities == mapper.MapRolesToAuthorities(r.value.user.userId.value)
        && EqualsIgnoreCase(r.value.GetUsername(), username)
      ensures r.Failure? ==> r.error == Error(UsernameNotFound, "User not found with username: " + username)
    {
      match users.FindByEmailIgnoreCase(username)
      case None => Failure(Error(UsernameNotFound, "User not found with username: " + username))
      case Some(u) =>
        assert UserKey(u).Some?;
        Success(CustomUserDetails(u, mapper.MapRolesToAuthorities(u.userId.value)))
    }
  }
}
