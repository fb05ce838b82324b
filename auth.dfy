/** The authentication use cases: login, registration, refresh-token rotation and
    logout, over the user, role, user-role and refresh-token stores. The password
    encoder is a pair of functions given to the service; the access token is the
    record of what the signed token carries, without the signature. */
module Auth {
  import opened Wrappers
  import opened Text
  import opened Errors
  import opened Entities
  import opened Stores
  import opened RefreshTokens
  import opened Authorities
  import opened Fetch
  import opened Dtos

  /** Access tokens and the response's `expiresAt` lie one hour after issue. */
  const ACCESS_TOKEN_DURATION := MILLIS_PER_HOUR

  const INVALID_CREDENTIALS := "Invalid email or password"
  const EMAIL_TAKEN := "Email is already taken"
  const DEFAULT_ROLE := "USER"
  const DEFAULT_ROLE_MISSING := "Default USER role not found"
  const NO_AUTHENTICATED_USER := "No authenticated user found"

  /** `encode` hashes a raw password; `matches(raw, encoded)` checks one. */
  datatype PasswordEncoder = PasswordEncoder(encode: string -> string, matches: (string, string) -> bool)

  /** Every password matches its own encoding. */
  ghost predicate Sound(e: PasswordEncoder) {
    forall p :: e.matches(p, e.encode(p))
  }

  /** The claims of a signed access token. */
  datatype AccessToken = AccessToken(subject: string, roles: seq<string>, issuedAt: Instant, expiresAt: Instant)

  /** `generateToken`: the subject is the username, the roles claim lists the
      authorities, and the token expires an hour after `now`. */
  function GenerateToken(d: CustomUserDetails, now: Instant): (t: AccessToken)
    ensures t.subject == d.GetUsername() && t.roles == d.GetAuthorities()
    ensures t.issuedAt == now && t.expiresAt - t.issuedAt == ACCESS_TOKEN_DURATION
  {
    AccessToken(d.GetUsername(), d.GetAuthorities(), now, now + ACCESS_TOKEN_DURATION)
  }

  /** The triple the use cases answer with. */
  datatype AuthResponse = AuthResponse(expiresAt: Instant, accessToken: AccessToken, refreshToken: string)

  class AuthService {
    const users: UserRepository
    const roles: RoleRepository
    const userRoles: UserRoleRepository
    const encoder: PasswordEncoder
    const details: UserDetailsService
    const mapper: RolesToAuthorityMapper
    const tokenService: RefreshTokenService

    /** The collaborators share the stores, each store keeps its own invariant,
        and every refresh token belongs to a stored user. */
    ghost predicate Valid()
      reads this, users, roles, userRoles, tokenService.tokens
    {
      && mapper.userRoles == userRoles && mapper.roles == roles
      && details.users == users && details.mapper == mapper
      && tokenService.users == users
      && users.Valid() && roles.Valid() && userRoles.Valid() && tokenService.tokens.Valid()
      && TokensOwned()
    }

    ghost predicate TokensOwned()
      reads users, tokenService.tokens
    {
      forall k :: k in tokenService.tokens.tokens ==> users.FindById(tokenService.tokens.tokens[k].userId).Some?
    }

    constructor (users: UserRepository, roles: RoleRepository, userRoles: UserRoleRepository,
                 encoder: PasswordEncoder, tokens: RefreshTokenRepository)
      requires users.Valid() && roles.Valid() && userRoles.Valid() && tokens.Valid()
      requires forall k :: k in tokens.tokens ==> users.FindById(tokens.tokens[k].userId).Some?
      ensures Valid()
      ensures this.users == users && this.roles == roles && this.userRoles == userRoles
      ensures this.encoder == encoder && this.tokenService.tokens == tokens
    {
      this.users := users;
      this.roles := roles;
      this.userRoles := userRoles;
      this.encoder := encoder;
      var mapper := new RolesToAuthorityMapper(userRoles, roles);
      this.mapper := mapper;
      this.details := new UserDetailsService(users, mapper);
      this.tokenService := new RefreshTokenService(tokens, users);
    }

    /** The user `email` names, up to case, if the raw password matches the stored
        hash. */
    function Authenticate(email: string, password: string): Option<User>
      reads users
    {
      match users.FindByEmailIgnoreCase(email)
      case Some(u) => if encoder.matches(password, u.password) then Some(u) else None
      case None => None
    }

    /** The access token of a user with the authorities the stores grant now. */
    function TokenFor(u: User, now: Instant): AccessToken
      requires u.userId.Some?
      reads mapper.userRoles, mapper.roles
    {
      GenerateToken(CustomUserDetails(u, mapper.MapRolesToAuthorities(u.userId.value)), now)
    }

    /** An unknown email and a wrong password are refused alike. On success the
        answer carries the user's access token and one new refresh token for that
        user, which is the only change to any store. */
    method Login(req: LoginRequest, now: Instant, uuid: string) returns (r: Fallible<AuthResponse>)
      requires Valid() && uuid !in tokenService.tokens.tokens
      modifies tokenService.tokens
      ensures Valid()
      ensures r.Failure? <==> Authenticate(req.email, req.password).None?
      ensures r.Failure? ==>
        r.error == Error(Unclassified, INVALID_CREDENTIALS) && tokenService.tokens.tokens == old(tokenService.tokens.tokens)
      ensures r.Success? ==> var u := Authenticate(req.email, req.password).value;
        && u.userId.Some? && EqualsIgnoreCase(u.email, req.email)
        && r.value == AuthResponse(now + ACCESS_TOKEN_DURATION, TokenFor(u, now), uuid)
        && r.value.accessToken.subject == u.email
        && tokenService.tokens.tokens ==
             old(tokenService.tokens.tokens)[uuid := RefreshToken(uuid, u.userId.value, now + REFRESH_TOKEN_DURATION)]
    {
      var found := users.FindByEmailIgnoreCase(req.email);
      if found.None? {
        return Failure(Error(Unclassified, INVALID_CREDENTIALS));
      }
      var user := found.value;
      if !encoder.matches(req.password, user.password) {
        return Failure(Error(Unclassified, INVALID_CREDENTIALS));
      }
      assert UserKey(user).Some?;
      var access := TokenFor(user, now);
      StoredUserFound(users.rows, user);
      var t := tokenService.CreateRefreshToken(user, now, uuid);
      return Success(AuthResponse(now + ACCESS_TOKEN_DURATION, access, t.token));
    }

    /** Inserts a user who has no id yet and whose email no stored user has; every
        token keeps its owner. */
    method SaveNewUser(u: User, now: Instant) returns (saved: User)
      requires Valid() && u.userId.None? && users.FindByEmailIgnoreCase(u.email).None?
      modifies users
      ensures Valid()
      ensures saved == InsertedUser(u, old(users.nextId), now)
      ensures users.rows == old(users.rows) + [saved] && users.nextId == old(users.nextId) + 1
      ensures users.FindByEmailIgnoreCase(u.email) == Some(saved)
    {
      UpsertSpec(users.rows, users.nextId, UserKey, u, InsertedUser(u, users.nextId, now));
      ByEmailAppend(users.rows, InsertedUser(u, users.nextId, now), u.email);
      saved := users.Save(u, now);
    }

    /** A taken email (up to case) is refused with every store unchanged. Otherwise
        the user is saved with the encoded password; a missing USER role then fails
        with the user already saved; else the user is given the USER role and a
        refresh token, and the answer's access token carries "ROLE_USER". */
    method Register(req: RegisterRequest, now: Instant, uuid: string) returns (r: Fallible<AuthResponse>)
      requires Valid() && uuid !in tokenService.tokens.tokens
      modifies users, userRoles, tokenService.tokens
      ensures Valid()
      ensures old(users.FindByEmailIgnoreCase(req.email)).Some? ==>
        && r == Failure(Error(Unclassified, EMAIL_TAKEN))
        && users.rows == old(users.rows) && users.nextId == old(users.nextId)
        && userRoles.rows == old(userRoles.rows) && tokenService.tokens.tokens == old(tokenService.tokens.tokens)
      ensures old(users.FindByEmailIgnoreCase(req.email)).None? ==>
        var u := InsertedUser(UserFromSetters(req.firstName, req.lastName, req.email, encoder.encode(req.password)),
                              old(users.nextId), now);
        && users.rows == old(users.rows) + [u] && users.nextId == old(users.nextId) + 1
        && users.FindByEmailIgnoreCase(req.email) == Some(u)
        && u.password == encoder.encode(req.password) && u.registrationDate == Some(now)
        && (roles.FindByRoleName(DEFAULT_ROLE).None? ==>
              && r == Failure(Error(UserNotFound, DEFAULT_ROLE_MISSING))
              && userRoles.rows == old(userRoles.rows) && tokenService.tokens.tokens == old(tokenService.tokens.tokens))
        && (roles.FindByRoleName(DEFAULT_ROLE).Some? ==>
              && userRoles.rows == SaveUserRole(old(userRoles.rows),
                   NewUserRole(old(users.nextId), roles.FindByRoleName(DEFAULT_ROLE).value.roleId), now)
              && tokenService.tokens.tokens ==
                   old(tokenService.tokens.tokens)[uuid := RefreshToken(uuid, old(users.nextId), now + REFRESH_TOKEN_DURATION)]
              && r == Success(AuthResponse(now + ACCESS_TOKEN_DURATION, TokenFor(u, now), uuid))
              && ROLE_PREFIX + DEFAULT_ROLE in r.value.accessToken.roles)
    {
      if users.FindByEmailIgnoreCase(req.email).Some? {
        return Failure(Error(Unclassified, EMAIL_TAKEN));
      }
      var user := SaveNewUser(UserFromSetters(req.firstName, req.lastName, req.email, encoder.encode(req.password)), now);

      var role := roles.FindByRoleName(DEFAULT_ROLE);
      if role.None? {
        return Failure(Error(UserNotFound, DEFAULT_ROLE_MISSING));
      }
      var response := IssueForNewUser(user, req.email, role.value, now, uuid);
      return Success(response);
    }

    /** `register` after the user is saved and the USER role found: the user gets
        that role and a refresh token, and a token pair is issued whose access token
        carries "ROLE_USER". */
    method IssueForNewUser(user: User, email: string, role: Role, now: Instant, uuid: string) returns (response: AuthResponse)
      requires Valid() && uuid !in tokenService.tokens.tokens
      requires user.userId.Some? && users.FindByEmailIgnoreCase(email) == Some(user)
      requires role in roles.rows && role.roleName == DEFAULT_ROLE
      modifies userRoles, tokenService.tokens
      ensures Valid()
      ensures userRoles.rows == SaveUserRole(old(userRoles.rows), NewUserRole(user.userId.value, role.roleId), now)
      ensures tokenService.tokens.tokens ==
        old(tokenService.tokens.tokens)[uuid := RefreshToken(uuid, user.userId.value, now + REFRESH_TOKEN_DURATION)]
      ensures response == AuthResponse(now + ACCESS_TOKEN_DURATION, TokenFor(user, now), uuid)
      ensures ROLE_PREFIX + DEFAULT_ROLE in response.accessToken.roles
    {
      var userId := user.userId.value;
      GrantDefaultRole(userId, role, now);
      var loaded := details.LoadUserByUsername(email);
      assert loaded == Success(CustomUserDetails(user, mapper.MapRolesToAuthorities(userId)));
      var access := GenerateToken(loaded.value, now);
      var t := tokenService.CreateRefreshToken(user, now, uuid);
      return AuthResponse(now + ACCESS_TOKEN_DURATION, access, t.token);
    }

    /** `userRoleRepository.save(new UserRole(userId, USER roleId))`: the user now
        holds the USER role, so the mapper grants "ROLE_USER". */
    method GrantDefaultRole(userId: int, role: Role, now: Instant)
      requires Valid() && role in roles.rows && role.roleName == DEFAULT_ROLE
      modifies userRoles
      ensures Valid()
      ensures userRoles.rows == SaveUserRole(old(userRoles.rows), NewUserRole(userId, role.roleId), now)
      ensures ROLE_PREFIX + DEFAULT_ROLE in mapper.MapRolesToAuthorities(userId)
    {
      var assignment := NewUserRole(userId, role.roleId);
      SaveUserRoleSpec(userRoles.rows, assignment, now);
      userRoles.Save(assignment, now);
      DefaultRoleGranted(userRoles.rows, roles.rows, assignment, role);
      MappedAuthorities(mapper, userId, ROLE_PREFIX + DEFAULT_ROLE);
    }

    /** Rotation: the old token must be stored and unexpired. Its owner gets a new
        access token and the old token is replaced by a new one for the same owner;
        a refused token changes nothing. */
    method Refresh(oldToken: string, now: Instant, uuid: string) returns (r: Fallible<AuthResponse>)
      requires Valid() && uuid !in tokenService.tokens.tokens
      modifies tokenService.tokens
      ensures Valid()
      ensures r.Failure? <==> old(tokenService.ValidateAndGetToken(oldToken, now)).Failure?
      ensures r.Failure? ==>
        r.error == Error(Unclassified, INVALID_REFRESH_TOKEN) && tokenService.tokens.tokens == old(tokenService.tokens.tokens)
      ensures r.Success? ==>
        var owner := old(tokenService.tokens.tokens[oldToken].userId);
        var u := users.FindById(owner).value;
        && u.userId == Some(owner)
        && r.value == AuthResponse(now + ACCESS_TOKEN_DURATION, TokenFor(u, now), uuid)
        && tokenService.tokens.tokens ==
             (old(tokenService.tokens.tokens) - {oldToken})[uuid := RefreshToken(uuid, owner, now + REFRESH_TOKEN_DURATION)]
        && oldToken !in tokenService.tokens.tokens
    {
      var stored := tokenService.ValidateAndGetToken(oldToken, now);
      if stored.Failure? {
        return Failure(stored.error);
      }
      var t := stored.value;
      var user := users.FindById(t.userId).value;
      assert UserKey(user) == Some(t.userId);
      var access := TokenFor(user, now);
      tokenService.DeleteToken(t);
      var issued := tokenService.CreateRefreshToken(user, now, uuid);
      return Success(AuthResponse(now + ACCESS_TOKEN_DURATION, access, issued.token));
    }

    /** No principal, or the anonymous one, is refused; so is a principal that
        names no stored user. Otherwise every refresh token of that user goes,
        and only those. */
    method Logout(principal: Option<string>) returns (r: Check)
      requires Valid()
      modifies tokenService.tokens
      ensures Valid()
      ensures principal.None? || principal.value == ANONYMOUS_USER ==>
        r == Fail(Error(UserNotFound, NO_AUTHENTICATED_USER)) && tokenService.tokens.tokens == old(tokenService.tokens.tokens)
      ensures principal.Some? && principal.value != ANONYMOUS_USER && users.FindByEmailIgnoreCase(principal.value).None? ==>
        && r == Fail(Error(UserNotFound, "User not found with email: " + principal.value))
        && tokenService.tokens.tokens == old(tokenService.tokens.tokens)
      ensures r.Pass? <==>
        principal.Some? && principal.value != ANONYMOUS_USER && users.FindByEmailIgnoreCase(principal.value).Some?
      ensures r.Fail? ==> tokenService.tokens.tokens == old(tokenService.tokens.tokens)
      ensures r.Pass? ==>
        && principal.Some? && users.FindByEmailIgnoreCase(principal.value).Some?
        && var u := users.FindByEmailIgnoreCase(principal.value).value;
        && u.userId.Some?
        && tokenService.tokens.tokens == old(tokenService.tokens.tokens) - OwnedBy(old(tokenService.tokens.tokens), u.userId.value)
    {
      if principal.None? || principal.value == ANONYMOUS_USER {
        return Fail(Error(UserNotFound, NO_AUTHENTICATED_USER));
      }
      var email := principal.value;
      var found := users.FindByEmailIgnoreCase(email);
      if found.None? {
        return Fail(Error(UserNotFound, "User not found with email: " + email));
      }
      assert UserKey(found.value).Some?;
      tokenService.RevokeAllTokensForUser(found.value);
      return Pass;
    }

    /** Single use: refreshing twice with one token string, the second time no
        earlier than the first, fails the second time whatever the first did. */
    method RefreshTwice(oldToken: string, now: Instant, later: Instant, uuid1: string, uuid2: string)
      returns (first: Fallible<AuthResponse>, second: Fallible<AuthResponse>)
      requires Valid() && now <= later && uuid1 != uuid2
      requires uuid1 !in tokenService.tokens.tokens && uuid2 !in tokenService.tokens.tokens
      modifies tokenService.tokens
      ensures Valid()
      ensures second.Failure?
    {
      first := Refresh(oldToken, now, uuid1);
      second := Refresh(oldToken, later, uuid2);
    }

    /** With a sound encoder, a registration that succeeds lets the same email and
        password log in as the new user. */
    method RegisterThenLogin(req: RegisterRequest, now: Instant, later: Instant, uuid1: string, uuid2: string)
      returns (registered: Fallible<AuthResponse>, loggedIn: Fallible<AuthResponse>)
      requires Valid() && Sound(encoder) && uuid1 != uuid2
      requires uuid1 !in tokenService.tokens.tokens && uuid2 !in tokenService.tokens.tokens
      modifies users, userRoles, tokenService.tokens
      ensures Valid()
      ensures registered.Success? ==> loggedIn.Success?
      ensures registered.Success? ==> loggedIn.value.accessToken == registered.value.accessToken.(issuedAt := later, expiresAt := later + ACCESS_TOKEN_DURATION)
    {
      registered := Register(req, now, uuid1);
      loggedIn := Login(LoginRequest(req.email, req.password), later, uuid2);
    }

    /** After a logout that succeeds, no refresh token of the logged-out user is
        left, so none of them can be rotated. */
    method LogoutThenRefresh(principal: Option<string>, oldToken: string, now: Instant, uuid: string)
      returns (out: Check, refreshed: Fallible<AuthResponse>)
      requires Valid() && uuid !in tokenService.tokens.tokens
      requires oldToken in tokenService.tokens.tokens && principal.Some?
      requires users.FindByEmailIgnoreCase(principal.value).Some?
      requires users.FindByEmailIgnoreCase(principal.value).value.userId == Some(tokenService.tokens.tokens[oldToken].userId)
      modifies tokenService.tokens
      ensures Valid()
      ensures out.Pass? ==> refreshed.Failure?
    {
      ghost var owner := tokenService.tokens.tokens[oldToken].userId;
      ghost var before := tokenService.tokens.tokens;
      assert oldToken in OwnedBy(before, owner);
      out := Logout(principal);
      if out.Pass? {
        assert tokenService.tokens.tokens == before - OwnedBy(before, owner);
        assert oldToken !in tokenService.tokens.tokens;
      }
      refreshed := Refresh(oldToken, now, uuid);
    }
  }

  /** A stored user is found under its own id. */
  lemma StoredUserFound(rows: seq<User>, u: User)
    requires u in rows && u.userId.Some?
    ensures ById(rows, UserKey, u.userId.value).Some?
  {
    var i :| 0 <= i < |rows| && rows[i] == u;
    assert UserKey(rows[i]) == Some(u.userId.value);
  }

  /** An assignment of the role named USER, once stored, grants "ROLE_USER". */
  lemma DefaultRoleGranted(userRoles: seq<UserRole>, roles: seq<Role>, ur: UserRole, role: Role)
    requires HasKey(userRoles, ur.Key()) && RoleIdsUnique(roles)
    requires role in roles && role.roleName == DEFAULT_ROLE && ur.roleId == role.roleId
    ensures exists x :: x in userRoles && x.userId == ur.userId && Grants(x, roles, ROLE_PREFIX + DEFAULT_ROLE)
  {
    var i :| 0 <= i < |userRoles| && userRoles[i].Key() == ur.Key();
    RoleById(roles, role);
    assert Grants(userRoles[i], roles, ROLE_PREFIX + DEFAULT_ROLE);
  }
}
