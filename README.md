# A verified model of the library backend's core

This project models the rules underneath a Spring Boot library backend:

- **Authentication and sessions:**
  - the failed-login lockout policy;
  - the refresh-token store;
  - login, registration, refresh-token rotation and logout;
  - the mapping from role assignments to `ROLE_` authorities;
  - the principal wrapper and its user-details lookup;
  - the admin-or-self access checks;
  - idempotent role assignment over the (user, role) join table.
- **The loan life cycle:** a loan is opened against an available copy, extended while open, and returned once. The book's available-copies counter moves with it, through the decrement and increment of `services/book/BookServiceImpl.java`. The legacy `services/BookServiceImpl.java` has the same decrement and increment code, but no loan calls it; of that service, only its validating add-book operation is modelled on its own.
- **Pure helpers:**
  - the input validators;
  - the lookup-or-throw helpers;
  - the entity/DTO mappers;
  - the entity constructors;
  - the rate-limiting filter's client identification and per-client bucket cache;
  - the global exception handler's kind-to-status table.

How the Java maps to Dafny:

- **Entities** are values (`datatype`s in `Entities`).
- **Repositories** are classes in `Stores`. Each holds its rows in a `seq`, in `findAll` order, except the token table, which is a `map` keyed by the token string. Each has a `Valid()` invariant: generated ids lie below the id counter, and role assignments are unique per (user, role) key. `save` has JPA's merge semantics:
  - a row whose id is stored is replaced in place;
  - any other row is appended under the next generated id, and the `@PrePersist` hook runs.
- **Services** are classes over those repositories. Their methods state the whole new state of every store they touch.
- **Exceptions** are the `Failure`/`Fail` side of `Result`/`Outcome`. Each carries a `Kind`, one per exception class, and a message.
- **Time** is a parameter: `now` in milliseconds and `today` as a day number. So are:
  - the UUID of a new refresh token (required not to be stored already);
  - the password encoder (a pair of functions);
  - the rate-limit bucket's grant decision.

Where the repository contradicts its own declarations, the model follows the code that runs:

- Login never consults the lockout service. Lockout is its own component.
- The authentication answer is the triple `(expiresAt, accessToken, refreshToken)` that `AuthServiceImpl` builds. The two-field DTO is not used.
- `RoleRepository.findByRoleName` is declared to return a bare `Role`, but every caller treats it as optional. It is an `Option` here.
- `existsByUserIdAndRoleId` and `deleteByUserIdAndRoleId` are called but never declared. They are a membership test and a removal on the join table.

## Model

| member | source | states |
|---|---|---|
| LoginAttempts.AfterFailedAttempt | src/main/java/dev/jonas/library/services/auth/LoginAttemptServiceImpl.java:28-35 | A failure adds exactly one to the counter. From the fifth failure on, the lock ends at now + 15 min. Below five, the lock is left as it was. No other user field changes. |
| LoginAttempts.AfterReset | src/main/java/dev/jonas/library/services/auth/LoginAttemptServiceImpl.java:40-42 | Reset clears the counter and the lock. No other user field changes. |
| LoginAttempts.IsLocked | src/main/java/dev/jonas/library/services/auth/LoginAttemptServiceImpl.java:23-25 | A user without `lockedUntil` is never locked, and a locked user is locked only at instants strictly before `lockedUntil`. |
| LoginAttempts.ResetUnlocks | src/main/java/dev/jonas/library/services/auth/LoginAttemptServiceImpl.java:40-44 | A reset user is unlocked at every instant. |
| LoginAttempts.LockEndsAtLockedUntil | src/main/java/dev/jonas/library/services/auth/LoginAttemptServiceImpl.java:23-25 | The lock test is strict. At the instant `lockedUntil` is reached, and at every later instant, the user is not locked. |
| LoginAttempts.NewUserNotLocked | src/main/java/dev/jonas/library/entities/User.java:73-88 | A freshly constructed user is not locked. |
| LoginAttempts.LockWindow | src/main/java/dev/jonas/library/services/auth/LoginAttemptServiceImpl.java:23-34 | A failure that reaches the threshold locks the user exactly until 15 minutes after it, whatever the lock was before. This is the re-extension. |
| LoginAttempts.BelowThresholdKeepsLockState | src/main/java/dev/jonas/library/services/auth/LoginAttemptServiceImpl.java:32-34 | Below the threshold, a failure does not change whether the user is locked at any instant. |
| LoginAttempts.FailuresCount | src/main/java/dev/jonas/library/services/auth/LoginAttemptServiceImpl.java:28-37 | A run of n failures adds n to the counter and touches nothing but the counter and the lock. |
| LoginAttempts.FailuresLockFromLast | src/main/java/dev/jonas/library/services/auth/LoginAttemptServiceImpl.java:28-37 | Once a run has reached five failures, the lock ends 15 minutes after its last failure. |
| LoginAttempts.FiveFailuresLock | src/main/java/dev/jonas/library/services/auth/LoginAttemptServiceImpl.java:28-37 | Five failures from a clean counter lock the user, from the fifth failure until 15 minutes after it. |
| LoginAttempts.FourFailuresDoNotLock | src/main/java/dev/jonas/library/services/auth/LoginAttemptServiceImpl.java:28-37 | Four failures from a clean, unlocked user leave the user unlocked. |
| LoginAttempts.LoginAttemptService.RecordFailedAttempt | src/main/java/dev/jonas/library/services/auth/LoginAttemptServiceImpl.java:28-37 | The user is changed as a failure prescribes and saved. That user's stored row becomes the updated user; no other row changes. |
| LoginAttempts.LoginAttemptService.Reset | src/main/java/dev/jonas/library/services/auth/LoginAttemptServiceImpl.java:40-44 | The user is reset and saved. That user's stored row becomes the reset user; no other row changes. |
| RefreshTokens.RefreshTokenService.CreateRefreshToken | src/main/java/dev/jonas/library/services/auth/RefreshTokenServiceImpl.java:26-35 | Exactly one token is added under the new string. It is owned by the user and expires 7 days from now. Every existing token is unchanged. |
| RefreshTokens.RefreshTokenService.FindByToken | src/main/java/dev/jonas/library/services/auth/RefreshTokenServiceImpl.java:37-39 | Finds a token exactly when that string is stored, and then gives the stored token, whose own string is the one looked up. |
| RefreshTokens.RefreshTokenService.ValidateAndGetToken | src/main/java/dev/jonas/library/services/auth/RefreshTokenServiceImpl.java:55-59 | Succeeds exactly when the token is stored and its expiry lies strictly after now, and then returns the stored token. Otherwise it fails with "Invalid or expired refresh token". It reads only. |
| RefreshTokens.RefreshTokenService.VerifyExpiration | src/main/java/dev/jonas/library/services/auth/RefreshTokenServiceImpl.java:41-47 | An expiry strictly before now deletes exactly that token and fails with TokenExpired. Otherwise the token is returned and the store is unchanged. |
| RefreshTokens.RefreshTokenService.DeleteByUserId | src/main/java/dev/jonas/library/services/auth/RefreshTokenServiceImpl.java:49-53 | An unknown user id fails with UserNotFound and changes nothing. Otherwise exactly that user's tokens are removed and their number is returned. |
| RefreshTokens.RefreshTokenService.DeleteToken | src/main/java/dev/jonas/library/services/auth/RefreshTokenServiceImpl.java:61-63 | Exactly that token is removed. |
| RefreshTokens.RefreshTokenService.RevokeAllTokensForUser | src/main/java/dev/jonas/library/services/auth/RefreshTokenServiceImpl.java:65-68 | Exactly the tokens owned by the user are removed. |
| RefreshTokens.RefreshTokenService.DeleteAllExpiredTokens | src/main/java/dev/jonas/library/services/auth/RefreshTokenServiceImpl.java:70-74 | Exactly the tokens whose expiry is strictly before now are removed and counted. None expired before now is left. |
| RefreshTokens.SweepIsIdempotent | src/main/java/dev/jonas/library/services/auth/RefreshTokenServiceImpl.java:70-74 | A second sweep at the same instant finds nothing to remove, so it counts 0. |
| RefreshTokens.RevokeSparesOthers | src/main/java/dev/jonas/library/services/auth/RefreshTokenServiceImpl.java:65-68 | After a user's revocation that user owns no token. Every other user keeps the same tokens, with the same contents. |
| RefreshTokens.ExpiryBoundary | src/main/java/dev/jonas/library/services/auth/RefreshTokenServiceImpl.java:41-59 | The two expiry tests disagree only at the instant of expiry. There, validation refuses the token while `verifyExpiration` keeps it. |
| Auth.GenerateToken | src/main/java/dev/jonas/library/security/jwt/JwtUtil.java:26-43 | The token's subject is the username, its roles claim is the authorities, and it expires one hour after issue. |
| Auth.AuthService.Login | src/main/java/dev/jonas/library/services/auth/AuthServiceImpl.java:40-61 | An unknown email and a wrong password fail alike with "Invalid email or password", and nothing changes. Otherwise the answer carries expiresAt = now + 1 h and the user's access token, whose subject is the email and whose roles are the mapper's output. Exactly one new refresh token for that user is added. |
| Auth.AuthService.SaveNewUser | src/main/java/dev/jonas/library/services/auth/AuthServiceImpl.java:70-76 | The new user is appended under the next id. A case-insensitive lookup of its email now finds it. |
| Auth.AuthService.Register | src/main/java/dev/jonas/library/services/auth/AuthServiceImpl.java:64-95 | A taken email (up to case) fails with "Email is already taken" and changes no store. Otherwise the user is saved with the encoded password. A missing USER role fails after that save. Else the user gets the USER role and one new refresh token, and the access token carries "ROLE_USER". |
| Auth.AuthService.IssueForNewUser | src/main/java/dev/jonas/library/services/auth/AuthServiceImpl.java:81-93 | After a successful save: the USER assignment is stored and the refresh token added. The answer is the new user's token pair, and its roles include "ROLE_USER". |
| Auth.AuthService.GrantDefaultRole | src/main/java/dev/jonas/library/services/auth/AuthServiceImpl.java:79-82 | The (user, USER role) assignment is saved. From then on the mapper grants the user "ROLE_USER". |
| Auth.AuthService.Refresh | src/main/java/dev/jonas/library/services/auth/AuthServiceImpl.java:97-112 | Fails, changing nothing, exactly when the old token does not validate. Otherwise the old token is gone, and exactly one new token exists for the same owner. The owner gets a fresh access token. |
| Auth.AuthService.Logout | src/main/java/dev/jonas/library/services/auth/AuthServiceImpl.java:114-124 | A null or "anonymousUser" principal, or one that names no user, fails with UserNotFound and changes nothing. Otherwise exactly that user's refresh tokens are removed. |
| Auth.AuthService.RefreshTwice | src/main/java/dev/jonas/library/services/auth/AuthServiceImpl.java:98-104 | Rotation is single-use. A second refresh with the same string fails, whatever the first did. |
| Auth.AuthService.RegisterThenLogin | src/main/java/dev/jonas/library/services/auth/AuthServiceImpl.java:43-95 | With an encoder whose `matches` accepts every encoding, a successful registration lets the same email and password log in. The access token is the same but for its times. |
| Auth.AuthService.LogoutThenRefresh | src/main/java/dev/jonas/library/services/auth/AuthServiceImpl.java:97-124 | After a successful logout, none of the user's old refresh tokens can be rotated. |
| Auth.DefaultRoleGranted | src/main/java/dev/jonas/library/mappers/RolesToAuthorityMapper.java:21-27 | A stored assignment of the role named USER grants its user "ROLE_USER". |
| Authorities.AuthoritiesOf | src/main/java/dev/jonas/library/mappers/RolesToAuthorityMapper.java:22-26 | There are never more authorities than assignments, and each authority carries the "ROLE_" prefix. |
| Authorities.AuthoritiesExactly | src/main/java/dev/jonas/library/mappers/RolesToAuthorityMapper.java:22-25 | An authority is listed if and only if some assignment's existing role, prefixed with "ROLE_", spells it. |
| Authorities.AuthoritiesAppend | src/main/java/dev/jonas/library/mappers/RolesToAuthorityMapper.java:22-26 | The mapping distributes over concatenation. So it follows assignment order, and a dangling assignment contributes nothing. |
| Authorities.AuthoritiesComplete | src/main/java/dev/jonas/library/mappers/RolesToAuthorityMapper.java:23-24 | There is one authority per assignment exactly when no assignment is dangling. Dangling ones are dropped silently. |
| Authorities.PrefixInjective | src/main/java/dev/jonas/library/mappers/RolesToAuthorityMapper.java:24 | Prefixing keeps role names apart: two authorities agree exactly when their role names do. |
| Authorities.RolesToAuthorityMapper.MapRolesToAuthorities | src/main/java/dev/jonas/library/mappers/RolesToAuthorityMapper.java:21-27 | A user with no assignments gets the empty list. The function reads the stores only, so an unchanged store gives equal results. |
| Authorities.MappedAuthorities | src/main/java/dev/jonas/library/mappers/RolesToAuthorityMapper.java:21-27 | A user holds an authority exactly when one of that user's stored assignments grants it. |
| Authorities.DetailsDelegate | src/main/java/dev/jonas/library/security/CustomUserDetails.java:13-56 | Each getter answers the wrapped user's field, or the authorities given at construction. The username is the email and the password is unchanged. The full name is the first name, a space, and the last name. |
| Authorities.UserDetailsService.LoadUserByUsername | src/main/java/dev/jonas/library/services/auth/UserDetailsServiceImpl.java:26-33 | An unknown email (looked up up to case) fails with UsernameNotFound. Otherwise the result wraps the stored user, and its authorities are exactly the mapper's. It reads only. |
| Access.UserAccessValidator.GetCurrentAuthenticatedUser | src/main/java/dev/jonas/library/utils/UserAccessValidator.java:31-37 | Succeeds exactly when the principal names a stored user, up to case. Otherwise it fails with AccessDenied "Authenticated user not found". |
| Access.UserAccessValidator.IsAdmin | src/main/java/dev/jonas/library/utils/UserAccessValidator.java:39-44 | An admin holds at least one role assignment, since the mapper gives no authority to a user without one (`Access.AdminMeansAdminRole` states the exact condition). |
| Access.UserAccessValidator.IsOwnResource | src/main/java/dev/jonas/library/utils/UserAccessValidator.java:46-48 | A user owns only the target whose id equals its own. The current user always comes from the store, where it has an id, so the source's null-id `NullPointerException` cannot arise; the model answers false for an id-less user. |
| Access.UserAccessValidator.IsAdminOrSelf | src/main/java/dev/jonas/library/utils/UserAccessValidator.java:39-53 | Fails exactly when there is no current user. Otherwise it is true if and only if the user holds "ROLE_ADMIN" or has the target id. |
| Access.UserAccessValidator.IsAdminOrSelfByEmail | src/main/java/dev/jonas/library/utils/UserAccessValidator.java:55-61 | An unresolved principal fails as `getCurrentAuthenticatedUser` does, and an unknown target email fails with AccessDenied. When both resolve, the answer is the by-id check on the target's id. |
| Access.UserAccessValidator.ValidateUserAccess | src/main/java/dev/jonas/library/utils/UserAccessValidator.java:21-29 | Returns normally exactly when `isAdminOrSelf` would be true. Otherwise it fails with AccessDenied and the matching message. |
| Access.SelfAlwaysPasses | src/main/java/dev/jonas/library/utils/UserAccessValidator.java:46-52 | An authenticated user always passes the check for their own id. |
| Access.AdminOrSelfOnly | src/main/java/dev/jonas/library/utils/UserAccessValidator.java:21-53 | The check passes if and only if the user is an admin or the target. |
| Access.AdminMeansAdminRole | src/main/java/dev/jonas/library/utils/UserAccessValidator.java:39-44 | Being admin is exactly holding an assignment of a stored role named "ADMIN". |
| Users.UserService.GetAllUserDtos | src/main/java/dev/jonas/library/services/user/UserServiceImpl.java:38-43 | There is one user view per stored user, in table order. |
| Users.UserService.GetUserByEmail | src/main/java/dev/jonas/library/services/user/UserServiceImpl.java:45-51 | An unknown email fails with the lookup's error. Otherwise the user is returned exactly when the caller is admin or self, and else the call fails with AccessDenied. |
| Users.UserService.AddUser | src/main/java/dev/jonas/library/services/user/UserServiceImpl.java:56-60 | Exactly one user is appended. Its password is the input's, unencoded. |
| Users.UserService.ResolveChange | src/main/java/dev/jonas/library/services/user/UserServiceImpl.java:64-68 | The editor check never refuses an authenticated editor. An unknown target email or role name fails, in that order, before anything is written. |
| Users.UserService.AssignRole | src/main/java/dev/jonas/library/services/user/UserServiceImpl.java:63-84 | A failed resolution changes nothing. Otherwise the pair is stored afterwards. It is appended only when absent, and a present pair leaves the table unchanged without error. |
| Users.UserService.RemoveRole | src/main/java/dev/jonas/library/services/user/UserServiceImpl.java:88-100 | A failed resolution changes nothing. Otherwise exactly the (target, role) pair is removed and every other assignment stays. |
| Entities.NewUser | src/main/java/dev/jonas/library/entities/User.java:73-88 | Copies the six arguments, enables all four account flags, and starts with no failed attempt, no last attempt and no lock. |
| Entities.UserFromSetters | src/main/java/dev/jonas/library/services/auth/AuthServiceImpl.java:70-75 | The no-argument constructor plus the four setters: the given names, email and password, every account flag false, and no dates. |
| Entities.UserOnCreate | src/main/java/dev/jonas/library/entities/User.java:90-93 | The registration date becomes the persist time, and nothing else changes. |
| Entities.NewUserRole | src/main/java/dev/jonas/library/entities/UserRole.java:46-49 | Sets both ids and leaves the assignment date null. |
| Entities.UserRoleOnCreate | src/main/java/dev/jonas/library/entities/UserRole.java:52-55 | The assignment date becomes the persist time, and the key is kept. |
| Entities.UserRoleIdentity | src/main/java/dev/jonas/library/entities/UserRole.java:58-66 | Two assignments have the same key exactly when both ids agree. |
| Entities.NewLoan | src/main/java/dev/jonas/library/entities/Loan.java:39-49 | Sets user, book and both dates, with no id. The new loan is not returned. |
| Entities.IsReturned | src/main/java/dev/jonas/library/entities/Loan.java:47-49 | A loan without a return date is not returned, and a returned loan has a return date. |
| Stores.SaveUserRoleSpec | src/main/java/dev/jonas/library/repositories/UserRoleRepository.java:11-12 | Saving an assignment keeps keys unique. The assignment's key is then stored, and every other assignment stays. |
| Stores.UpsertSpec | src/main/java/dev/jonas/library/repositories/UserRepository.java:11 | JPA `save` as merge: afterwards the table keeps its id invariant, `findById` of the saved id gives the saved entity, and every other id finds what it found before. The table grows by one row exactly when the id was not stored. |
| Stores.UserRepository.Save | src/main/java/dev/jonas/library/repositories/UserRepository.java:11 | The new table, returned user and id counter are those of the merge (`Stores.UpsertSpec`): replace by id, or insert under the next id after `@PrePersist`. The id invariant holds afterwards. |
| Stores.AuthorRepository.Save | src/main/java/dev/jonas/library/repositories/AuthorRepository.java:11 | The new table, returned author and id counter are those of the merge: replace by id, or insert under the next id. The id invariant holds afterwards. |
| Stores.BookRepository.Save | src/main/java/dev/jonas/library/repositories/BookRepository.java:13 | The new table, returned book and id counter are those of the merge: replace by id, or insert under the next id. The id invariant holds afterwards. |
| Stores.LoanRepository.Save | src/main/java/dev/jonas/library/repositories/LoanRepository.java:11 | The new table, returned loan and id counter are those of the merge: replace by id, or insert under the next id. The id invariant holds afterwards. |
| Stores.UserRoleRepository.Save | src/main/java/dev/jonas/library/repositories/UserRoleRepository.java:11 | The new table is the merge by (user, role) key (`Stores.SaveUserRoleSpec`), and keys stay unique. |
| Stores.ByUserId | src/main/java/dev/jonas/library/repositories/UserRoleRepository.java:12 | `findByUserId`: an assignment is in the result exactly when it is stored and belongs to that user; the result is no longer than the table. |
| Stores.UserRoleRepository.FindByUserId | src/main/java/dev/jonas/library/repositories/UserRoleRepository.java:12 | An assignment is in the result exactly when it is stored and belongs to that user, and the result is no longer than the table. |
| Stores.UserRoleRepository.ExistsByUserIdAndRoleId | src/main/java/dev/jonas/library/services/user/UserServiceImpl.java:70-71 | Holds exactly when some stored assignment links that user to that role. |
| Stores.RefreshTokenRepository.Save | src/main/java/dev/jonas/library/repositories/RefreshTokenRepository.java:13 | The token is stored under its string, replacing any token with that string; every other token is unchanged. |
| Stores.UserRoleRepository.DeleteByUserIdAndRoleId | src/main/java/dev/jonas/library/services/user/UserServiceImpl.java:95 | Removes exactly the assignment with that key, and keys stay unique. |
| Stores.RefreshTokenRepository.DeleteByUser | src/main/java/dev/jonas/library/repositories/RefreshTokenRepository.java:17 | Removes exactly the user's tokens and returns how many there were. |
| Stores.OwnedBy | src/main/java/dev/jonas/library/repositories/RefreshTokenRepository.java:17 | The selection `deleteByUser` removes: exactly the stored tokens owned by that user. |
| Stores.ExpiredBefore | src/main/java/dev/jonas/library/repositories/RefreshTokenRepository.java:21 | `findAllByExpiryDateBefore`: exactly the stored tokens whose expiry lies strictly before the given instant. |
| Stores.RefreshTokenRepository.FindByToken | src/main/java/dev/jonas/library/repositories/RefreshTokenRepository.java:15 | Finds a token exactly when that string is stored, and then gives the token stored under it, whose own string is the one looked up. |
| Stores.RefreshTokenRepository.Delete | src/main/java/dev/jonas/library/services/auth/RefreshTokenServiceImpl.java:43 | `delete(token)`: exactly that token's entry is removed, and the table keeps its invariant. |
| Stores.RefreshTokenRepository.DeleteAll | src/main/java/dev/jonas/library/services/auth/RefreshTokenServiceImpl.java:72 | `deleteAll(list)`: exactly the given tokens are removed, and every other token stays. |
| Stores.ByEmailIgnoreCase | src/main/java/dev/jonas/library/repositories/UserRepository.java:13 | Gives the first stored user, in table order, whose email equals the given one up to case, or reports that none does (see the `Stores.ByEmailIgnoreCase` line under "Left out" for two matches). |
| Stores.ByRoleName | src/main/java/dev/jonas/library/repositories/RoleRepository.java:10 | Finds a stored role with exactly that name, or reports that none has it. |
| Loans.RowsOfUser | src/main/java/dev/jonas/library/repositories/LoanRepository.java:12 | Exactly the loans of that user are kept, in table order. |
| Loans.LoanService.FindAllLoans | src/main/java/dev/jonas/library/services/loan/LoanServiceImpl.java:63 | There is one loaded loan per stored loan, in table order, and each is stored back as its own row. |
| Loans.LoanService.GetAllLoanDtos | src/main/java/dev/jonas/library/services/loan/LoanServiceImpl.java:62-78 | There is exactly one view per loan, in repository order, with the simple book and user views. |
| Loans.LoanService.GetLoansByUserId | src/main/java/dev/jonas/library/services/loan/LoanServiceImpl.java:88-93 | One full view per loan of that user, in table order. Every view's user is that user. |
| Loans.LoanService.GetLoanById | src/main/java/dev/jonas/library/services/loan/LoanServiceImpl.java:102-105 | Fails with LoanNotFound exactly when the id is not stored. Otherwise it returns that loan's full view. |
| Loans.LoanService.LoanableFor | src/main/java/dev/jonas/library/services/loan/LoanServiceImpl.java:119-128 | A null user id, then a null book id, is a bad request before any fetch. Then an unknown user fails with UserNotFound, and only after that an unknown book with BookNotFound, each naming its id. A null copy count is a runtime fault (500), and zero or fewer copies fail with BookUnavailable. Success means both are stored and a copy is available. |
| Loans.LoanService.AddLoan | src/main/java/dev/jonas/library/services/loan/LoanServiceImpl.java:119-138 | A refused loan changes nothing: both tables and both id counters stay. An accepted one saves the book with one copy fewer by merge, so the book table keeps its order and its id counter and every other book is as it was. It appends one new open loan, borrowed today and due in 14 days, under the next loan id. |
| Loans.LoanService.InsertRow | src/main/java/dev/jonas/library/services/loan/LoanServiceImpl.java:136 | A new loan is appended under the next id, and that id finds it. |
| Loans.LoanService.ExtendLoan | src/main/java/dev/jonas/library/services/loan/LoanServiceImpl.java:151-162 | An unknown loan, or a returned one (LoanAlreadyReturned), is refused with the loan table and its id counter unchanged. An open loan is saved by merge in place with due date today + 14, counted from today, not from the old due date. Every other loan and the id counter stay. |
| Loans.LoanService.UpdateRow | src/main/java/dev/jonas/library/services/loan/LoanServiceImpl.java:160 | Saving a stored loan replaces that loan only, and leaves the id counter as it was. |
| Loans.LoanService.SaveKeepsLinks | src/main/java/dev/jonas/library/services/loan/LoanServiceImpl.java:160 | Saving a stored loan with unchanged links keeps every loan's user and book stored. It changes that loan only. |
| Loans.LoanService.ReturnLoan | src/main/java/dev/jonas/library/services/loan/LoanServiceImpl.java:172-184 | An unknown loan, or a returned one (LoanAlreadyReturned), is refused, and both tables and both id counters stay. Otherwise the loan is saved in place with returnedDate = today and the book saved in place with one copy more; all other rows and both id counters stay. A null count rolls everything back. |
| Loans.LoanService.ReturnOpen | src/main/java/dev/jonas/library/services/loan/LoanServiceImpl.java:179-183 | An open loan is saved in place as returned today, and its book saved in place with one copy more; both id counters stay. A null count rolls the whole call back, leaving both tables and counters. |
| Loans.LoanService.MarkReturned | src/main/java/dev/jonas/library/services/loan/LoanServiceImpl.java:182-183 | The loan table becomes the in-place merge of the loan with returnedDate = today; its length and id counter stay, and every other loan is as it was. |
| Loans.LoanService.GiveBack | src/main/java/dev/jonas/library/services/loan/LoanServiceImpl.java:180 | The book table becomes the in-place merge of the book with one copy more; its id counter stays and every other book is as it was. With a null count nothing changes. |
| Loans.LoanService.BorrowThenReturn | src/main/java/dev/jonas/library/services/loan/LoanServiceImpl.java:119-184 | A successful loan followed by its return leaves the book exactly as it was. |
| Loans.LoanService.ReturnTwice | src/main/java/dev/jonas/library/services/loan/LoanServiceImpl.java:172-184 | A second return of the same loan always fails. After a first success the failure is LoanAlreadyReturned. |
| Books.ChooseQuery | src/main/java/dev/jonas/library/services/book/BookServiceImpl.java:34-48 | The listing uses findAll exactly when both title and author are null or blank. Otherwise it searches with both filters as given. |
| Books.SearchBooksSimple | src/main/java/dev/jonas/library/services/book/BookServiceImpl.java:50-61 | It is refused (400) exactly when both parameters are null or blank. Otherwise it gives one detail view per search result, in order. |
| Books.TakeCopy | src/main/java/dev/jonas/library/services/book/BookServiceImpl.java:73-82 | Succeeds exactly when the count is positive; a count of 0 or less fails with BookUnavailable. The count drops by exactly one, never below 0, and nothing else changes. |
| Books.ReturnCopy | src/main/java/dev/jonas/library/services/book/BookServiceImpl.java:84-89 | The count rises by exactly one, and nothing else changes. |
| Books.ReturnUndoesTake | src/main/java/dev/jonas/library/services/book/BookServiceImpl.java:73-89 | Returning a copy that was taken restores the book exactly. |
| Books.TakeUndoesReturn | src/main/java/dev/jonas/library/services/book/BookServiceImpl.java:73-89 | Taking a copy after one came back restores the book exactly. |
| Books.ReturnIgnoresTotal | src/main/java/dev/jonas/library/services/book/BookServiceImpl.java:84-89 | Nothing caps the count against the total copies. |
| Books.BookService.DecrementAvailableCopies | src/main/java/dev/jonas/library/services/book/BookServiceImpl.java:73-82 | An unknown book, or no copy left (BookUnavailable), is refused, and the table is unchanged. Otherwise only that book's count drops by one. |
| Books.BookService.IncrementAvailableCopies | src/main/java/dev/jonas/library/services/book/BookServiceImpl.java:84-89 | An unknown book is refused with the table unchanged. Otherwise only that book's count rises by one. |
| Books.BookService.AddBook | src/main/java/dev/jonas/library/services/book/BookServiceImpl.java:63-70 | It succeeds exactly when the author is stored; otherwise it fails with AuthorNotFound and nothing changes. On success exactly one book carrying the input's fields is appended. |
| Books.AddedBook | src/main/java/dev/jonas/library/mappers/DtoToEntityMapper.java:46-54 | The inserted book carries the input's title, year and counts, the chosen author, and the new id. |
| Books.SaveNewBook | src/main/java/dev/jonas/library/services/book/BookServiceImpl.java:66-67 | A new book is appended under the next id. |
| LegacyBooks.ValidateBookInput | src/main/java/dev/jonas/library/services/BookServiceImpl.java:97-101 | The input passes exactly when the title is not blank, the author id is not null, and total copies, available copies and publication year are positive. Checks run in that order, the first failure is reported, and each failure is a 400. |
| LegacyBooks.LegacyBookService.AddBook | src/main/java/dev/jonas/library/services/BookServiceImpl.java:96-117 | An invalid input is refused before any lookup. An unknown author fails with AuthorNotFound. Otherwise exactly one book is appended, with positive copies and year. |
| Authors.AuthorsByLastName | src/main/java/dev/jonas/library/repositories/AuthorRepository.java:13 | Keeps exactly the authors whose last name contains the keyword, ignoring case, and never more authors than there were. |
| Authors.EmptyKeywordKeepsNamed | src/main/java/dev/jonas/library/repositories/AuthorRepository.java:13 | The empty keyword keeps exactly the authors with a last name. |
| Authors.ValidateAuthorInput | src/main/java/dev/jonas/library/services/author/AuthorServiceImpl.java:72-77 | The input passes exactly when the first name, last name and nationality are not blank and the birth year is positive. Checks run first name, last name, birth year, nationality, and the first failure (a 400) is reported. |
| Authors.AddedAuthor | src/main/java/dev/jonas/library/mappers/DtoToEntityMapper.java:28-35 | The inserted author carries the input's four fields and the new id. |
| Authors.AuthorService.GetAllAuthorDtos | src/main/java/dev/jonas/library/services/author/AuthorServiceImpl.java:42-46 | There is one author view per stored author, in order. |
| Authors.AuthorService.GetAuthorsByLastName | src/main/java/dev/jonas/library/services/author/AuthorServiceImpl.java:55-61 | Gives the views of the matching authors, in order. Each view's last name contains the keyword. |
| Authors.AuthorService.AddAuthor | src/main/java/dev/jonas/library/services/author/AuthorServiceImpl.java:72-81 | An invalid input is refused with the table unchanged. Otherwise exactly one author carrying the input's fields is appended, and its view is returned. |
| Validation.RequireAtLeastOneSearchParam | src/main/java/dev/jonas/library/utils/InputValidator.java:14-21 | Fails (400) exactly when both title and author are null or blank. |
| Validation.RequireNonNull | src/main/java/dev/jonas/library/utils/InputValidator.java:25-31 | Fails with "must not be null" exactly when the value is null. |
| Validation.RequireNonNullId | src/main/java/dev/jonas/library/utils/InputValidator.java:35-42 | Fails exactly when the id is null, with the same error as `requireNonNull`. |
| Validation.RequireNonBlank | src/main/java/dev/jonas/library/utils/InputValidator.java:46-53 | Fails with "must not be blank" exactly when the value is null or whitespace only. |
| Validation.RequirePositive | src/main/java/dev/jonas/library/utils/InputValidator.java:57-70 | Null fails with "must not be null" and a value of 0 or less with "must be greater than 0". It passes exactly otherwise. |
| Validation.FailuresAreBadRequests | src/main/java/dev/jonas/library/utils/InputValidator.java:14-53 | Every validator failure is answered with 400. |
| Fetch.GetAuthorOrThrow | src/main/java/dev/jonas/library/utils/EntityFetcher.java:18-22 | Returns the author `findById` returns exactly when the id is present. Otherwise it fails with AuthorNotFound, naming the id. |
| Fetch.GetBookOrThrow | src/main/java/dev/jonas/library/utils/EntityFetcher.java:24-28 | Returns the stored book exactly when the id is present. Otherwise it fails with BookNotFound, naming the id. |
| Fetch.GetUserOrThrow | src/main/java/dev/jonas/library/utils/EntityFetcher.java:30-33 | Returns the stored user exactly when the id is present. Otherwise it fails with UserNotFound, naming the id. |
| Fetch.GetUserByEmailOrThrow | src/main/java/dev/jonas/library/utils/EntityFetcher.java:35-42 | A null or "anonymousUser" email is refused before the lookup. Otherwise the lookup ignores case, and a missing user fails with UserNotFound. |
| Fetch.GetLoanOrThrow | src/main/java/dev/jonas/library/utils/EntityFetcher.java:44-48 | Returns the stored loan exactly when the id is present. Otherwise it fails with LoanNotFound, naming the id. |
| Fetch.GetRoleOrThrow | src/main/java/dev/jonas/library/utils/EntityFetcher.java:50-53 | Resolves a role by exact name. A null or absent name fails with RoleNotFound. |
| Mappers.MapToAuthorDto | src/main/java/dev/jonas/library/mappers/EntityToDtoMapper.java:26-34 | Copies all five author fields. |
| Mappers.AuthorNameSplits | src/main/java/dev/jonas/library/mappers/EntityToDtoMapper.java:47 | The author name shown splits back into the first name, one space, and the last name. |
| Mappers.MapToBookDetailsDto | src/main/java/dev/jonas/library/mappers/EntityToDtoMapper.java:44-53 | Copies id, title, year, total and available copies. The author name is the first name, a space, and the last name. |
| Mappers.MapToBookDetailsDtoSimple | src/main/java/dev/jonas/library/mappers/EntityToDtoMapper.java:64-73 | Keeps only id and title; the other four fields are null. |
| Mappers.SimpleBookDtoIsTruncated | src/main/java/dev/jonas/library/mappers/EntityToDtoMapper.java:44-73 | The simple book view is the full view with the four other fields nulled. |
| Mappers.MapToUserDto | src/main/java/dev/jonas/library/mappers/EntityToDtoMapper.java:103-111 | Copies id, names, email and registration date. |
| Mappers.MapToUserDtoSimple | src/main/java/dev/jonas/library/mappers/EntityToDtoMapper.java:122-130 | Equals the full user view without the registration date. |
| Mappers.UserDtoHidesSecrets | src/main/java/dev/jonas/library/mappers/EntityToDtoMapper.java:103-130 | Two users that agree on the shown fields have the same views, whatever their passwords, flags and lockout state. |
| Mappers.MapToLoanDto | src/main/java/dev/jonas/library/mappers/EntityToDtoMapper.java:84-93 | Copies the loan id and the three dates, and nests the full book and user views. |
| Mappers.MapToLoanDtoSimple | src/main/java/dev/jonas/library/services/loan/LoanServiceImpl.java:66-74 | The listing's loan view is the full one with the simple book and user views. |
| Mappers.MapToAuthorEntity | src/main/java/dev/jonas/library/mappers/DtoToEntityMapper.java:28-35 | Copies the four author fields, with no id. |
| Mappers.MapToBookEntity | src/main/java/dev/jonas/library/mappers/DtoToEntityMapper.java:46-54 | Copies title, year, available and total copies, and attaches the given author, with no id. |
| Mappers.MapToLoanEntity | src/main/java/dev/jonas/library/mappers/DtoToEntityMapper.java:67-75 | Links the given user and book, borrowed today, due today + 14, and not returned. |
| Mappers.MapToUserEntity | src/main/java/dev/jonas/library/mappers/DtoToEntityMapper.java:85-92 | Copies names, email and the password verbatim, with no hashing. |
| Mappers.LoanEntityIgnoresDto | src/main/java/dev/jonas/library/mappers/DtoToEntityMapper.java:67-75 | Nothing is read from the request: any two requests give the same loan. |
| Mappers.NewLoanDtoPeriod | src/main/java/dev/jonas/library/mappers/DtoToEntityMapper.java:67-75 | A new loan's view is open and due 14 days after it was borrowed. |
| Mappers.AuthorRoundTrip | src/main/java/dev/jonas/library/mappers/DtoToEntityMapper.java:28-35 | An author built from an input shows the input's fields back. |
| Mappers.BookRoundTrip | src/main/java/dev/jonas/library/mappers/DtoToEntityMapper.java:46-54 | A book built from an input shows the input's fields and the author's name. |
| Mappers.UserRoundTrip | src/main/java/dev/jonas/library/mappers/DtoToEntityMapper.java:85-92 | A user built from an input shows the input's names and email, and no password. |
| Errors.Status | src/main/java/dev/jonas/library/exceptions/GlobalExceptionHandler.java:25-130 | The not-found kinds give 404. LoanAlreadyReturned, validation and BookUnavailable give 400. InvalidCredentials and TokenExpired give 401, both AccessDenied kinds 403, EmailAlreadyUsed 409 and AccountLocked 423. A status exception keeps its code, and everything else gives 500. |
| Errors.OnlyNamedKindsEscape500 | src/main/java/dev/jonas/library/exceptions/GlobalExceptionHandler.java:119-130 | An answer is 500 exactly for the unnamed kinds (the plain runtime exceptions of login, register and refresh among them) and for a status exception carrying 500. |
| Errors.RenderFieldErrors | src/main/java/dev/jonas/library/exceptions/GlobalExceptionHandler.java:62-71 | Each field error becomes "field: message", in order. |
| Errors.ValidationMessage | src/main/java/dev/jonas/library/exceptions/GlobalExceptionHandler.java:62-71 | No field error gives the empty message, and otherwise the message starts with the first field error's "field: message". |
| Errors.ValidationMessageSnoc | src/main/java/dev/jonas/library/exceptions/GlobalExceptionHandler.java:62-71 | No errors give the empty message and one error gives "field: message". Each further error appends "; " and its rendering. |
| Errors.Handle | src/main/java/dev/jonas/library/exceptions/GlobalExceptionHandler.java:25-130 | The answer has the kind's status. It sends the fixed text for a missing endpoint and the exception's message otherwise. |
| Errors.HandleValidation | src/main/java/dev/jonas/library/exceptions/GlobalExceptionHandler.java:57-71 | A failed bean validation answers 400 with the joined field errors. |
| Text.TrimSpec | src/main/java/dev/jonas/library/security/RateLimitingFilter.java:36 | `trim` returns the infix of the text that starts and ends with a character above U+0020. Only such low characters are dropped around it. |
| Text.TrimIdempotent | src/main/java/dev/jonas/library/security/RateLimitingFilter.java:36 | Trimming twice is trimming once. |
| Text.Trim | src/main/java/dev/jonas/library/security/RateLimitingFilter.java:36 | The result is no longer than the text, and a non-empty result neither starts nor ends with a character at or below U+0020. |
| Text.SplitCommaFirst | src/main/java/dev/jonas/library/security/RateLimitingFilter.java:36 | `split(",")` of a non-empty header has no element exactly when the header is commas only. Otherwise its first element is the text before the first comma. |
| Text.SplitComma | src/main/java/dev/jonas/library/security/RateLimitingFilter.java:36 | No element contains a comma, and a text without a comma gives at least one element. |
| Text.IsBlank | src/main/java/dev/jonas/library/utils/InputValidator.java:47 | The empty string is blank, and a string holding any printable ASCII character other than the space is not. |
| RateLimit.NewBucket | src/main/java/dev/jonas/library/security/RateLimitingFilter.java:26-31 | A new bucket allows 10 requests per minute and has handed out none. |
| RateLimit.ClientIdentifier | src/main/java/dev/jonas/library/security/RateLimitingFilter.java:33-45 | A non-empty X-Forwarded-For gives the trimmed text before its first comma. A header of commas only throws. Otherwise a non-empty X-Real-IP is returned untrimmed, and otherwise the remote address. |
| RateLimit.Charge | src/main/java/dev/jonas/library/security/RateLimitingFilter.java:65-76 | The cache gains the client only if unseen, and every other bucket is unchanged. A granted request is forwarded and takes one token. A refused one gets 429 with the JSON body, and its bucket is unchanged. |
| RateLimit.ChargeSeenAddsNothing | src/main/java/dev/jonas/library/security/RateLimitingFilter.java:65-66 | A client seen before adds no cache entry: its bucket is reused. |
| RateLimit.TwoRequestsShareBucket | src/main/java/dev/jonas/library/security/RateLimitingFilter.java:65-70 | A new client's first two requests share one 10-token bucket, which has handed out one token per forwarded request. |
| RateLimit.RateLimitingFilter.DoFilter | src/main/java/dev/jonas/library/security/RateLimitingFilter.java:48-77 | An authenticated, non-anonymous request is forwarded and touches no bucket. A failed client identification throws with the cache unchanged. Otherwise the client is charged against the cache. |

## Left out

- The JWT signing and parsing of `JwtUtil` is left out because it is a library call. The access token is the record of the claims it carries: subject, roles, issue time and expiry. There is no signature and no parsing.
- BCrypt is left out because it is a foreign library: the password encoder is a parameter, a pair of `encode` and `matches` functions. A property that needs `matches(p, encode(p))` assumes it as a precondition (`Auth.Sound`).
- `StringEncryptionConverter` is left out because it is foreign cryptography. The AES column encryption of `password` and `nationalId` is not modelled; each column is a plain value.
- `LocalDateTimeConverter` is left out because it only formats dates. Times are plain integers (milliseconds, or day numbers for dates).
- Concurrency and transactions are out of scope. This covers `ConcurrentHashMap` atomicity, `@Transactional` isolation, and rollbacks except the one place where a failure after a write would roll that write back in `returnLoan` (a null copy count).
- Bucket4j is left out because it is a foreign library. The refill and consume arithmetic is replaced by a `grants` decision passed in. The bucket records only its limit and how many tokens it has handed out.
- JPQL queries and paging are left out because they are database code. The search and paging queries of `BookRepository` are not modelled: `getBooksFilteredAndPaged` is modelled up to its choice of query, and `searchBooksSimple` takes the query's results as a parameter.
- Database constraints are not modelled, because the code never tests them: unique emails, not-null columns and foreign keys. Only the invariants the services maintain are kept. The one exception is `Book.author`, which the model always fills (see the `Mappers.MapToBookDetailsDto` line).
- Case folding is ASCII upper-casing only, because the database collation is not part of the repository. It stands in for the repositories' `IgnoreCase` (SQL `upper`).
- Runtime exception messages are left out because they come from the JDK, not the repository. A null unboxed, a null id given to `findById` and an array index out of bounds all fail with one unclassified error (`Errors.RUNTIME_FAULT`) and an empty message.
- Java's 64-bit `long` wrap-around for ids and counters is not modelled, because no reachable number of rows reaches it. Integers are unbounded.
- Logging is left out because it has no effect on state.
- Controllers and `SecurityConfig` are left out because they are routing and filter-chain configuration with no logic of their own. The principal's name, which the controllers and security context supply, is a parameter.
- Errors.Status: gives one kind per exception class name. `GlobalExceptionHandler` sits in package `exceptions` and imports only `exceptions.auth.*`, so its not-found, role-not-found and book-unavailable handlers name the classes of `exceptions`. `EntityFetcher` and `services/book/BookServiceImpl.java` throw the same-named classes of `exceptions.api` and `exceptions.security`, which are not part of this model. The table assumes each of them extends its namesake in `exceptions`; otherwise those failures reach the catch-all handler and answer 500 instead of 404 or 400.
- Users.UserService.GetUserByEmail, Users.UserService.ResolveChange, Users.UserService.AssignRole and Users.UserService.RemoveRole: `UserServiceImpl` uses `security.UserAccessValidator`, which is not part of this model. These members call `Access.UserAccessValidator`, the model of `utils/UserAccessValidator.java`, and so assume the two classes behave alike.
- Mappers.MapToBookDetailsDto: `Book.author` is a nullable `@ManyToOne` in the source, but every modelled book has an author. The source's `NullPointerException` (answered 500) for an authorless book is therefore not represented.
- Books.SearchBooksSimple: for the same reason, the 500 that an authorless book among the query results would cause is not represented.
- Stores.ByEmailIgnoreCase: returns the first match, where Spring Data's `Optional` query throws `IncorrectResultSizeDataAccessException` when two rows match. Two rows can match here, because emails are not unique in the model and `Users.UserService.AddUser` stores a user without checking its email.
- The `RefreshToken` entity and the custom exception classes are not part of this model. The token is a record of its string, its owner's id and its expiry. Exceptions are an error kind plus a message.
- `LoginAttemptService` is not wired into login, because the code never calls it there. `lastLoginAttempt` is never written by the code and is only carried along.
- Loans are stored as rows holding the user's and book's ids. A loan is read back by joining with the current rows. The model therefore does not capture a loaded entity that is stale against its own table.
- Repeated calls to `MapRolesToAuthorities` on an unchanged store give equal results. This holds because the member is a function of the stores it reads; no separate lemma states it.
