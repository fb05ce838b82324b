/** The persistent entities as values, their constructors and life-cycle hooks.
    Timestamps (`LocalDateTime`) are milliseconds, dates (`LocalDate`) day numbers;
    a generated id is `None` until the entity is first saved. */
module Entities {
  import opened Wrappers

  type Instant = int
  type Day = int

  const MILLIS_PER_MINUTE := 60 * 1000
  const MILLIS_PER_HOUR := 60 * MILLIS_PER_MINUTE
  const MILLIS_PER_DAY := 24 * MILLIS_PER_HOUR

  datatype User = User(
    userId: Option<int>,
    email: string,
    firstName: string,
    lastName: string,
    password: string,
    nationalId: Option<string>,
    registrationDate: Option<Instant>,
    enabled: bool,
    accountNonExpired: bool,
    accountNonLocked: bool,
    credentialsNonExpired: bool,
    failedLoginAttempts: int,
    lastLoginAttempt: Option<Instant>,
    lockedUntil: Option<Instant>)

  /** The six-argument constructor: copies its arguments, enables the account in
      all four respects, and starts with no failed attempt and no lock. */
  function NewUser(firstName: string, lastName: string, email: string, password: string,
                   nationalId: Option<string>, registrationDate: Option<Instant>): (u: User)
    ensures u.userId.None?
    ensures u.firstName == firstName && u.lastName == lastName && u.email == email
    ensures u.password == password && u.nationalId == nationalId && u.registrationDate == registrationDate
    ensures u.enabled && u.accountNonExpired && u.accountNonLocked && u.credentialsNonExpired
    ensures u.failedLoginAttempts == 0 && u.lastLoginAttempt.None? && u.lockedUntil.None?
  {
    User(None, email, firstName, lastName, password, nationalId, registrationDate,
         true, true, true, true, 0, None, None)
  }

  /** The no-argument constructor followed by the four setters that registration and
      the user mapper call: the account flags keep Java's default `false`, the
      national id and the registration date stay null. */
  function UserFromSetters(firstName: string, lastName: string, email: string, password: string): (u: User)
    ensures u.userId.None? && u.nationalId.None? && u.registrationDate.None?
    ensures u.firstName == firstName && u.lastName == lastName && u.email == email && u.password == password
    ensures !u.enabled && !u.accountNonExpired && !u.accountNonLocked && !u.credentialsNonExpired
    ensures u.failedLoginAttempts == 0 && u.lastLoginAttempt.None? && u.lockedUntil.None?
  {
    User(None, email, firstName, lastName, password, None, None,
         false, false, false, false, 0, None, None)
  }

  /** `@PrePersist onCreate`: the registration date becomes the persist time,
      whatever it was; nothing else changes. */
  function UserOnCreate(u: User, now: Instant): (v: User)
    ensures v.registrationDate == Some(now)
    ensures v.(registrationDate := u.registrationDate) == u
  {
    u.(registrationDate := Some(now))
  }

  datatype Role = Role(roleId: int, roleName: string, createdDate: Instant)

  /** The identity of a role assignment: equality is structural on both ids. */
  datatype UserRoleId = UserRoleId(userId: int, roleId: int)

  datatype UserRole = UserRole(userId: int, roleId: int, assignedDate: Option<Instant>) {
    function Key(): UserRoleId {
      UserRoleId(userId, roleId)
    }
  }

  /** The two-argument constructor sets both ids and leaves the date null. */
  function NewUserRole(userId: int, roleId: int): (ur: UserRole)
    ensures ur.Key() == UserRoleId(userId, roleId)
    ensures ur.assignedDate.None?
  {
    UserRole(userId, roleId, None)
  }

  /** `@PrePersist onCreate`: the assignment date becomes the persist time. */
  function UserRoleOnCreate(ur: UserRole, now: Instant): (v: UserRole)
    ensures v.Key() == ur.Key() && v.assignedDate == Some(now)
  {
    ur.(assignedDate := Some(now))
  }

  /** Two assignments are the same row exactly when both ids agree. */
  lemma UserRoleIdentity(a: UserRole, b: UserRole)
    ensures a.Key() == b.Key() <==> a.userId == b.userId && a.roleId == b.roleId
  {
  }

  datatype Author = Author(
    authorId: Option<int>,
    firstName: Option<string>,
    lastName: Option<string>,
    birthYear: Option<int>,
    nationality: Option<string>)

  datatype Book = Book(
    bookId: Option<int>,
    title: Option<string>,
    author: Author,
    publicationYear: Option<int>,
    availableCopies: Option<int>,
    totalCopies: Option<int>)

  /** Borrowed and due dates are mandatory columns and user and book mandatory
      relations, so the types carry no null for them. */
  datatype Loan = Loan(
    loanId: Option<int>,
    borrowedDate: Day,
    dueDate: Day,
    returnedDate: Option<Day>,
    user: User,
    book: Book)

  /** The four-argument constructor: no id yet, and not returned. */
  function NewLoan(user: User, book: Book, borrowedDate: Day, dueDate: Day): (l: Loan)
    ensures l.user == user && l.book == book
    ensures l.borrowedDate == borrowedDate && l.dueDate == dueDate
    ensures l.loanId.None? && !IsReturned(l)
  {
    Loan(None, borrowedDate, dueDate, None, user, book)
  }

  /** Returned once a return date is set. */
  predicate IsReturned(l: Loan)
    ensures l.returnedDate.None? ==> !IsReturned(l)
    ensures IsReturned(l) ==> l.returnedDate.Some?
  {
    l.returnedDate.Some?
  }

  /** A refresh token row: the opaque token string, its owner and its expiry. */
  datatype RefreshToken = RefreshToken(token: string, userId: int, expiryDate: Instant)
}
