/** The lookup-or-throw helpers: each returns the stored entity or fails with that
    entity's not-found error and a message naming the key. */
module Fetch {
  import opened Wrappers
  import opened Text
  import opened Errors
  import opened Entities
  import opened Stores

  /** The principal name Spring gives an unauthenticated request. */
  const ANONYMOUS_USER := "anonymousUser"

  function GetAuthorOrThrow(id: int, repo: AuthorRepository): (r: Fallible<Author>)
    reads repo
    ensures r.Success? <==> repo.FindById(id).Some?
    ensures r.Success? ==> Some(r.value) == repo.FindById(id) && r.value in repo.rows && r.value.authorId == Some(id)
    ensures r.Failure? ==> r.error == Error(AuthorNotFound, "Author with ID " + IntToString(id) + " not found")
  {
    match repo.FindById(id)
    case Some(a) => Success(a)
    case None => Failure(Error(AuthorNotFound, "Author with ID " + IntToString(id) + " not found"))
  }

  function GetBookOrThrow(id: int, repo: BookRepository): (r: Fallible<Book>)
    reads repo
    ensures r.Success? <==> repo.FindById(id).Some?
    ensures r.Success? ==> Some(r.value) == repo.FindById(id) && r.value.bookId == Some(id)
    ensures r.Failure? ==> r.error == Error(BookNotFound, "Book with ID " + IntToString(id) + " not found")
  {
    match repo.FindById(id)
    case Some(b) => Success(b)
    case None => Failure(Error(BookNotFound, "Book with ID " + IntToString(id) + " not found"))
  }

  function GetUserOrThrow(id: int, repo: UserRepository): (r: Fallible<User>)
    reads repo
    ensures r.Success? <==> repo.FindById(id).Some?
    ensures r.Success? ==> Some(r.value) == repo.FindById(id) && r.value.userId == Some(id)
    ensures r.Failure? ==> r.error == Error(UserNotFound, "User with ID " + IntToString(id) + " not found")
  {
    match repo.FindById(id)
    case Some(u) => Success(u)
    case None => Failure(Error(UserNotFound, "User with ID " + IntToString(id) + " not found"))
  }

  /** By email: a missing or anonymous principal is refused before the lookup,
      which ignores case. */
  function GetUserByEmailOrThrow(email: Option<string>, repo: UserRepository): (r: Fallible<User>)
    reads repo
    ensures email.None? || email == Some(ANONYMOUS_USER) ==> r == Failure(Error(UserNotFound, "No such user found"))
    ensures r.Success? <==>
      email.Some? && email.value != ANONYMOUS_USER && repo.FindByEmailIgnoreCase(email.value).Some?
    ensures r.Success? ==> r.value in repo.rows && EqualsIgnoreCase(r.value.email, email.value)
    ensures r.Failure? && email.Some? && email.value != ANONYMOUS_USER ==>
      r.error == Error(UserNotFound, "User with email " + email.value + " not found")
  {
    if email.None? || email.value == ANONYMOUS_USER then Failure(Error(UserNotFound, "No such user found"))
    else match repo.FindByEmailIgnoreCase(email.value)
      case Some(u) => Success(u)
      case None => Failure(Error(UserNotFound, "User with email " + email.value + " not found"))
  }

  function GetLoanOrThrow(id: int, repo: LoanRepository): (r: Fallible<LoanRow>)
    reads repo
    ensures r.Success? <==> repo.FindById(id).Some?
    ensures r.Success? ==> Some(r.value) == repo.FindById(id) && r.value.loanId == Some(id)
    ensures r.Failure? ==> r.error == Error(LoanNotFound, "Loan with ID " + IntToString(id) + " not found")
  {
    match repo.FindById(id)
    case Some(l) => Success(l)
    case None => Failure(Error(LoanNotFound, "Loan with ID " + IntToString(id) + " not found"))
  }

  /** By exact name; a null name matches no role. */
  function GetRoleOrThrow(name: Option<string>, repo: RoleRepository): (r: Fallible<Role>)
    reads repo
    ensures r.Success? <==> name.Some? && repo.FindByRoleName(name.value).Some?
    ensures r.Success? ==> r.value in repo.rows && r.value.roleName == name.value
    ensures r.Failure? ==> r.error == Error(RoleNotFound, "Role with name " + Str(name) + " not found")
  {
    if name.None? then Failure(Error(RoleNotFound, "Role with name null not found"))
    else match repo.FindByRoleName(name.value)
      case Some(role) => Success(role)
      case None => Failure(Error(RoleNotFound, "Role with name " + name.value + " not found"))
  }
}
