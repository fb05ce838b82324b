/** The static mappers between entities and transfer objects, in both directions. */
module Mappers {
  import opened Wrappers
  import opened Text
  import opened Entities
  import opened Dtos

  /** Length of a loan, in days, wherever one is opened or extended. */
  const LOAN_PERIOD_DAYS := 14

  // ============================================================ entity to DTO

  function MapToAuthorDto(a: Author): (d: AuthorDto)
    ensures d.authorId == a.authorId && d.firstName == a.firstName && d.lastName == a.lastName
    ensures d.birthYear == a.birthYear && d.nationality == a.nationality
  {
    AuthorDto(a.authorId, a.firstName, a.lastName, a.birthYear, a.nationality)
  }

  /** `firstName + " " + lastName`; a null name is written "null". */
  function AuthorName(a: Author): string {
    Str(a.firstName) + " " + Str(a.lastName)
  }

  /** The displayed name splits back into the two names around the inserted space. */
  lemma AuthorNameSplits(a: Author)
    ensures var n, f := AuthorName(a), Str(a.firstName);
      && |n| == |f| + 1 + |Str(a.lastName)|
      && n[..|f|] == f && n[|f|] == ' ' && n[|f| + 1..] == Str(a.lastName)
  {
    var n, f := AuthorName(a), Str(a.firstName);
    assert n == f + (" " + Str(a.lastName));
  }

  function MapToBookDetailsDto(b: Book): (d: BookDetailsDto)
    ensures d.bookId == b.bookId && d.title == b.title && d.authorName == Some(AuthorName(b.author))
    ensures d.publicationYear == b.publicationYear
    ensures d.totalCopies == b.totalCopies && d.availableCopies == b.availableCopies
  {
    BookDetailsDto(b.bookId, b.title, Some(AuthorName(b.author)), b.publicationYear,
                   b.totalCopies, b.availableCopies)
  }

  function MapToBookDetailsDtoSimple(b: Book): (d: BookDetailsDto)
    ensures d.bookId == b.bookId && d.title == b.title
    ensures d.authorName.None? && d.publicationYear.None? && d.totalCopies.None? && d.availableCopies.None?
  {
    BookDetailsDto(b.bookId, b.title, None, None, None, None)
  }

  /** The simple book view is the full one with everything but id and title nulled. */
  lemma SimpleBookDtoIsTruncated(b: Book)
    ensures MapToBookDetailsDtoSimple(b)
      == MapToBookDetailsDto(b).(authorName := None, publicationYear := None,
                                 totalCopies := None, availableCopies := None)
  {
  }

  function MapToUserDto(u: User): (d: UserDto)
    ensures d.userId == u.userId && d.firstName == u.firstName && d.lastName == u.lastName
    ensures d.email == u.email && d.registrationDate == u.registrationDate
  {
    UserDto(u.userId, u.firstName, u.lastName, u.email, u.registrationDate)
  }

  function MapToUserDtoSimple(u: User): (d: UserDto)
    ensures d == MapToUserDto(u).(registrationDate := None)
  {
    UserDto(u.userId, u.firstName, u.lastName, u.email, None)
  }

  /** A user's view leaks nothing but id, names, email and registration date: two
      users that agree on these look the same, whatever their passwords, national
      ids, account flags and lockout state. */
  lemma UserDtoHidesSecrets(u: User, v: User)
    requires u.userId == v.userId && u.firstName == v.firstName && u.lastName == v.lastName
    requires u.email == v.email && u.registrationDate == v.registrationDate
    ensures MapToUserDto(u) == MapToUserDto(v)
    ensures MapToUserDtoSimple(u) == MapToUserDtoSimple(v)
  {
  }

  function MapToLoanDto(l: Loan): (d: LoanDto)
    ensures d.loanId == l.loanId && d.book == MapToBookDetailsDto(l.book) && d.user == MapToUserDto(l.user)
    ensures d.borrowedDate == l.borrowedDate && d.dueDate == l.dueDate && d.returnedDate == l.returnedDate
  {
    LoanDto(l.loanId, MapToBookDetailsDto(l.book), MapToUserDto(l.user),
            l.borrowedDate, l.dueDate, l.returnedDate)
  }

  /** The loan view that lists all loans: simple book and user views. */
  function MapToLoanDtoSimple(l: Loan): (d: LoanDto)
    ensures d == MapToLoanDto(l).(book := MapToBookDetailsDtoSimple(l.book), user := MapToUserDtoSimple(l.user))
  {
    LoanDto(l.loanId, MapToBookDetailsDtoSimple(l.book), MapToUserDtoSimple(l.user),
            l.borrowedDate, l.dueDate, l.returnedDate)
  }

  // ============================================================ DTO to entity

  /** A fresh author from the input; the input's id is not read. */
  function MapToAuthorEntity(i: AuthorInput): (a: Author)
    ensures a.authorId.None?
    ensures a.firstName == i.firstName && a.lastName == i.lastName
    ensures a.birthYear == i.birthYear && a.nationality == i.nationality
  {
    Author(None, i.firstName, i.lastName, i.birthYear, i.nationality)
  }

  /** A fresh book from the input, attached to `author`; the input's author id is
      not read (the caller resolves it). The no-argument constructor's default of
      one copy is overwritten by the setters, with null if the input has none. */
  function MapToBookEntity(i: BookInput, author: Author): (b: Book)
    ensures b.bookId.None? && b.author == author
    ensures b.title == i.title && b.publicationYear == i.publicationYear
    ensures b.availableCopies == i.availableCopies && b.totalCopies == i.totalCopies
  {
    Book(None, i.title, author, i.publicationYear, i.availableCopies, i.totalCopies)
  }

  /** A fresh open loan of `book` by `user`, borrowed today and due in 14 days. */
  function MapToLoanEntity(dto: LoanCreate, user: User, book: Book, today: Day): (l: Loan)
    ensures l == NewLoan(user, book, today, today + LOAN_PERIOD_DAYS)
  {
    Loan(None, today, today + LOAN_PERIOD_DAYS, None, user, book)
  }

  /** Only the four setters run: the password is copied as given, not encoded. */
  function MapToUserEntity(i: UserInput): (u: User)
    ensures u == UserFromSetters(i.firstName, i.lastName, i.email, i.password)
    ensures u.password == i.password
  {
    UserFromSetters(i.firstName, i.lastName, i.email, i.password)
  }

  // ============================================================ round trips

  /** The loan mapper reads nothing from the request: any two requests give the
      same loan. */
  lemma LoanEntityIgnoresDto(d1: LoanCreate, d2: LoanCreate, user: User, book: Book, today: Day)
    ensures MapToLoanEntity(d1, user, book, today) == MapToLoanEntity(d2, user, book, today)
  {
  }

  /** A new loan appears open and due fourteen days after it was borrowed. */
  lemma NewLoanDtoPeriod(dto: LoanCreate, user: User, book: Book, today: Day)
    ensures var d := MapToLoanDto(MapToLoanEntity(dto, user, book, today));
      d.borrowedDate == today && d.dueDate == d.borrowedDate + LOAN_PERIOD_DAYS && d.returnedDate.None?
  {
  }

  /** An author stored from an input shows the input's fields back (the id is
      assigned on save). */
  lemma AuthorRoundTrip(i: AuthorInput)
    ensures MapToAuthorDto(MapToAuthorEntity(i)) == AuthorDto(None, i.firstName, i.lastName, i.birthYear, i.nationality)
  {
  }

  /** A book built from an input shows the input's title, year and counts, and the
      chosen author's name. */
  lemma BookRoundTrip(i: BookInput, author: Author)
    ensures MapToBookDetailsDto(MapToBookEntity(i, author))
      == BookDetailsDto(None, i.title, Some(AuthorName(author)), i.publicationYear, i.totalCopies, i.availableCopies)
  {
  }

  /** A user built from an input shows the input's names and email, and no password. */
  lemma UserRoundTrip(i: UserInput)
    ensures MapToUserDto(MapToUserEntity(i)) == UserDto(None, i.firstName, i.lastName, i.email, None)
  {
  }
}
