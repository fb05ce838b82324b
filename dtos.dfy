/** The transfer objects the services read from requests and return. Fields that a
    client may leave out, or that the services set to null, are `Option`. */
module Dtos {
  import opened Wrappers
  import opened Entities

  datatype AuthorInput = AuthorInput(
    authorId: Option<int>,
    firstName: Option<string>,
    lastName: Option<string>,
    birthYear: Option<int>,
    nationality: Option<string>)

  datatype AuthorDto = AuthorDto(
    authorId: Option<int>,
    firstName: Option<string>,
    lastName: Option<string>,
    birthYear: Option<int>,
    nationality: Option<string>)

  datatype BookInput = BookInput(
    title: Option<string>,
    publicationYear: Option<int>,
    availableCopies: Option<int>,
    totalCopies: Option<int>,
    authorId: Option<int>)

  datatype BookDetailsDto = BookDetailsDto(
    bookId: Option<int>,
    title: Option<string>,
    authorName: Option<string>,
    publicationYear: Option<int>,
    totalCopies: Option<int>,
    availableCopies: Option<int>)

  datatype UserInput = UserInput(firstName: string, lastName: string, email: string, password: string)

  /** The user as shown to clients: no password, no flags, no national id. */
  datatype UserDto = UserDto(
    userId: Option<int>,
    firstName: string,
    lastName: string,
    email: string,
    registrationDate: Option<Instant>)

  datatype LoanCreate = LoanCreate(userId: Option<int>, bookId: Option<int>)

  datatype LoanDto = LoanDto(
    loanId: Option<int>,
    book: BookDetailsDto,
    user: UserDto,
    borrowedDate: Day,
    dueDate: Day,
    returnedDate: Option<Day>)

  datatype RoleChangeRequest = RoleChangeRequest(email: Option<string>, roleName: Option<string>)

  datatype LoginRequest = LoginRequest(email: string, password: string)

  datatype RegisterRequest = RegisterRequest(firstName: string, lastName: string, email: string, password: string)
}
