/** The older book service. Its listing branch, simple search and copy counter are
    the same code as the newer service's (modelled in `Books`); what differs is that
    adding a book validates the input first. */
module LegacyBooks {
  import opened Wrappers
  import opened Text
  import opened Errors
  import opened Dtos
  import opened Mappers
  import opened Stores
  import opened Validation
  import opened Fetch
  import opened Books

  /** The checks in the order they run; the first that fails is the one reported. */
  function ValidateBookInput(dto: BookInput): (o: Check)
    ensures o.Pass? <==>
      && !NullOrBlank(dto.title) && dto.authorId.Some?
      && dto.totalCopies.Some? && dto.totalCopies.value > 0
      && dto.availableCopies.Some? && dto.availableCopies.value > 0
      && dto.publicationYear.Some? && dto.publicationYear.value > 0
    ensures o.Fail? ==> Handle(o.error).status == BAD_REQUEST
    ensures NullOrBlank(dto.title) ==> o == RequireNonBlank(dto.title, "Title")
    ensures !NullOrBlank(dto.title) && dto.authorId.None? ==> o == RequireNonNullId(dto.authorId, "Author ID")
    ensures (!NullOrBlank(dto.title) && dto.authorId.Some? && RequirePositive(dto.totalCopies, "Total copies").Fail?)
      ==> o == RequirePositive(dto.totalCopies, "Total copies")
    ensures (!NullOrBlank(dto.title) && dto.authorId.Some? && RequirePositive(dto.totalCopies, "Total copies").Pass?
      && RequirePositive(dto.availableCopies, "Available copies").Fail?)
      ==> o == RequirePositive(dto.availableCopies, "Available copies")
    ensures (!NullOrBlank(dto.title) && dto.authorId.Some? && RequirePositive(dto.totalCopies, "Total copies").Pass?
      && RequirePositive(dto.availableCopies, "Available copies").Pass?)
      ==> o == RequirePositive(dto.publicationYear, "Publication year")
  {
    var title := RequireNonBlank(dto.title, "Title");
    var authorId := RequireNonNullId(dto.authorId, "Author ID");
    var total := RequirePositive(dto.totalCopies, "Total copies");
    var available := RequirePositive(dto.availableCopies, "Available copies");
    if title.Fail? then title
    else if authorId.Fail? then authorId
    else if total.Fail? then total
    else if available.Fail? then available
    else RequirePositive(dto.publicationYear, "Publication year")
  }

  class LegacyBookService {
    const books: BookRepository
    const authors: AuthorRepository

    constructor (books: BookRepository, authors: AuthorRepository)
      ensures this.books == books && this.authors == authors
    {
      this.books := books;
      this.authors := authors;
    }

    /** An invalid input is refused before any lookup; then the author must be
        stored; then exactly one book carrying the input's fields is inserted. */
    method AddBook(dto: BookInput) returns (r: Fallible<BookDetailsDto>)
      requires books.Valid()
      modifies books
      ensures books.Valid()
      ensures ValidateBookInput(dto).Fail? ==> r == Failure(ValidateBookInput(dto).error)
      ensures ValidateBookInput(dto).Pass? && GetAuthorOrThrow(dto.authorId.value, authors).Failure? ==>
        r == Failure(GetAuthorOrThrow(dto.authorId.value, authors).error)
      ensures r.Failure? ==> books.rows == old(books.rows) && books.nextId == old(books.nextId)
      ensures r.Success? <==> ValidateBookInput(dto).Pass? && GetAuthorOrThrow(dto.authorId.value, authors).Success?
      ensures r.Success? ==>
        var b := AddedBook(dto, GetAuthorOrThrow(dto.authorId.value, authors).value, old(books.nextId));
        && books.rows == old(books.rows) + [b] && books.nextId == old(books.nextId) + 1
        && r.value == MapToBookDetailsDto(b)
        && b.availableCopies.value > 0 && b.totalCopies.value > 0 && b.publicationYear.value > 0
    {
      var valid := ValidateBookInput(dto);
      if valid.Fail? {
        return Failure(valid.error);
      }
      var author := GetAuthorOrThrow(dto.authorId.value, authors);
      if author.Failure? {
        return Failure(author.error);
      }
      var saved := SaveNewBook(books, dto, author.value);
      return Success(MapToBookDetailsDto(saved));
    }
  }
}
