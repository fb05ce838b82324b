/** The book service: the paged listing's choice of query, the simple search, adding
    a book under a stored author, and the available-copies counter that loans move. */
module Books {
  import opened Wrappers
  import opened Text
  import opened Errors
  import opened Entities
  import opened Dtos
  import opened Mappers
  import opened Stores
  import opened Validation
  import opened Fetch

  // ============================================================ listing and search

  /** The repository query a listing runs; the query bodies themselves are JPQL and
      not part of this model. */
  datatype BookQuery = FindAll | Search(title: Option<string>, author: Option<string>)

  /** `getBooksFilteredAndPaged`' branch: every book when both filters are null or
      blank, the search with both filters as given otherwise. */
  function ChooseQuery(title: Option<string>, author: Option<string>): (q: BookQuery)
    ensures q.FindAll? <==> NullOrBlank(title) && NullOrBlank(author)
    ensures q.Search? ==> q.title == title && q.author == author
  {
    if NullOrBlank(title) && NullOrBlank(author) then FindAll else Search(title, author)
  }

  /** `searchBooksSimple`: refused when both parameters are null or blank, else the
      search's `results` (the query's answer, given) as detail views, in order. */
  function SearchBooksSimple(title: Option<string>, author: Option<string>, results: seq<Book>): (r: Fallible<seq<BookDetailsDto>>)
    ensures r.Failure? <==> ChooseQuery(title, author).FindAll?
    ensures r.Failure? ==> r.error == BadRequest(MISSING_SEARCH_PARAM)
    ensures r.Success? ==> |r.value| == |results| && forall i :: 0 <= i < |results| ==> r.value[i] == MapToBookDetailsDto(results[i])
  {
    var checked := RequireAtLeastOneSearchParam(title, author);
    if checked.Fail? then Failure(checked.error)
    else Success(seq(|results|, i requires 0 <= i < |results| => MapToBookDetailsDto(results[i])))
  }

  // ============================================================ the copy counter

  function UnavailableMessage(bookId: int): string {
    "Book with ID " + IntToString(bookId) + " has no copies available for loan."
  }

  /** Taking a copy of the fetched book: a null count is a runtime fault, a count of
      zero or less is refused, otherwise the count drops by one and nothing else. */
  function TakeCopy(b: Book, bookId: int): (r: Fallible<Book>)
    ensures r.Success? <==> b.availableCopies.Some? && b.availableCopies.value > 0
    ensures b.availableCopies.None? ==> r == Failure(RUNTIME_FAULT)
    ensures b.availableCopies.Some? && b.availableCopies.value <= 0 ==>
      r == Failure(Error(BookUnavailable, UnavailableMessage(bookId)))
    ensures r.Success? ==>
      && r.value.availableCopies == Some(b.availableCopies.value - 1)
      && r.value.availableCopies.value >= 0
      && r.value.(availableCopies := b.availableCopies) == b
  {
    match b.availableCopies
    case None => Failure(RUNTIME_FAULT)
    case Some(n) =>
      if n <= 0 then Failure(Error(BookUnavailable, UnavailableMessage(bookId)))
      else Success(b.(availableCopies := Some(n - 1)))
  }

  /** Returning a copy: a null count is a runtime fault; otherwise the count rises by
      one, with no bound against the total. */
  function ReturnCopy(b: Book): (r: Fallible<Book>)
    ensures r.Success? <==> b.availableCopies.Some?
    ensures r.Failure? ==> r.error == RUNTIME_FAULT
    ensures r.Success? ==>
      r.value.availableCopies == Some(b.availableCopies.value + 1) && r.value.(availableCopies := b.availableCopies) == b
  {
    match b.availableCopies
    case None => Failure(RUNTIME_FAULT)
    case Some(n) => Success(b.(availableCopies := Some(n + 1)))
  }

  /** Returning a taken copy restores the book exactly. */
  lemma ReturnUndoesTake(b: Book, bookId: int)
    requires TakeCopy(b, bookId).Success?
    ensures ReturnCopy(TakeCopy(b, bookId).value) == Success(b)
  {
  }

  /** Taking a copy after one came back restores the book, for any count not below 0. */
  lemma TakeUndoesReturn(b: Book, bookId: int)
    requires b.availableCopies.Some? && b.availableCopies.value >= 0
    ensures ReturnCopy(b).Success? && TakeCopy(ReturnCopy(b).value, bookId) == Success(b)
  {
  }

  /** Nothing caps the count: a return is accepted even when every copy is in. */
  lemma ReturnIgnoresTotal(b: Book)
    requires b.availableCopies.Some? && b.totalCopies.Some? && b.availableCopies.value >= b.totalCopies.value
    ensures ReturnCopy(b).Success? && ReturnCopy(b).value.availableCopies.value > b.totalCopies.value
  {
  }

  // ============================================================ the service

  class BookService {
    const books: BookRepository
    const authors: AuthorRepository

    constructor (books: BookRepository, authors: AuthorRepository)
      ensures this.books == books && this.authors == authors
    {
      this.books := books;
      this.authors := authors;
    }

    /** The stored book with one copy fewer, or why not. */
    function Decremented(bookId: int): (r: Fallible<Book>)
      reads books
    {
      var b :- GetBookOrThrow(bookId, books);
      TakeCopy(b, bookId)
    }

    /** The stored book with one copy more, or why not. */
    function Incremented(bookId: int): (r: Fallible<Book>)
      reads books
    {
      var b :- GetBookOrThrow(bookId, books);
      ReturnCopy(b)
    }

    /** An unknown book, a null count or no copy left is refused with the table
        unchanged; otherwise that book has one copy fewer and every other book is as
        it was. */
    method DecrementAvailableCopies(bookId: int) returns (r: Check)
      requires books.Valid()
      modifies books
      ensures books.Valid()
      ensures old(Decremented(bookId)).Failure? ==>
        r == Fail(old(Decremented(bookId)).error) && books.rows == old(books.rows) && books.nextId == old(books.nextId)
      ensures old(Decremented(bookId)).Success? ==>
        && r == Pass
        && books.rows == SaveBook(old(books.rows), old(books.nextId), old(Decremented(bookId)).value).rows
        && books.FindById(bookId) == Some(old(Decremented(bookId)).value)
        && old(books.FindById(bookId)).value.availableCopies.value - 1 == books.FindById(bookId).value.availableCopies.value
        && (forall id :: id != bookId ==> books.FindById(id) == old(books.FindById(id)))
        && |books.rows| == |old(books.rows)| && books.nextId == old(books.nextId)
    {
      var updated := Decremented(bookId);
      if updated.Failure? {
        return Fail(updated.error);
      }
      UpsertSpec(books.rows, books.nextId, BookKey, updated.value, updated.value.(bookId := Some(books.nextId)));
      var _ := books.Save(updated.value);
      return Pass;
    }

    /** An unknown book or a null count is refused with the table unchanged;
        otherwise that book has one copy more and every other book is as it was. */
    method IncrementAvailableCopies(bookId: int) returns (r: Check)
      requires books.Valid()
      modifies books
      ensures books.Valid()
      ensures old(Incremented(bookId)).Failure? ==>
        r == Fail(old(Incremented(bookId)).error) && books.rows == old(books.rows) && books.nextId == old(books.nextId)
      ensures old(Incremented(bookId)).Success? ==>
        && r == Pass
        && books.rows == SaveBook(old(books.rows), old(books.nextId), old(Incremented(bookId)).value).rows
        && books.FindById(bookId) == Some(old(Incremented(bookId)).value)
        && old(books.FindById(bookId)).value.availableCopies.value + 1 == books.FindById(bookId).value.availableCopies.value
        && (forall id :: id != bookId ==> books.FindById(id) == old(books.FindById(id)))
        && |books.rows| == |old(books.rows)| && books.nextId == old(books.nextId)
    {
      var updated := Incremented(bookId);
      if updated.Failure? {
        return Fail(updated.error);
      }
      UpsertSpec(books.rows, books.nextId, BookKey, updated.value, updated.value.(bookId := Some(books.nextId)));
      var _ := books.Save(updated.value);
      return Pass;
    }

    /** The author must be stored (a null author id reaches `findById` and faults);
        then exactly one book carrying the input's fields is inserted. */
    method AddBook(dto: BookInput) returns (r: Fallible<BookDetailsDto>)
      requires books.Valid()
      modifies books
      ensures books.Valid()
      ensures dto.authorId.None? ==> r == Failure(RUNTIME_FAULT)
      ensures dto.authorId.Some? && GetAuthorOrThrow(dto.authorId.value, authors).Failure? ==>
        r == Failure(GetAuthorOrThrow(dto.authorId.value, authors).error)
      ensures r.Failure? ==> books.rows == old(books.rows) && books.nextId == old(books.nextId)
      ensures r.Success? <==> dto.authorId.Some? && GetAuthorOrThrow(dto.authorId.value, authors).Success?
      ensures r.Success? ==>
        var b := AddedBook(dto, GetAuthorOrThrow(dto.authorId.value, authors).value, old(books.nextId));
        books.rows == old(books.rows) + [b] && books.nextId == old(books.nextId) + 1 && r.value == MapToBookDetailsDto(b)
    {
      if dto.authorId.None? {
        return Failure(RUNTIME_FAULT);
      }
      var author := GetAuthorOrThrow(dto.authorId.value, authors);
      if author.Failure? {
        return Failure(author.error);
      }
      var saved := SaveNewBook(books, dto, author.value);
      return Success(MapToBookDetailsDto(saved));
    }
  }

  /** The book an insert of the input under `author` stores, with id `id`. */
  function AddedBook(dto: BookInput, author: Author, id: int): (b: Book)
    ensures b.bookId == Some(id) && b.author == author
    ensures b.title == dto.title && b.publicationYear == dto.publicationYear
    ensures b.availableCopies == dto.availableCopies && b.totalCopies == dto.totalCopies
  {
    MapToBookEntity(dto, author).(bookId := Some(id))
  }

  /** `save(mapToBookEntity(dto, author))`: a new book has no id, so it is inserted. */
  method SaveNewBook(books: BookRepository, dto: BookInput, author: Author) returns (saved: Book)
    requires books.Valid()
    modifies books
    ensures books.Valid()
    ensures saved == AddedBook(dto, author, old(books.nextId))
    ensures books.rows == old(books.rows) + [saved] && books.nextId == old(books.nextId) + 1
  {
    saved := books.Save(MapToBookEntity(dto, author));
  }
}
