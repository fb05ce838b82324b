/** The loan service: a loan is opened against an available copy, extended while
    open, and returned once, and the book's available-copies counter moves with it.
    Loans are stored by the ids of their user and book; a loan is read back by
    joining those ids with the current user and book rows, which is how the loaded
    entity sees the book after a counter update in the same transaction. */
module Loans {
  import opened Wrappers
  import opened Errors
  import opened Entities
  import opened Dtos
  import opened Mappers
  import opened Stores
  import opened Validation
  import opened Fetch
  import opened Books

  const NO_COPIES := "No available copies of this book."
  const EXTEND_RETURNED := "Cannot extend a returned loan."
  const ALREADY_RETURNED := "Loan has already been returned."

  /** The row a loan entity is stored as. */
  function ToRow(l: Loan): (row: LoanRow)
    requires l.user.userId.Some? && l.book.bookId.Some?
  {
    LoanRow(l.loanId, l.user.userId.value, l.book.bookId.value, l.borrowedDate, l.dueDate, l.returnedDate)
  }

  /** `findByUser_userId`: one user's loans, in table order. */
  function RowsOfUser(rows: seq<LoanRow>, userId: int): (r: seq<LoanRow>)
    ensures forall x :: x in r <==> x in rows && x.userId == userId
    ensures |r| <= |rows|
  {
    if |rows| == 0 then []
    else (if rows[0].userId == userId then [rows[0]] else []) + RowsOfUser(rows[1..], userId)
  }

  class LoanService {
    const loans: LoanRepository
    const books: BookRepository
    const users: UserRepository
    const bookService: BookService

    /** Each store keeps its invariant, the book service works on the same books,
        and every loan's user and book are stored. */
    ghost predicate Valid()
      reads this, loans, books, users
    {
      && bookService.books == books
      && loans.Valid() && books.Valid() && users.Valid()
      && LinksResolve()
    }

    ghost predicate LinksResolve()
      reads loans, books, users
    {
      forall i :: 0 <= i < |loans.rows| ==> Resolves(loans.rows[i])
    }

    constructor (loans: LoanRepository, users: UserRepository, books: BookRepository, bookService: BookService)
      requires bookService.books == books && loans.Valid() && books.Valid() && users.Valid()
      requires forall i :: 0 <= i < |loans.rows| ==>
        users.FindById(loans.rows[i].userId).Some? && books.FindById(loans.rows[i].bookId).Some?
      ensures Valid()
      ensures this.loans == loans && this.books == books && this.users == users && this.bookService == bookService
    {
      this.loans := loans;
      this.books := books;
      this.users := users;
      this.bookService := bookService;
    }

    /** The loan's user and book are stored. */
    predicate Resolves(row: LoanRow)
      reads users, books
    {
      users.FindById(row.userId).Some? && books.FindById(row.bookId).Some?
    }

    /** The loan entity a stored row loads as. */
    function Join(row: LoanRow): (l: Loan)
      requires Resolves(row)
      reads users, books
      ensures l.user.userId == Some(row.userId) && l.book.bookId == Some(row.bookId)
      ensures ToRow(l) == row
    {
      Loan(row.loanId, row.borrowedDate, row.dueDate, row.returnedDate,
           users.FindById(row.userId).value, books.FindById(row.bookId).value)
    }

    /** `findAll`: every stored loan, loaded, in table order. */
    function FindAllLoans(): (r: seq<Loan>)
      requires Valid()
      reads this, loans, books, users
      ensures |r| == |loans.rows|
      ensures forall i :: 0 <= i < |r| ==> r[i] == Join(loans.rows[i]) && ToRow(r[i]) == loans.rows[i]
    {
      seq(|loans.rows|, i requires 0 <= i < |loans.rows| && LinksResolve() reads loans, books, users => Join(loans.rows[i]))
    }

    /** Every loan, in table order, with the simple user and book views. */
    method GetAllLoanDtos() returns (dtos: seq<LoanDto>)
      requires Valid()
      ensures |dtos| == |loans.rows|
      ensures forall i :: 0 <= i < |dtos| ==> dtos[i] == MapToLoanDtoSimple(Join(loans.rows[i]))
    {
      var all := FindAllLoans();
      dtos := [];
      var k := 0;
      while k < |all|
        invariant 0 <= k <= |all|
        invariant |dtos| == k
        invariant forall i :: 0 <= i < k ==> dtos[i] == MapToLoanDtoSimple(all[i])
      {
        var loan := all[k];
        var dto := LoanDto(loan.loanId, MapToBookDetailsDtoSimple(loan.book), MapToUserDtoSimple(loan.user),
                           loan.borrowedDate, loan.dueDate, loan.returnedDate);
        assert dto == MapToLoanDtoSimple(loan);
        dtos := dtos + [dto];
        k := k + 1;
      }
    }

    /** One user's loans, in table order, with the full views. */
    function GetLoansByUserId(userId: int): (r: seq<LoanDto>)
      requires Valid()
      reads this, loans, books, users
      ensures |r| == |RowsOfUser(loans.rows, userId)|
      ensures forall i :: 0 <= i < |r| ==>
        RowsOfUser(loans.rows, userId)[i] in loans.rows && r[i] == MapToLoanDto(Join(RowsOfUser(loans.rows, userId)[i]))
      ensures forall i :: 0 <= i < |r| ==> r[i].user.userId == Some(userId)
    {
      var mine := RowsOfUser(loans.rows, userId);
      assert forall i :: 0 <= i < |mine| ==> mine[i] in loans.rows && Resolves(mine[i]) by {
        forall i | 0 <= i < |mine| ensures mine[i] in loans.rows && Resolves(mine[i]) {
          assert mine[i] in mine;
          var j :| 0 <= j < |loans.rows| && loans.rows[j] == mine[i];
        }
      }
      seq(|mine|, i requires 0 <= i < |mine| && Resolves(mine[i]) reads users, books => MapToLoanDto(Join(mine[i])))
    }

    /** The stored loan with that id, or its not-found error. */
    function GetLoanById(loanId: int): (r: Fallible<LoanDto>)
      requires Valid()
      reads this, loans, books, users
      ensures r.Failure? <==> loans.FindById(loanId).None?
      ensures r.Failure? ==> r.error == GetLoanOrThrow(loanId, loans).error
      ensures r.Success? ==> r.value == MapToLoanDto(Join(loans.FindById(loanId).value)) && r.value.loanId == Some(loanId)
    {
      var row :- GetLoanOrThrow(loanId, loans);
      Success(MapToLoanDto(Join(row)))
    }

    /** What `addLoan` checks before any write: both ids present, in this order;
        the user, then the book, stored; a copy available. */
    function LoanableFor(dto: LoanCreate): (r: Fallible<(User, Book)>)
      reads users, books
      ensures dto.userId.None? ==> r == Failure(RequireNonNull(dto.userId, "User ID").error)
      ensures dto.userId.Some? && dto.bookId.None? ==> r == Failure(RequireNonNull(dto.bookId, "Book ID").error)
      ensures r.Success? <==>
        && dto.userId.Some? && dto.bookId.Some?
        && users.FindById(dto.userId.value).Some? && books.FindById(dto.bookId.value).Some?
        && books.FindById(dto.bookId.value).value.availableCopies.Some?
        && books.FindById(dto.bookId.value).value.availableCopies.value > 0
      ensures r.Success? ==>
        Some(r.value.0) == users.FindById(dto.userId.value) && Some(r.value.1) == books.FindById(dto.bookId.value)
      ensures (dto.userId.Some? && dto.bookId.Some? && users.FindById(dto.userId.value).Some?
        && books.FindById(dto.bookId.value).Some? && books.FindById(dto.bookId.value).value.availableCopies.Some?
        && books.FindById(dto.bookId.value).value.availableCopies.value <= 0)
        ==> r == Failure(Error(BookUnavailable, NO_COPIES))
      ensures dto.userId.Some? && dto.bookId.Some? && users.FindById(dto.userId.value).None? ==>
        r == Failure(GetUserOrThrow(dto.userId.value, users).error)
      ensures (dto.userId.Some? && dto.bookId.Some? && users.FindById(dto.userId.value).Some?
        && books.FindById(dto.bookId.value).None?)
        ==> r == Failure(GetBookOrThrow(dto.bookId.value, books).error)
      ensures (dto.userId.Some? && dto.bookId.Some? && users.FindById(dto.userId.value).Some?
        && books.FindById(dto.bookId.value).Some? && books.FindById(dto.bookId.value).value.availableCopies.None?)
        ==> r == Failure(RUNTIME_FAULT)
    {
      var userIdPresent := RequireNonNull(dto.userId, "User ID");
      var bookIdPresent := RequireNonNull(dto.bookId, "Book ID");
      if userIdPresent.Fail? then Failure(userIdPresent.error)
      else if bookIdPresent.Fail? then Failure(bookIdPresent.error)
      else
        var user :- GetUserOrThrow(dto.userId.value, users);
        var book :- GetBookOrThrow(dto.bookId.value, books);
        if book.availableCopies.None? then Failure(RUNTIME_FAULT)
        else if book.availableCopies.value <= 0 then Failure(Error(BookUnavailable, NO_COPIES))
        else Success((user, book))
    }

    /** A refused loan changes nothing. An accepted one takes one copy of that book
        (every other book is as it was), and stores a new open loan borrowed today
        and due in fourteen days, under the next loan id. */
    method AddLoan(dto: LoanCreate, today: Day) returns (r: Fallible<LoanDto>)
      requires Valid()
      modifies books, loans
      ensures Valid()
      ensures old(LoanableFor(dto)).Failure? ==>
        && r == Failure(old(LoanableFor(dto)).error)
        && books.rows == old(books.rows) && books.nextId == old(books.nextId)
        && loans.rows == old(loans.rows) && loans.nextId == old(loans.nextId)
      ensures old(LoanableFor(dto)).Success? ==>
        var book := old(LoanableFor(dto)).value.1;
        var row := LoanRow(Some(old(loans.nextId)), dto.userId.value, dto.bookId.value,
                           today, today + LOAN_PERIOD_DAYS, None);
        && books.rows == SaveBook(old(books.rows), old(books.nextId), TakeCopy(book, dto.bookId.value).value).rows
        && books.nextId == old(books.nextId)
        && books.FindById(dto.bookId.value) == Some(TakeCopy(book, dto.bookId.value).value)
        && (forall id :: id != dto.bookId.value ==> books.FindById(id) == old(books.FindById(id)))
        && loans.rows == old(loans.rows) + [row] && loans.nextId == old(loans.nextId) + 1
        && loans.FindById(old(loans.nextId)) == Some(row)
        && r == Success(MapToLoanDto(Join(row)))
        && r.value.dueDate == r.value.borrowedDate + LOAN_PERIOD_DAYS && r.value.returnedDate.None?
    {
      var checked := LoanableFor(dto);
      if checked.Failure? {
        return Failure(checked.error);
      }
      var (user, book) := checked.value;
      var bookId := book.bookId.value;
      var taken := bookService.DecrementAvailableCopies(bookId);
      assert taken.Pass?;
      KeepsLinks(bookId);
      var loan := MapToLoanEntity(dto, user, books.FindById(bookId).value, today);
      var saved := InsertRow(ToRow(loan));
      return Success(MapToLoanDto(Join(saved)));
    }

    /** `save` of a new loan whose user and book are stored: it is appended under
        the next id, which finds it, and every loan still resolves. */
    method InsertRow(row: LoanRow) returns (saved: LoanRow)
      requires Valid() && Resolves(row) && row.loanId.None?
      modifies loans
      ensures Valid()
      ensures saved == row.(loanId := Some(old(loans.nextId))) && Resolves(saved)
      ensures loans.rows == old(loans.rows) + [saved] && loans.nextId == old(loans.nextId) + 1
      ensures loans.FindById(old(loans.nextId)) == Some(saved)
    {
      UpsertSpec(loans.rows, loans.nextId, LoanKey, row, row.(loanId := Some(loans.nextId)));
      saved := loans.Save(row);
    }

    /** After the books changed under `bookId` only, every loan still resolves. */
    lemma KeepsLinks(bookId: int)
      requires forall i :: 0 <= i < |loans.rows| ==> users.FindById(loans.rows[i].userId).Some?
      requires forall i :: 0 <= i < |loans.rows| ==> loans.rows[i].bookId == bookId || books.FindById(loans.rows[i].bookId).Some?
      requires books.FindById(bookId).Some?
      ensures LinksResolve()
    {
    }

    /** An unknown or returned loan is refused with nothing changed; an open one is
        due fourteen days from today (not from its old due date), and every other
        loan is as it was. */
    method ExtendLoan(loanId: int, today: Day) returns (r: Fallible<LoanDto>)
      requires Valid()
      modifies loans
      ensures Valid()
      ensures old(loans.FindById(loanId)).None? ==>
        && r == Failure(old(GetLoanOrThrow(loanId, loans)).error)
        && loans.rows == old(loans.rows) && loans.nextId == old(loans.nextId)
      ensures old(loans.FindById(loanId)).Some? && old(loans.FindById(loanId)).value.returnedDate.Some? ==>
        && r == Failure(Error(LoanAlreadyReturned, EXTEND_RETURNED))
        && loans.rows == old(loans.rows) && loans.nextId == old(loans.nextId)
      ensures old(loans.FindById(loanId)).Some? && old(loans.FindById(loanId)).value.returnedDate.None? ==>
        var row := old(loans.FindById(loanId)).value.(dueDate := today + LOAN_PERIOD_DAYS);
        && loans.rows == SaveLoan(old(loans.rows), old(loans.nextId), row).rows
        && loans.FindById(loanId) == Some(row)
        && (forall id :: id != loanId ==> loans.FindById(id) == old(loans.FindById(id)))
        && |loans.rows| == |old(loans.rows)| && loans.nextId == old(loans.nextId)
        && r == Success(MapToLoanDto(Join(row)))
    {
      var found := GetLoanOrThrow(loanId, loans);
      if found.Failure? {
        return Failure(found.error);
      }
      var row := found.value;
      if row.returnedDate.Some? {
        return Failure(Error(LoanAlreadyReturned, EXTEND_RETURNED));
      }
      row := row.(dueDate := today + LOAN_PERIOD_DAYS);
      var saved := UpdateRow(row);
      return Success(MapToLoanDto(Join(saved)));
    }

    /** `save` of a stored loan whose user and book are unchanged: that loan is
        replaced in place, every other loan and the id counter stay, and every loan
        still resolves. */
    method UpdateRow(row: LoanRow) returns (saved: LoanRow)
      requires Valid() && Resolves(row) && row.loanId.Some? && loans.FindById(row.loanId.value).Some?
      modifies loans
      ensures Valid()
      ensures saved == row && Resolves(saved)
      ensures loans.rows == SaveLoan(old(loans.rows), old(loans.nextId), row).rows
      ensures loans.FindById(row.loanId.value) == Some(row)
      ensures forall id :: id != row.loanId.value ==> loans.FindById(id) == old(loans.FindById(id))
      ensures |loans.rows| == |old(loans.rows)| && loans.nextId == old(loans.nextId)
    {
      SaveKeepsLinks(row);
      saved := loans.Save(row);
    }

    /** Saving a stored loan with its links unchanged keeps every loan resolving and
        changes that loan only. */
    lemma SaveKeepsLinks(row: LoanRow)
      requires Valid() && Resolves(row) && row.loanId.Some? && loans.FindById(row.loanId.value).Some?
      ensures var s := SaveLoan(loans.rows, loans.nextId, row);
        && s.nextId == loans.nextId && |s.rows| == |loans.rows| && s.saved == row
        && IdsBelow(s.rows, LoanKey, s.nextId)
        && (forall i :: 0 <= i < |s.rows| ==> Resolves(s.rows[i]))
        && ById(s.rows, LoanKey, row.loanId.value) == Some(row)
        && (forall id :: id != row.loanId.value ==> ById(s.rows, LoanKey, id) == ById(loans.rows, LoanKey, id))
    {
      UpsertSpec(loans.rows, loans.nextId, LoanKey, row, row.(loanId := Some(loans.nextId)));
      var i := IndexOf(loans.rows, LoanKey, row.loanId.value).value;
      var s := SaveLoan(loans.rows, loans.nextId, row);
      assert s.rows == loans.rows[i := row];
    }

    /** An unknown or returned loan is refused with nothing changed, and so is one
        whose book's count is null (the transaction rolls back). Otherwise the loan
        is returned today and its book gains one copy; other loans and books are as
        they were. */
    method ReturnLoan(loanId: int, today: Day) returns (r: Fallible<LoanDto>)
      requires Valid()
      modifies loans, books
      ensures Valid()
      ensures old(loans.FindById(loanId)).None? ==>
        && r == Failure(old(GetLoanOrThrow(loanId, loans)).error)
        && loans.rows == old(loans.rows) && loans.nextId == old(loans.nextId)
        && books.rows == old(books.rows) && books.nextId == old(books.nextId)
      ensures old(loans.FindById(loanId)).Some? && old(loans.FindById(loanId)).value.returnedDate.Some? ==>
        && r == Failure(Error(LoanAlreadyReturned, ALREADY_RETURNED))
        && loans.rows == old(loans.rows) && loans.nextId == old(loans.nextId)
        && books.rows == old(books.rows) && books.nextId == old(books.nextId)
      ensures old(loans.FindById(loanId)).Some? && old(loans.FindById(loanId)).value.returnedDate.None? ==>
        var row := old(loans.FindById(loanId)).value;
        var book := old(books.FindById(row.bookId)).value;
        && old(books.FindById(row.bookId)).Some?
        && (book.availableCopies.None? ==>
              && r == Failure(RUNTIME_FAULT)
              && loans.rows == old(loans.rows) && loans.nextId == old(loans.nextId)
              && books.rows == old(books.rows) && books.nextId == old(books.nextId))
        && (book.availableCopies.Some? ==>
              && loans.rows == SaveLoan(old(loans.rows), old(loans.nextId), row.(returnedDate := Some(today))).rows
              && loans.nextId == old(loans.nextId)
              && books.rows == SaveBook(old(books.rows), old(books.nextId), ReturnCopy(book).value).rows
              && books.nextId == old(books.nextId)
              && loans.FindById(row.loanId.value) == Some(row.(returnedDate := Some(today)))
              && (forall id :: id != row.loanId.value ==> loans.FindById(id) == old(loans.FindById(id)))
              && books.FindById(row.bookId) == Some(ReturnCopy(book).value)
              && (forall id :: id != row.bookId ==> books.FindById(id) == old(books.FindById(id)))
              && r == Success(MapToLoanDto(Join(row.(returnedDate := Some(today))))))
    {
      var found := GetLoanOrThrow(loanId, loans);
      if found.Failure? {
        return Failure(found.error);
      }
      var row := found.value;
      if row.returnedDate.Some? {
        return Failure(Error(LoanAlreadyReturned, ALREADY_RETURNED));
      }
      r := ReturnOpen(row, today);
    }

    /** `returnLoan` past its lookups: the open loan `row` is stored and resolves. */
    method ReturnOpen(row: LoanRow, today: Day) returns (r: Fallible<LoanDto>)
      requires Valid() && row.loanId.Some? && loans.FindById(row.loanId.value) == Some(row) && row.returnedDate.None?
      modifies loans, books
      ensures Valid()
      ensures old(books.FindById(row.bookId)).Some?
      ensures var book := old(books.FindById(row.bookId)).value;
        && (book.availableCopies.None? ==>
              && r == Failure(RUNTIME_FAULT)
              && loans.rows == old(loans.rows) && loans.nextId == old(loans.nextId)
              && books.rows == old(books.rows) && books.nextId == old(books.nextId))
        && (book.availableCopies.Some? ==>
              && loans.rows == SaveLoan(old(loans.rows), old(loans.nextId), row.(returnedDate := Some(today))).rows
              && loans.nextId == old(loans.nextId)
              && books.rows == SaveBook(old(books.rows), old(books.nextId), ReturnCopy(book).value).rows
              && books.nextId == old(books.nextId)
              && loans.FindById(row.loanId.value) == Some(row.(returnedDate := Some(today)))
              && (forall id :: id != row.loanId.value ==> loans.FindById(id) == old(loans.FindById(id)))
              && books.FindById(row.bookId) == Some(ReturnCopy(book).value)
              && (forall id :: id != row.bookId ==> books.FindById(id) == old(books.FindById(id)))
              && r == Success(MapToLoanDto(Join(row.(returnedDate := Some(today))))))
    {
      assert Resolves(row);
      ghost var loansBefore := loans.rows;
      var given := GiveBack(row.bookId);
      if given.Fail? {
        return Failure(given.error);
      }
      assert loans.rows == loansBefore;
      r := MarkReturned(row, today);
    }

    /** The stored open loan `row` is saved as returned today. */
    method MarkReturned(row: LoanRow, today: Day) returns (r: Fallible<LoanDto>)
      requires Valid() && row.loanId.Some? && loans.FindById(row.loanId.value) == Some(row)
      modifies loans
      ensures Valid()
      ensures var returned := row.(returnedDate := Some(today));
        && Resolves(returned)
        && loans.rows == SaveLoan(old(loans.rows), old(loans.nextId), returned).rows
        && |loans.rows| == |old(loans.rows)| && loans.nextId == old(loans.nextId)
        && loans.FindById(row.loanId.value) == Some(returned)
        && (forall id :: id != row.loanId.value ==> loans.FindById(id) == old(loans.FindById(id)))
        && r == Success(MapToLoanDto(Join(returned)))
    {
      assert Resolves(row);
      var saved := UpdateRow(row.(returnedDate := Some(today)));
      r := Success(MapToLoanDto(Join(saved)));
    }

    /** The copy count of a book that loans refer to rises by one, or the tables
        stay as they were when its count is null; loans still resolve. */
    method GiveBack(bookId: int) returns (r: Check)
      requires Valid() && books.FindById(bookId).Some?
      modifies books
      ensures Valid()
      ensures var book := old(books.FindById(bookId)).value;
        && (book.availableCopies.None? ==>
              r == Fail(RUNTIME_FAULT) && books.rows == old(books.rows) && books.nextId == old(books.nextId))
        && (book.availableCopies.Some? ==>
              && r == Pass
              && books.rows == SaveBook(old(books.rows), old(books.nextId), ReturnCopy(book).value).rows
              && books.nextId == old(books.nextId)
              && books.FindById(bookId) == Some(ReturnCopy(book).value)
              && (forall id :: id != bookId ==> books.FindById(id) == old(books.FindById(id))))
    {
      ghost var book := books.FindById(bookId).value;
      assert bookService.Incremented(bookId) == ReturnCopy(book);
      r := bookService.IncrementAvailableCopies(bookId);
      if r.Pass? {
        KeepsLinks(bookId);
      }
    }


    /** Borrowing a copy and returning that loan later leaves the book as it was. */
    method BorrowThenReturn(dto: LoanCreate, today: Day, later: Day)
      returns (added: Fallible<LoanDto>, returned: Option<Fallible<LoanDto>>)
      requires Valid()
      modifies books, loans
      ensures Valid()
      ensures added.Failure? ==> returned.None?
      ensures added.Success? ==>
        && dto.bookId.Some? && returned.Some? && returned.value.Success?
        && returned.value.value.returnedDate == Some(later)
        && books.FindById(dto.bookId.value) == old(books.FindById(dto.bookId.value))
    {
      added := AddLoan(dto, today);
      if added.Failure? {
        return added, None;
      }
      var r := ReturnLoan(added.value.loanId.value, later);
      ReturnUndoesTake(old(books.FindById(dto.bookId.value)).value, dto.bookId.value);
      return added, Some(r);
    }

    /** A loan is returned at most once: returning it again is refused. */
    method ReturnTwice(loanId: int, today: Day, later: Day) returns (first: Fallible<LoanDto>, second: Fallible<LoanDto>)
      requires Valid()
      modifies loans, books
      ensures Valid()
      ensures second.Failure?
      ensures first.Success? ==> second == Failure(Error(LoanAlreadyReturned, ALREADY_RETURNED))
    {
      first := ReturnLoan(loanId, today);
      second := ReturnLoan(loanId, later);
    }
  }
}
