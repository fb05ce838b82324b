/** The author service: listing authors, searching them by part of the last name,
    and adding one after its input checks. */
module Authors {
  import opened Wrappers
  import opened Text
  import opened Errors
  import opened Entities
  import opened Dtos
  import opened Mappers
  import opened Stores
  import opened Validation

  /** The author's last name is present and contains `keyword`, ignoring case; a
      null column matches no pattern. */
  predicate LastNameMatches(a: Author, keyword: string) {
    a.lastName.Some? && ContainsIgnoreCase(a.lastName.value, keyword)
  }

  /** `findByLastNameContainingIgnoreCase`: the matching authors, in table order. */
  function AuthorsByLastName(rows: seq<Author>, keyword: string): (r: seq<Author>)
    ensures |r| <= |rows|
    ensures forall a :: a in r <==> a in rows && LastNameMatches(a, keyword)
  {
    if |rows| == 0 then []
    else
      var rest := AuthorsByLastName(rows[1..], keyword);
      assert rows == [rows[0]] + rows[1..];
      if LastNameMatches(rows[0], keyword) then [rows[0]] + rest else rest
  }

  /** The empty keyword matches every author whose last name is present. */
  lemma {:induction false} EmptyKeywordKeepsNamed(rows: seq<Author>)
    ensures forall a :: a in AuthorsByLastName(rows, "") <==> a in rows && a.lastName.Some?
  {
    forall a | a in rows && a.lastName.Some?
      ensures LastNameMatches(a, "")
    {
      assert UpperAll("") <= UpperAll(a.lastName.value);
    }
  }

  /** `addAuthor`'s checks in the order they run; the first that fails is reported. */
  function ValidateAuthorInput(dto: AuthorInput): (o: Check)
    ensures o.Pass? <==>
      && !NullOrBlank(dto.firstName) && !NullOrBlank(dto.lastName)
      && dto.birthYear.Some? && dto.birthYear.value > 0
      && !NullOrBlank(dto.nationality)
    ensures o.Fail? ==> Handle(o.error).status == BAD_REQUEST
    ensures NullOrBlank(dto.firstName) ==> o == RequireNonBlank(dto.firstName, "First name")
    ensures (!NullOrBlank(dto.firstName) && NullOrBlank(dto.lastName)) ==> o == RequireNonBlank(dto.lastName, "Last name")
    ensures (!NullOrBlank(dto.firstName) && !NullOrBlank(dto.lastName) && RequirePositive(dto.birthYear, "Birth year").Fail?)
      ==> o == RequirePositive(dto.birthYear, "Birth year")
    ensures (!NullOrBlank(dto.firstName) && !NullOrBlank(dto.lastName) && RequirePositive(dto.birthYear, "Birth year").Pass?)
      ==> o == RequireNonBlank(dto.nationality, "Nationality")
  {
    var first := RequireNonBlank(dto.firstName, "First name");
    var last := RequireNonBlank(dto.lastName, "Last name");
    var year := RequirePositive(dto.birthYear, "Birth year");
    if first.Fail? then first
    else if last.Fail? then last
    else if year.Fail? then year
    else RequireNonBlank(dto.nationality, "Nationality")
  }

  /** The author an insert of `dto` stores, with id `id`. */
  function AddedAuthor(dto: AuthorInput, id: int): (a: Author)
    ensures a.authorId == Some(id)
    ensures a.firstName == dto.firstName && a.lastName == dto.lastName
    ensures a.birthYear == dto.birthYear && a.nationality == dto.nationality
  {
    MapToAuthorEntity(dto).(authorId := Some(id))
  }

  class AuthorService {
    const authors: AuthorRepository

    constructor (authors: AuthorRepository)
      ensures this.authors == authors
    {
      this.authors := authors;
    }

    /** One view per stored author, in table order. */
    function GetAllAuthorDtos(): (r: seq<AuthorDto>)
      reads authors
      ensures |r| == |authors.rows|
      ensures forall i :: 0 <= i < |r| ==> r[i] == MapToAuthorDto(authors.rows[i])
    {
      seq(|authors.rows|, i requires 0 <= i < |authors.rows| reads authors => MapToAuthorDto(authors.rows[i]))
    }

    /** One view per author whose last name contains the keyword, ignoring case. */
    function GetAuthorsByLastName(lastName: string): (r: seq<AuthorDto>)
      reads authors
      ensures var found := AuthorsByLastName(authors.rows, lastName);
        |r| == |found| && forall i :: 0 <= i < |r| ==> r[i] == MapToAuthorDto(found[i])
      ensures forall i :: 0 <= i < |r| ==> r[i].lastName.Some? && ContainsIgnoreCase(r[i].lastName.value, lastName)
    {
      var found := AuthorsByLastName(authors.rows, lastName);
      assert forall i :: 0 <= i < |found| ==> found[i] in found;
      seq(|found|, i requires 0 <= i < |found| => MapToAuthorDto(found[i]))
    }

    /** A failing check is reported and the table stays as it was; otherwise
        exactly one author carrying the input's four fields is inserted. */
    method AddAuthor(dto: AuthorInput) returns (r: Fallible<AuthorDto>)
      requires authors.Valid()
      modifies authors
      ensures authors.Valid()
      ensures ValidateAuthorInput(dto).Fail? ==>
        r == Failure(ValidateAuthorInput(dto).error) && authors.rows == old(authors.rows) && authors.nextId == old(authors.nextId)
      ensures ValidateAuthorInput(dto).Pass? ==>
        var a := AddedAuthor(dto, old(authors.nextId));
        && authors.rows == old(authors.rows) + [a] && authors.nextId == old(authors.nextId) + 1
        && r == Success(MapToAuthorDto(a))
    {
      var valid := ValidateAuthorInput(dto);
      if valid.Fail? {
        return Failure(valid.error);
      }
      var saved := authors.Save(MapToAuthorEntity(dto));
      return Success(MapToAuthorDto(saved));
    }
  }
}
