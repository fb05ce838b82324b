/** The repositories the core uses, as tables of rows in `findAll` order. A table
    with a generated id keeps the next id to hand out; `save` replaces the row
    whose id the entity carries, or inserts the entity under the next id and runs
    its `@PrePersist` hook. */
module Stores {
  import opened Wrappers
  import opened Text
  import opened Entities

  // ============================================================ generic tables

  /** Position of the first row whose key is `id`. */
  function IndexOf<T>(rows: seq<T>, key: T -> Option<int>, id: int): (r: Option<nat>)
    ensures r.Some? ==> r.value < |rows| && key(rows[r.value]) == Some(id)
    ensures r.Some? ==> forall i :: 0 <= i < r.value ==> key(rows[i]) != Some(id)
    ensures r.None? <==> forall i :: 0 <= i < |rows| ==> key(rows[i]) != Some(id)
  {
    if |rows| == 0 then None
    else if key(rows[0]) == Some(id) then Some(0)
    else match IndexOf(rows[1..], key, id)
      case None => None
      case Some(k) => Some(k + 1)
  }

  /** The row an entity with (possibly null) id `id` would merge into. */
  function RowOf<T>(rows: seq<T>, key: T -> Option<int>, id: Option<int>): Option<nat> {
    if id.None? then None else IndexOf(rows, key, id.value)
  }

  /** `findById`: the first row with that id, if any. */
  function ById<T>(rows: seq<T>, key: T -> Option<int>, id: int): (r: Option<T>)
    ensures r.Some? ==> r.value in rows && key(r.value) == Some(id)
    ensures r.None? <==> forall i :: 0 <= i < |rows| ==> key(rows[i]) != Some(id)
  {
    match IndexOf(rows, key, id)
    case Some(i) => Some(rows[i])
    case None => None
  }

  /** Every stored row has an id, below the next one the table will hand out. */
  ghost predicate IdsBelow<T>(rows: seq<T>, key: T -> Option<int>, nextId: int) {
    forall i :: 0 <= i < |rows| ==> key(rows[i]).Some? && key(rows[i]).value < nextId
  }

  datatype Stored<T> = Stored(rows: seq<T>, saved: T, nextId: int)

  /** `save(e)`: `e` replaces the row with its id if there is one; otherwise
      `inserted` (which is `e` under id `nextId`, after its hook ran) is appended. */
  function Upsert<T>(rows: seq<T>, nextId: int, key: T -> Option<int>, e: T, inserted: T): Stored<T> {
    match RowOf(rows, key, key(e))
    case Some(i) => Stored(rows[i := e], e, nextId)
    case None => Stored(rows + [inserted], inserted, nextId + 1)
  }

  /** After a save the table keeps its invariant, `findById` finds the saved
      entity under its id, and every other id finds what it found before. */
  lemma {:induction false} UpsertSpec<T>(rows: seq<T>, nextId: int, key: T -> Option<int>, e: T, inserted: T)
    requires IdsBelow(rows, key, nextId)
    requires key(inserted) == Some(nextId)
    ensures var r := Upsert(rows, nextId, key, e, inserted);
      && IdsBelow(r.rows, key, r.nextId)
      && key(r.saved).Some?
      && ById(r.rows, key, key(r.saved).value) == Some(r.saved)
      && (forall id :: id != key(r.saved).value ==> ById(r.rows, key, id) == ById(rows, key, id))
      && |r.rows| == |rows| + (if RowOf(rows, key, key(e)).Some? then 0 else 1)
  {
    var r := Upsert(rows, nextId, key, e, inserted);
    match RowOf(rows, key, key(e))
    case Some(i) =>
      assert key(e) == key(rows[i]);
      forall id ensures IndexOf(r.rows, key, id) == IndexOf(rows, key, id) {
        IndexOfKeysAgree(r.rows, rows, key, id);
      }
    case None =>
      forall id ensures id != nextId ==> IndexOf(r.rows, key, id) == IndexOf(rows, key, id) {
        IndexOfAppend(rows, key, inserted, id);
      }
      IndexOfAppend(rows, key, inserted, nextId);
  }

  /** Two tables whose rows have the same keys, position by position, agree on
      every lookup position. */
  lemma {:induction false} IndexOfKeysAgree<T>(a: seq<T>, b: seq<T>, key: T -> Option<int>, id: int)
    requires |a| == |b|
    requires forall i :: 0 <= i < |a| ==> key(a[i]) == key(b[i])
    ensures IndexOf(a, key, id) == IndexOf(b, key, id)
  {
    if |a| > 0 && key(a[0]) != Some(id) {
      IndexOfKeysAgree(a[1..], b[1..], key, id);
    }
  }

  /** Appending a row changes the lookup only of an id no earlier row has. */
  lemma {:induction false} IndexOfAppend<T>(rows: seq<T>, key: T -> Option<int>, x: T, id: int)
    ensures IndexOf(rows, key, id).Some? ==> IndexOf(rows + [x], key, id) == IndexOf(rows, key, id)
    ensures IndexOf(rows, key, id).None? ==>
      IndexOf(rows + [x], key, id) == if key(x) == Some(id) then Some(|rows|) else None
  {
    if |rows| > 0 {
      assert (rows + [x])[1..] == rows[1..] + [x];
      IndexOfAppend(rows[1..], key, x, id);
    }
  }

  // ============================================================ keys

  function UserKey(u: User): Option<int> { u.userId }
  function RoleKey(r: Role): Option<int> { Some(r.roleId) }
  function AuthorKey(a: Author): Option<int> { a.authorId }
  function BookKey(b: Book): Option<int> { b.bookId }

  /** A loan as stored: its foreign keys instead of the user and book objects. */
  datatype LoanRow = LoanRow(
    loanId: Option<int>,
    userId: int,
    bookId: int,
    borrowedDate: Day,
    dueDate: Day,
    returnedDate: Option<Day>)

  function LoanKey(l: LoanRow): Option<int> { l.loanId }

  // ============================================================ users

  /** `findByEmailIgnoreCase`: the first user whose email equals `email` up to case. */
  function ByEmailIgnoreCase(rows: seq<User>, email: string): (r: Option<User>)
    ensures r.Some? ==> r.value in rows && EqualsIgnoreCase(r.value.email, email)
    ensures r.None? <==> forall i :: 0 <= i < |rows| ==> !EqualsIgnoreCase(rows[i].email, email)
  {
    if |rows| == 0 then None
    else if EqualsIgnoreCase(rows[0].email, email) then Some(rows[0])
    else ByEmailIgnoreCase(rows[1..], email)
  }

  /** The user a save of `u` at time `now` inserts: next id, registration date now. */
  function InsertedUser(u: User, id: int, now: Instant): User {
    UserOnCreate(u.(userId := Some(id)), now)
  }

  function SaveUser(rows: seq<User>, nextId: int, u: User, now: Instant): Stored<User> {
    Upsert(rows, nextId, UserKey, u, InsertedUser(u, nextId, now))
  }

  /** A user appended to a table where no email matched is the one found. */
  lemma {:induction false} ByEmailAppend(rows: seq<User>, u: User, email: string)
    requires ByEmailIgnoreCase(rows, email).None? && EqualsIgnoreCase(u.email, email)
    ensures ByEmailIgnoreCase(rows + [u], email) == Some(u)
  {
    if |rows| > 0 {
      assert (rows + [u])[1..] == rows[1..] + [u];
      ByEmailAppend(rows[1..], u, email);
    } else {
      assert rows + [u] == [u];
    }
  }

  /** A user whose email does not match leaves the lookup as it was. */
  lemma {:induction false} ByEmailAppendOther(rows: seq<User>, u: User, email: string)
    requires !EqualsIgnoreCase(u.email, email)
    ensures ByEmailIgnoreCase(rows + [u], email) == ByEmailIgnoreCase(rows, email)
  {
    if |rows| > 0 {
      assert (rows + [u])[1..] == rows[1..] + [u];
      ByEmailAppendOther(rows[1..], u, email);
    } else {
      assert rows + [u] == [u];
    }
  }

  class UserRepository {
    var rows: seq<User>
    var nextId: int

    ghost predicate Valid()
      reads this
    {
      IdsBelow(rows, UserKey, nextId)
    }

    constructor ()
      ensures Valid() && rows == [] && nextId == 1
    {
      rows := [];
      nextId := 1;
    }

    function FindById(id: int): Option<User>
      reads this
    {
      ById(rows, UserKey, id)
    }

    function FindByEmailIgnoreCase(email: string): Option<User>
      reads this
    {
      ByEmailIgnoreCase(rows, email)
    }

    method Save(u: User, now: Instant) returns (saved: User)
      requires Valid()
      modifies this
      ensures Valid()
      ensures Stored(rows, saved, nextId) == SaveUser(old(rows), old(nextId), u, now)
    {
      UpsertSpec(rows, nextId, UserKey, u, InsertedUser(u, nextId, now));
      var s := SaveUser(rows, nextId, u, now);
      rows, saved, nextId := s.rows, s.saved, s.nextId;
    }
  }

  // ============================================================ roles

  /** `findByRoleName`: the first role with exactly that name. */
  function ByRoleName(rows: seq<Role>, name: string): (r: Option<Role>)
    ensures r.Some? ==> r.value in rows && r.value.roleName == name
    ensures r.None? <==> forall i :: 0 <= i < |rows| ==> rows[i].roleName != name
  {
    if |rows| == 0 then None
    else if rows[0].roleName == name then Some(rows[0])
    else ByRoleName(rows[1..], name)
  }

  /** No two roles share an id. */
  ghost predicate RoleIdsUnique(rows: seq<Role>) {
    forall i, j :: 0 <= i < j < |rows| ==> rows[i].roleId != rows[j].roleId
  }

  /** With unique ids, looking a stored role up by its id finds that role. */
  lemma RoleById(rows: seq<Role>, role: Role)
    requires RoleIdsUnique(rows) && role in rows
    ensures ById(rows, RoleKey, role.roleId) == Some(role)
  {
    var i :| 0 <= i < |rows| && rows[i] == role;
    var k := IndexOf(rows, RoleKey, role.roleId);
    assert k.Some?;
    assert k.value == i by {
      assert RoleKey(rows[k.value]) == Some(role.roleId);
      if k.value < i { } else if i < k.value { }
    }
  }

  /** The roles table, which the core only reads. */
  class RoleRepository {
    var rows: seq<Role>

    ghost predicate Valid()
      reads this
    {
      RoleIdsUnique(rows)
    }

    constructor (rows: seq<Role>)
      requires RoleIdsUnique(rows)
      ensures Valid() && this.rows == rows
    {
      this.rows := rows;
    }

    function FindById(id: int): Option<Role>
      reads this
    {
      ById(rows, RoleKey, id)
    }

    function FindByRoleName(name: string): Option<Role>
      reads this
    {
      ByRoleName(rows, name)
    }
  }

  // ============================================================ user roles

  predicate HasKey(rows: seq<UserRole>, k: UserRoleId) {
    exists i :: 0 <= i < |rows| && rows[i].Key() == k
  }

  /** At most one row per (user, role) pair. */
  ghost predicate KeysUnique(rows: seq<UserRole>) {
    forall i, j :: 0 <= i < j < |rows| ==> rows[i].Key() != rows[j].Key()
  }

  /** `findByUserId`: the assignments of one user, in table order. */
  function ByUserId(rows: seq<UserRole>, userId: int): (r: seq<UserRole>)
    ensures forall ur :: ur in r <==> ur in rows && ur.userId == userId
    ensures |r| <= |rows|
  {
    if |rows| == 0 then []
    else (if rows[0].userId == userId then [rows[0]] else []) + ByUserId(rows[1..], userId)
  }

  /** The rows without the one keyed `k`. */
  function WithoutKey(rows: seq<UserRole>, k: UserRoleId): (r: seq<UserRole>)
    ensures forall ur :: ur in r <==> ur in rows && ur.Key() != k
    ensures |r| <= |rows|
  {
    if |rows| == 0 then []
    else (if rows[0].Key() == k then [] else [rows[0]]) + WithoutKey(rows[1..], k)
  }

  /** Position of the first row keyed `k`. */
  function KeyIndex(rows: seq<UserRole>, k: UserRoleId): (r: Option<nat>)
    ensures r.Some? ==> r.value < |rows| && rows[r.value].Key() == k
    ensures r.None? <==> !HasKey(rows, k)
  {
    if |rows| == 0 then None
    else if rows[0].Key() == k then Some(0)
    else match KeyIndex(rows[1..], k)
      case None =>
        assert forall i :: 0 < i < |rows| ==> rows[i] == rows[1..][i - 1];
        None
      case Some(i) => Some(i + 1)
  }

  /** `save` of an assignment: a stored pair is overwritten in place, a new pair is
      appended with its assignment date set by the hook. */
  function SaveUserRole(rows: seq<UserRole>, ur: UserRole, now: Instant): seq<UserRole> {
    match KeyIndex(rows, ur.Key())
    case Some(i) => rows[i := ur]
    case None => rows + [UserRoleOnCreate(ur, now)]
  }

  /** After a save the pair is stored, the pairs stored are the old ones and it,
      the table stays free of duplicates, and the table grows only for a new pair. */
  lemma SaveUserRoleSpec(rows: seq<UserRole>, ur: UserRole, now: Instant)
    requires KeysUnique(rows)
    ensures var r := SaveUserRole(rows, ur, now);
      && KeysUnique(r)
      && (forall k :: HasKey(r, k) <==> HasKey(rows, k) || k == ur.Key())
      && |r| == |rows| + (if HasKey(rows, ur.Key()) then 0 else 1)
      && (forall x :: x in rows && x.Key() != ur.Key() ==> x in r)
  {
    var r := SaveUserRole(rows, ur, now);
    match KeyIndex(rows, ur.Key())
    case Some(i) =>
      assert forall j :: 0 <= j < |r| ==> r[j].Key() == rows[j].Key();
      forall x | x in rows && x.Key() != ur.Key() ensures x in r {
        var j :| 0 <= j < |rows| && rows[j] == x;
        assert r[j] == x;
      }
      forall k | HasKey(rows, k) ensures HasKey(r, k) {
        var j :| 0 <= j < |rows| && rows[j].Key() == k;
        assert r[j].Key() == k;
      }
    case None =>
      assert r[|rows|].Key() == ur.Key();
      forall k | HasKey(rows, k) ensures HasKey(r, k) {
        var j :| 0 <= j < |rows| && rows[j].Key() == k;
        assert r[j].Key() == k;
      }
  }

  class UserRoleRepository {
    var rows: seq<UserRole>

    ghost predicate Valid()
      reads this
    {
      KeysUnique(rows)
    }

    constructor ()
      ensures Valid() && rows == []
    {
      rows := [];
    }

    function FindByUserId(userId: int): (r: seq<UserRole>)
      reads this
      ensures forall ur :: ur in r <==> ur in rows && ur.userId == userId
      ensures |r| <= |rows|
    {
      ByUserId(rows, userId)
    }

    /** Some stored assignment links the user to the role. */
    predicate ExistsByUserIdAndRoleId(userId: int, roleId: int)
      reads this
      ensures ExistsByUserIdAndRoleId(userId, roleId) <==>
        exists ur :: ur in rows && ur.userId == userId && ur.roleId == roleId
    {
      HasKey(rows, UserRoleId(userId, roleId))
    }

    method Save(ur: UserRole, now: Instant)
      requires Valid()
      modifies this
      ensures Valid()
      ensures rows == SaveUserRole(old(rows), ur, now)
    {
      SaveUserRoleSpec(rows, ur, now);
      rows := SaveUserRole(rows, ur, now);
    }

    /** `deleteByUserIdAndRoleId`: the pair's row goes, every other row stays. */
    method DeleteByUserIdAndRoleId(userId: int, roleId: int)
      requires Valid()
      modifies this
      ensures Valid()
      ensures rows == WithoutKey(old(rows), UserRoleId(userId, roleId))
    {
      WithoutKeyUnique(rows, UserRoleId(userId, roleId));
      rows := WithoutKey(rows, UserRoleId(userId, roleId));
    }
  }

  lemma {:induction false} WithoutKeyUnique(rows: seq<UserRole>, k: UserRoleId)
    requires KeysUnique(rows)
    ensures KeysUnique(WithoutKey(rows, k))
  {
    if |rows| > 0 {
      WithoutKeyUnique(rows[1..], k);
      var rest := WithoutKey(rows[1..], k);
      if rows[0].Key() != k {
        forall j | 0 <= j < |rest| ensures rows[0].Key() != rest[j].Key() {
          assert rest[j] in rows[1..];
        }
      }
    }
  }

  // ============================================================ authors and books

  function SaveAuthor(rows: seq<Author>, nextId: int, a: Author): Stored<Author> {
    Upsert(rows, nextId, AuthorKey, a, a.(authorId := Some(nextId)))
  }

  class AuthorRepository {
    var rows: seq<Author>
    var nextId: int

    ghost predicate Valid()
      reads this
    {
      IdsBelow(rows, AuthorKey, nextId)
    }

    constructor ()
      ensures Valid() && rows == [] && nextId == 1
    {
      rows := [];
      nextId := 1;
    }

    function FindById(id: int): Option<Author>
      reads this
    {
      ById(rows, AuthorKey, id)
    }

    method Save(a: Author) returns (saved: Author)
      requires Valid()
      modifies this
      ensures Valid()
      ensures Stored(rows, saved, nextId) == SaveAuthor(old(rows), old(nextId), a)
    {
      UpsertSpec(rows, nextId, AuthorKey, a, a.(authorId := Some(nextId)));
      var s := SaveAuthor(rows, nextId, a);
      rows, saved, nextId := s.rows, s.saved, s.nextId;
    }
  }

  function SaveBook(rows: seq<Book>, nextId: int, b: Book): Stored<Book> {
    Upsert(rows, nextId, BookKey, b, b.(bookId := Some(nextId)))
  }

  class BookRepository {
    var rows: seq<Book>
    var nextId: int

    ghost predicate Valid()
      reads this
    {
      IdsBelow(rows, BookKey, nextId)
    }

    constructor ()
      ensures Valid() && rows == [] && nextId == 1
    {
      rows := [];
      nextId := 1;
    }

    function FindById(id: int): Option<Book>
      reads this
    {
      ById(rows, BookKey, id)
    }

    method Save(b: Book) returns (saved: Book)
      requires Valid()
      modifies this
      ensures Valid()
      ensures Stored(rows, saved, nextId) == SaveBook(old(rows), old(nextId), b)
    {
      UpsertSpec(rows, nextId, BookKey, b, b.(bookId := Some(nextId)));
      var s := SaveBook(rows, nextId, b);
      rows, saved, nextId := s.rows, s.saved, s.nextId;
    }
  }

  // ============================================================ loans

  function SaveLoan(rows: seq<LoanRow>, nextId: int, l: LoanRow): Stored<LoanRow> {
    Upsert(rows, nextId, LoanKey, l, l.(loanId := Some(nextId)))
  }

  class LoanRepository {
    var rows: seq<LoanRow>
    var nextId: int

    ghost predicate Valid()
      reads this
    {
      IdsBelow(rows, LoanKey, nextId)
    }

    constructor ()
      ensures Valid() && rows == [] && nextId == 1
    {
      rows := [];
      nextId := 1;
    }

    function FindById(id: int): Option<LoanRow>
      reads this
    {
      ById(rows, LoanKey, id)
    }

    method Save(l: LoanRow) returns (saved: LoanRow)
      requires Valid()
      modifies this
      ensures Valid()
      ensures Stored(rows, saved, nextId) == SaveLoan(old(rows), old(nextId), l)
    {
      UpsertSpec(rows, nextId, LoanKey, l, l.(loanId := Some(nextId)));
      var s := SaveLoan(rows, nextId, l);
      rows, saved, nextId := s.rows, s.saved, s.nextId;
    }
  }

  // ============================================================ refresh tokens

  /** The tokens of one user. */
  function OwnedBy(tokens: map<string, RefreshToken>, userId: int): (r: set<string>)
    ensures forall t :: t in r <==> t in tokens && tokens[t].userId == userId
  {
    set t | t in tokens && tokens[t].userId == userId
  }

  /** The tokens whose expiry lies strictly before `now`. */
  function ExpiredBefore(tokens: map<string, RefreshToken>, now: Instant): (r: set<string>)
    ensures forall t :: t in r <==> t in tokens && tokens[t].expiryDate < now
  {
    set t | t in tokens && tokens[t].expiryDate < now
  }

  /** The token table keyed by the token string, which `findByToken` looks up. */
  class RefreshTokenRepository {
    var tokens: map<string, RefreshToken>

    ghost predicate Valid()
      reads this
    {
      forall t :: t in tokens ==> tokens[t].token == t
    }

    constructor ()
      ensures Valid() && tokens == map[]
    {
      tokens := map[];
    }

    function FindByToken(token: string): (r: Option<RefreshToken>)
      reads this
      ensures r.Some? <==> token in tokens
      ensures r.Some? ==> r.value == tokens[token]
      ensures Valid() && r.Some? ==> r.value.token == token
    {
      if token in tokens then Some(tokens[token]) else None
    }

    method Save(t: RefreshToken)
      requires Valid()
      modifies this
      ensures Valid()
      ensures tokens == old(tokens)[t.token := t]
    {
      tokens := tokens[t.token := t];
    }

    method Delete(t: RefreshToken)
      requires Valid()
      modifies this
      ensures Valid()
      ensures tokens == old(tokens) - {t.token}
    {
      tokens := tokens - {t.token};
    }

    /** `deleteByUser`: removes that user's tokens and answers how many. */
    method DeleteByUser(userId: int) returns (count: int)
      requires Valid()
      modifies this
      ensures Valid()
      ensures tokens == old(tokens) - OwnedBy(old(tokens), userId)
      ensures count == |OwnedBy(old(tokens), userId)|
    {
      var owned := OwnedBy(tokens, userId);
      count := |owned|;
      tokens := tokens - owned;
    }

    method DeleteAll(keys: set<string>)
      requires Valid()
      modifies this
      ensures Valid()
      ensures tokens == old(tokens) - keys
    {
      tokens := tokens - keys;
    }
  }
}
