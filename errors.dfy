/** The exceptions the core throws, and the global handler's table from exception
    kind to HTTP status together with the message it puts in the error body. */
module Errors {
  import opened Wrappers
  import opened Text

  /** One constructor per exception class the core throws or the handler names.
      Same-named classes from the repository's several exception packages share a
      kind; `Unclassified` is every exception without a handler of its own (plain
      `RuntimeException`, `UsernameNotFoundException`, a null id passed to
      `findById`, an array index out of bounds, a null unboxed). */
  datatype Kind =
    | UserNotFound | BookNotFound | AuthorNotFound | LoanNotFound | RoleNotFound
    | NoHandlerFound
    | LoanAlreadyReturned | ArgumentNotValid | BookUnavailable
    | InvalidCredentials | TokenExpired
    | AccessDenied | SpringAccessDenied
    | EmailAlreadyUsed
    | AccountLocked
    | ResponseStatus(code: int)
    | UsernameNotFound
    | Unclassified

  datatype Error = Error(kind: Kind, message: string)

  /** A call that returns a `T` or throws. */
  type Fallible<T> = Wrappers.Result<T, Error>
  /** A check that returns normally or throws. */
  type Check = Wrappers.Outcome<Error>

  /** What the runtime or a library throws on a null the core does not test for
      (an unboxed null count, a null id given to `findById`, an index into an empty
      array). It has no handler of its own; its message text comes from outside the
      repository and is not part of this model. */
  const RUNTIME_FAULT := Error(Unclassified, "")

  /** A field error of a failed bean validation: field name and default message. */
  datatype FieldError = FieldError(field: string, defaultMessage: string)

  /** What the handler sends back: a status and a message. */
  datatype Handled = Handled(status: int, message: string)

  const NOT_FOUND := 404
  const BAD_REQUEST := 400
  const UNAUTHORIZED := 401
  const FORBIDDEN := 403
  const CONFLICT := 409
  const LOCKED := 423
  const INTERNAL_SERVER_ERROR := 500

  predicate IsNotFound(k: Kind) {
    k.UserNotFound? || k.BookNotFound? || k.AuthorNotFound? || k.LoanNotFound?
    || k.RoleNotFound? || k.NoHandlerFound?
  }

  /** The status the handler answers for each kind. */
  function Status(k: Kind): (s: int)
    ensures IsNotFound(k) ==> s == NOT_FOUND
    ensures k.LoanAlreadyReturned? || k.ArgumentNotValid? || k.BookUnavailable? ==> s == BAD_REQUEST
    ensures k.InvalidCredentials? || k.TokenExpired? ==> s == UNAUTHORIZED
    ensures k.AccessDenied? || k.SpringAccessDenied? ==> s == FORBIDDEN
    ensures k.EmailAlreadyUsed? ==> s == CONFLICT
    ensures k.AccountLocked? ==> s == LOCKED
    ensures k.ResponseStatus? ==> s == k.code
    ensures k.Unclassified? || k.UsernameNotFound? ==> s == INTERNAL_SERVER_ERROR
  {
    match k
    case UserNotFound => NOT_FOUND
    case BookNotFound => NOT_FOUND
    case AuthorNotFound => NOT_FOUND
    case LoanNotFound => NOT_FOUND
    case NoHandlerFound => NOT_FOUND
    case RoleNotFound => NOT_FOUND
    case LoanAlreadyReturned => BAD_REQUEST
    case ArgumentNotValid => BAD_REQUEST
    case BookUnavailable => BAD_REQUEST
    case InvalidCredentials => UNAUTHORIZED
    case TokenExpired => UNAUTHORIZED
    case AccessDenied => FORBIDDEN
    case SpringAccessDenied => FORBIDDEN
    case EmailAlreadyUsed => CONFLICT
    case AccountLocked => LOCKED
    case ResponseStatus(code) => code
    case UsernameNotFound => INTERNAL_SERVER_ERROR
    case Unclassified => INTERNAL_SERVER_ERROR
  }

  /** Only the kinds the handler catches by name, and a status exception carrying
      a 5xx code, are answered with anything but 500; everything else is 500. */
  lemma OnlyNamedKindsEscape500(k: Kind)
    ensures Status(k) == INTERNAL_SERVER_ERROR <==>
      (k.Unclassified? || k.UsernameNotFound? || (k.ResponseStatus? && k.code == INTERNAL_SERVER_ERROR))
  {
  }

  /** The rendering of bean-validation failures: "field: message", joined by "; ". */
  function ValidationMessage(errors: seq<FieldError>): (m: string)
    ensures errors == [] ==> m == ""
    ensures errors != [] ==> RenderFieldError(errors[0]) <= m
  {
    Join(RenderFieldErrors(errors), "; ")
  }

  function RenderFieldError(e: FieldError): string {
    e.field + ": " + e.defaultMessage
  }

  function RenderFieldErrors(errors: seq<FieldError>): (r: seq<string>)
    ensures |r| == |errors|
    ensures forall i :: 0 <= i < |errors| ==> r[i] == RenderFieldError(errors[i])
  {
    if errors == [] then [] else [RenderFieldError(errors[0])] + RenderFieldErrors(errors[1..])
  }

  /** No field error gives the empty message; one more field error appends "; "
      and its rendering. */
  lemma {:induction false} ValidationMessageSnoc(errors: seq<FieldError>, e: FieldError)
    ensures ValidationMessage([]) == ""
    ensures ValidationMessage([e]) == e.field + ": " + e.defaultMessage
    ensures errors != [] ==>
      ValidationMessage(errors + [e]) == ValidationMessage(errors) + "; " + e.field + ": " + e.defaultMessage
  {
    if errors != [] {
      var rs := RenderFieldErrors(errors);
      assert RenderFieldErrors(errors + [e]) == rs + [RenderFieldError(e)];
      JoinSnoc(rs, RenderFieldError(e), "; ");
    }
  }

  /** The handler's answer. The not-found-handler message is fixed, a status
      exception answers with its reason, every other handler with the message. */
  function Handle(e: Error): (h: Handled)
    ensures h.status == Status(e.kind)
    ensures h.message == if e.kind.NoHandlerFound? then "This endpoint does not exist." else e.message
  {
    if e.kind.NoHandlerFound? then Handled(NOT_FOUND, "This endpoint does not exist.")
    else Handled(Status(e.kind), e.message)
  }

  /** A failed bean validation answers 400 with the joined field errors. */
  function HandleValidation(errors: seq<FieldError>): (h: Handled)
    ensures h == Handle(Error(ArgumentNotValid, ValidationMessage(errors)))
    ensures h.status == BAD_REQUEST
  {
    Handled(BAD_REQUEST, ValidationMessage(errors))
  }
}
