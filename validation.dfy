/** The input checks. Each either passes or fails with a `ResponseStatusException`
    carrying 400 and a message naming the field; none changes anything. */
module Validation {
  import opened Wrappers
  import opened Text
  import opened Errors

  const MISSING_SEARCH_PARAM := "At least one search parameter (title or author) is required."

  function BadRequest(message: string): Error {
    Error(ResponseStatus(BAD_REQUEST), message)
  }

  function RequireAtLeastOneSearchParam(title: Option<string>, author: Option<string>): (o: Check)
    ensures o.Fail? <==> NullOrBlank(title) && NullOrBlank(author)
    ensures o.Fail? ==> o.error == BadRequest(MISSING_SEARCH_PARAM)
  {
    if NullOrBlank(title) && NullOrBlank(author) then Fail(BadRequest(MISSING_SEARCH_PARAM)) else Pass
  }

  function RequireNonNull<T>(value: Option<T>, fieldName: string): (o: Check)
    ensures o.Fail? <==> value.None?
    ensures o.Fail? ==> o.error == BadRequest(fieldName + " must not be null.")
  {
    if value.None? then Fail(BadRequest(fieldName + " must not be null.")) else Pass
  }

  /** The id variant, which behaves exactly like `RequireNonNull`. */
  function RequireNonNullId(id: Option<int>, fieldName: string): (o: Check)
    ensures o.Fail? <==> id.None?
    ensures o == RequireNonNull(id, fieldName)
  {
    RequireNonNull(id, fieldName)
  }

  function RequireNonBlank(value: Option<string>, fieldName: string): (o: Check)
    ensures o.Fail? <==> NullOrBlank(value)
    ensures o.Fail? ==> o.error == BadRequest(fieldName + " must not be blank.")
  {
    if NullOrBlank(value) then Fail(BadRequest(fieldName + " must not be blank.")) else Pass
  }

  /** Null is reported as such, before the sign is looked at. */
  function RequirePositive(value: Option<int>, fieldName: string): (o: Check)
    ensures o.Pass? <==> value.Some? && value.value > 0
    ensures value.None? ==> o == Fail(BadRequest(fieldName + " must not be null."))
    ensures value.Some? && value.value <= 0 ==> o == Fail(BadRequest(fieldName + " must be greater than 0."))
  {
    if value.None? then Fail(BadRequest(fieldName + " must not be null."))
    else if value.value <= 0 then Fail(BadRequest(fieldName + " must be greater than 0."))
    else Pass
  }

  /** Whatever the check and its inputs, a failure is answered with 400. */
  lemma FailuresAreBadRequests(title: Option<string>, author: Option<string>, id: Option<int>,
                               text: Option<string>, n: Option<int>, fieldName: string)
    ensures var os := [RequireAtLeastOneSearchParam(title, author), RequireNonNull(id, fieldName),
                       RequireNonBlank(text, fieldName), RequirePositive(n, fieldName)];
      forall i :: 0 <= i < |os| && os[i].Fail? ==> Handle(os[i].error).status == BAD_REQUEST
  {
  }
}
