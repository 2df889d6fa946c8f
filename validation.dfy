/**
 * CourseValidation: three static checks over possibly-null fields. Each either
 * passes with no effect or throws an ApiExceptions with status BAD_REQUEST.
 */
module Validation {
  import opened Wrappers
  import opened Exceptions
  import opened JavaStrings

  /** The outcome of one check: it passed, or it threw this exception. */
  datatype Check = Pass | Reject(error: ApiError)

  const NameMessage := "Name cannot be null or empty"
  const CreditMessage := "Credit must be between 0 and 4!"
  const IdMessagePrefix := "ID cannot be null or less than zero ID = "

  /** What string concatenation prints for a possibly-null Integer. */
  function IdText(id: Option<int>): string
  {
    match id
    case None => "null"
    case Some(n) => IntText(n)
  }

  /** checkName: the name must be present and not the empty string; blanks are not trimmed. */
  function CheckName(name: Option<string>): (r: Check)
    ensures r.Pass? <==> name.Some? && name.value != ""
    ensures r.Reject? ==> r.error == ApiError(NameMessage, HttpBadRequest)
  {
    if name.None? || |name.value| == 0 then Reject(ApiError(NameMessage, HttpBadRequest)) else Pass
  }

  /** checkCredit: the credit must be one of the five values 0 to 4. */
  function CheckCredit(credit: Option<int>): (r: Check)
    ensures r.Pass? <==> credit in {Some(0), Some(1), Some(2), Some(3), Some(4)}
    ensures r.Reject? ==> r.error == ApiError(CreditMessage, HttpBadRequest)
  {
    if credit.None? || credit.value < 0 || credit.value > 4 then Reject(ApiError(CreditMessage, HttpBadRequest)) else Pass
  }

  /** checkId: the id must be present and not negative; zero is a valid id. */
  function CheckId(id: Option<int>): (r: Check)
    ensures r.Pass? <==> id.Some? && id.value >= 0
    ensures r.Reject? ==> r.error.status == HttpBadRequest
    ensures r.Reject? ==> r.error.message == IdMessagePrefix + IdText(id)
  {
    if id.None? || id.value < 0 then Reject(ApiError(IdMessagePrefix + IdText(id), HttpBadRequest)) else Pass
  }

  /** Boundary values of the three checks. */
  lemma CheckBoundaries()
    ensures CheckName(Some(" ")).Pass? && CheckName(Some("")).Reject? && CheckName(None).Reject?
    ensures CheckCredit(Some(0)).Pass? && CheckCredit(Some(4)).Pass?
    ensures CheckCredit(Some(-1)).Reject? && CheckCredit(Some(5)).Reject? && CheckCredit(None).Reject?
    ensures CheckId(Some(0)).Pass? && CheckId(Some(-1)).Reject? && CheckId(None).Reject?
  {
  }

  /** The message of a rejected id names the id it was given, and that text reads back as the id. */
  lemma {:induction false} IdMessageNamesId(n: int)
    requires n < 0
    ensures var m := CheckId(Some(n)).error.message;
      |m| > |IdMessagePrefix| && m[..|IdMessagePrefix|] == IdMessagePrefix &&
      var t := m[|IdMessagePrefix|..]; t[0] == '-' && IsDigits(t[1..]) && SignedValue(t) == n
  {
    var m := CheckId(Some(n)).error.message;
    assert m[|IdMessagePrefix|..] == IntText(n);
    IntTextRoundTrip(n);
  }
}
