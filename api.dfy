/**
 * What the list views see of the library client: the `{ success, data,
 * statusCode }` replies, the calls they issue, and the alerts they raise.
 *
 * The HTTP layer is not modelled: each call's reply is supplied by the caller
 * of a handler, and `Threw` stands for a call that raised instead of replying.
 */
module Api {
  import opened Optional

  /** `ClientResponse<T>`, or an exception raised by the call. */
  datatype Reply<T> = Replied(success: bool, data: Option<T>, statusCode: int) | Threw

  /** `response.success` */
  predicate Succeeded<T>(reply: Reply<T>)
  {
    reply.Replied? && reply.success
  }

  /** `response.success && response.data`: an array, even an empty one, is truthy. */
  predicate Delivered<T>(reply: Reply<T>)
  {
    Succeeded(reply) && reply.data.Some?
  }

  /** The library client calls the list views make, with their arguments. */
  datatype Request =
    | GetLoans
    | ExtendLoan(loanId: int)
    | ReturnLoan(loanId: int)
    | GetBooks
    | AddToQueue(bookId: int)
    | DeleteBook(bookId: int)
    | GetUsers
    | DeleteUser(userId: int)
    | GetUserLoans(userId: int)
    | GetArchiveLoans
    | GetReviews

  datatype Severity = Success | Error

  /** `AlertProps` */
  datatype Alert = Alert(message: string, severity: Severity)

  /** The three texts an action reports: on success, on failure (before the status), on an exception. */
  datatype ActionMessages = ActionMessages(success: string, failure: string, error: string)

  function DigitChar(d: nat): (c: char)
    requires d < 10
    ensures '0' <= c <= '9'
  {
    ('0' as int + d) as char
  }

  function DigitValue(c: char): (d: nat)
    requires '0' <= c <= '9'
    ensures d < 10
  {
    (c as int - '0' as int) as nat
  }

  predicate IsDigits(s: string)
  {
    |s| > 0 && forall k :: 0 <= k < |s| ==> '0' <= s[k] <= '9'
  }

  /** The decimal digits of n, most significant first, without leading zeros. */
  function Digits(n: nat): (s: string)
    ensures IsDigits(s)
    ensures |s| > 1 ==> s[0] != '0'
  {
    if n < 10 then [DigitChar(n)] else Digits(n / 10) + [DigitChar(n % 10)]
  }

  /** How a template literal renders a number: `${n}`. */
  function Decimal(n: int): (s: string)
    ensures |s| > 0
  {
    if n < 0 then "-" + Digits(-n) else Digits(n)
  }

  function ParseDigits(s: string): nat
    requires IsDigits(s)
  {
    if |s| == 1 then DigitValue(s[0])
    else ParseDigits(s[..|s| - 1]) * 10 + DigitValue(s[|s| - 1])
  }

  /** Reads back an integer written by Decimal; None for any other text. */
  function ParseDecimal(s: string): Option<int>
  {
    if |s| > 1 && s[0] == '-' && IsDigits(s[1..]) then Some(0 - ParseDigits(s[1..]))
    else if IsDigits(s) then Some(ParseDigits(s) as int)
    else None
  }

  lemma {:induction false} DigitsRoundTrip(n: nat)
    ensures ParseDigits(Digits(n)) == n
    decreases n
  {
    if n >= 10 {
      DigitsRoundTrip(n / 10);
      var s := Digits(n);
      assert s[..|s| - 1] == Digits(n / 10);
    }
  }

  /** Decimal loses nothing: the rendered number reads back as itself. */
  lemma DecimalRoundTrip(n: int)
    ensures ParseDecimal(Decimal(n)) == Some(n)
  {
    if n < 0 {
      DigitsRoundTrip(-n);
      assert ("-" + Digits(-n))[1..] == Digits(-n);
    } else {
      DigitsRoundTrip(n);
    }
  }

  /** `${prefix}: ${statusCode}` */
  function FailureMessage(prefix: string, statusCode: int): string
  {
    prefix + ": " + Decimal(statusCode)
  }

  /** The status code a failure message carries, read back from behind `prefix: `. */
  function StatusOf(message: string, prefix: string): Option<int>
  {
    var n := |prefix| + 2;
    if |message| >= n && message[..n] == prefix + ": " then ParseDecimal(message[n..]) else None
  }

  /** The failure message carries the status code: it can be read back from it. */
  lemma FailureMessageCarriesStatus(prefix: string, statusCode: int)
    ensures StatusOf(FailureMessage(prefix, statusCode), prefix) == Some(statusCode)
  {
    var m := FailureMessage(prefix, statusCode);
    var n := |prefix| + 2;
    assert m[..n] == prefix + ": ";
    assert m[n..] == Decimal(statusCode);
    DecimalRoundTrip(statusCode);
  }

  /** Two failures with different status codes produce different messages. */
  lemma FailureMessageInjective(prefix: string, a: int, b: int)
    requires FailureMessage(prefix, a) == FailureMessage(prefix, b)
    ensures a == b
  {
    FailureMessageCarriesStatus(prefix, a);
    FailureMessageCarriesStatus(prefix, b);
  }

  /**
   * The alert an extend / return / add-to-queue action raises: success when the
   * call succeeded, otherwise an error whose message carries the status code, or
   * the fixed error text when the call raised.
   */
  function ActionAlert<T>(m: ActionMessages, reply: Reply<T>): (a: Alert)
    ensures a.severity == Success <==> Succeeded(reply)
    ensures Succeeded(reply) ==> a.message == m.success
    ensures reply.Replied? && !reply.success ==> StatusOf(a.message, m.failure) == Some(reply.statusCode)
    ensures reply.Threw? ==> a.message == m.error
  {
    match reply
    case Threw => Alert(m.error, Error)
    case Replied(success, _, statusCode) =>
      if success then Alert(m.success, Success)
      else
        FailureMessageCarriesStatus(m.failure, statusCode);
        Alert(FailureMessage(m.failure, statusCode), Error)
  }

  /** The guard `if (!id) return;` on a numeric id: only 0 is falsy here (NaN never occurs). */
  predicate Truthy(id: int)
  {
    id != 0
  }

  /**
   * A fetch: `if (response.success && response.data) setRows(response.data)`.
   * The rows change only to the delivered data.
   */
  function Refetched<T>(current: seq<T>, reply: Reply<seq<T>>): (r: seq<T>)
    ensures Delivered(reply) ==> r == reply.data.value
    ensures !Delivered(reply) ==> r == current
  {
    if Delivered(reply) then reply.data.value else current
  }

  /**
   * Delete, then refetch when the delete succeeded: the rows are replaced only
   * when both calls succeed, and are otherwise unchanged.
   */
  function AfterDelete<T>(current: seq<T>, deleteReply: Reply<()>, refetchReply: Reply<seq<T>>): (r: seq<T>)
    ensures Succeeded(deleteReply) && Delivered(refetchReply) ==> r == refetchReply.data.value
    ensures !(Succeeded(deleteReply) && Delivered(refetchReply)) ==> r == current
  {
    if Succeeded(deleteReply) then Refetched(current, refetchReply) else current
  }

  /** The calls a delete issues: the delete, and the refetch only after a successful delete. */
  function DeleteCalls(delete: Request, refetch: Request, deleteReply: Reply<()>): (calls: seq<Request>)
    ensures |calls| >= 1 && calls[0] == delete
    ensures refetch in calls[1..] <==> Succeeded(deleteReply)
  {
    if Succeeded(deleteReply) then [delete, refetch] else [delete]
  }
}
