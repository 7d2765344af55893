/**
 * The manual retry loop around every page request
 * (`request_with_manual_backoff`): up to five calls, retrying on a raised
 * request exception and on the throttling statuses 403 and 429; any other
 * exception leaves the loop on the call that raised it. The sleeps
 * between calls are not modelled; the transport-level retry configured on
 * the session is part of what one call returns.
 */
module Backoff {
  import opened Common

  const MANUAL_ATTEMPTS: nat := 5

  /** A streamed response body: the lines it yields and whether the stream then breaks. */
  datatype Body = Body(lines: seq<string>, interrupted: bool)

  datatype Response = Response(status: int, body: Body)

  /**
   * What the `k`-th call of `session.get` does: raise a `RequestException`
   * (with its message), raise any other exception, or answer.
   */
  datatype Attempt = Threw(error: string) | Escaped(error: string) | Answered(response: Response)

  /** The calls of one request, numbered from 1. */
  type Attempts = nat -> Attempt

  /**
   * What the loop raises: once its calls are used up, the latest request
   * exception or the exhaustion error; at once, an exception it does not catch.
   */
  datatype Failure = LastException(error: string) | Exhausted | Uncaught(error: string)

  /** The loop's result and the number of calls it made. */
  datatype Call = Returned(response: Response, calls: nat) | Raised(failure: Failure, calls: nat)

  predicate Throttled(status: int) {
    status == 403 || status == 429
  }

  /** An attempt the loop retries: a request exception or a throttling status. */
  predicate Rejected(a: Attempt) {
    match a
    case Threw(_) => true
    case Escaped(_) => false
    case Answered(r) => Throttled(r.status)
  }

  /** The message of the latest exception among calls `1..n`, if any call raised. */
  function LastThrown(attempts: Attempts, n: nat): Option<string>
  {
    if n == 0 then None
    else if attempts(n).Threw? then Some(attempts(n).error)
    else LastThrown(attempts, n - 1)
  }

  /** The loop from call `attempt` on, having remembered `last` from the earlier calls. */
  function Loop(attempts: Attempts, attempt: nat, last: Option<string>): (c: Call)
    requires 1 <= attempt <= MANUAL_ATTEMPTS + 1
    requires last == LastThrown(attempts, attempt - 1)
    requires forall k :: 1 <= k < attempt ==> Rejected(attempts(k))
    ensures Min(attempt, MANUAL_ATTEMPTS) <= c.calls <= MANUAL_ATTEMPTS
    ensures forall k :: 1 <= k < c.calls ==> Rejected(attempts(k))
    ensures c.Returned? ==> attempts(c.calls) == Answered(c.response) && !Throttled(c.response.status)
    ensures c.Raised? && c.failure.Uncaught? ==> attempts(c.calls) == Escaped(c.failure.error)
    ensures c.Raised? && !c.failure.Uncaught? ==> c.calls == MANUAL_ATTEMPTS && Rejected(attempts(MANUAL_ATTEMPTS))
    ensures c.Raised? && !c.failure.Uncaught? ==>
              c.failure == if LastThrown(attempts, MANUAL_ATTEMPTS).Some?
                           then LastException(LastThrown(attempts, MANUAL_ATTEMPTS).value)
                           else Exhausted
    decreases MANUAL_ATTEMPTS + 1 - attempt
  {
    if attempt > MANUAL_ATTEMPTS then
      match last
      case Some(e) => Raised(LastException(e), MANUAL_ATTEMPTS)
      case None => Raised(Exhausted, MANUAL_ATTEMPTS)
    else
      match attempts(attempt)
      case Threw(e) => Loop(attempts, attempt + 1, Some(e))
      case Escaped(e) => Raised(Uncaught(e), attempt)
      case Answered(r) =>
        if Throttled(r.status) then Loop(attempts, attempt + 1, last) else Returned(r, attempt)
  }

  /**
   * `request_with_manual_backoff`: the first call that answers with a status
   * other than 403 or 429 is returned; an exception that is not a request
   * exception propagates from the call that raised it; after five rejected
   * calls the latest request exception is raised, or a "exhausted without
   * response" error when every call was throttled.
   */
  function RequestWithManualBackoff(attempts: Attempts): (c: Call)
    ensures 1 <= c.calls <= MANUAL_ATTEMPTS
    ensures forall k :: 1 <= k < c.calls ==> Rejected(attempts(k))
    ensures c.Returned? ==> attempts(c.calls) == Answered(c.response) && !Throttled(c.response.status)
    ensures c.Raised? && c.failure.Uncaught? <==> attempts(c.calls).Escaped?
    ensures c.Raised? && c.failure.Uncaught? ==> c.failure.error == attempts(c.calls).error
    ensures c.Raised? && !c.failure.Uncaught? <==> forall k :: 1 <= k <= MANUAL_ATTEMPTS ==> Rejected(attempts(k))
    ensures c.Raised? && !c.failure.Uncaught? ==>
              c.failure == if LastThrown(attempts, MANUAL_ATTEMPTS).Some?
                           then LastException(LastThrown(attempts, MANUAL_ATTEMPTS).value)
                           else Exhausted
  {
    Loop(attempts, 1, None)
  }

  /**
   * An exception other than a request exception ends the loop on the call
   * that raises it, however the later calls would have gone: the loop
   * raises it exactly when it comes after nothing but rejected calls.
   */
  lemma EscapeEndsLoop(attempts: Attempts, k: nat)
    requires 1 <= k <= MANUAL_ATTEMPTS && attempts(k).Escaped?
    ensures var c := RequestWithManualBackoff(attempts);
            c == Raised(Uncaught(attempts(k).error), k) <==> forall j :: 1 <= j < k ==> Rejected(attempts(j))
  {
  }

  /**
   * `LastThrown` is the message of a call that raised, with no call raising
   * after it, and it is absent only when no call raised.
   */
  lemma {:induction false} LastThrownIsLatest(attempts: Attempts, n: nat)
    ensures var e := LastThrown(attempts, n);
            && (e.Some? <==> exists k :: 1 <= k <= n && attempts(k).Threw?)
            && (e.Some? ==> exists k :: 1 <= k <= n && attempts(k) == Threw(e.value)
                              && forall j :: k < j <= n ==> !attempts(j).Threw?)
  {
    if n > 0 {
      LastThrownIsLatest(attempts, n - 1);
      if !attempts(n).Threw? && LastThrown(attempts, n).Some? {
        var k :| 1 <= k <= n - 1 && attempts(k) == Threw(LastThrown(attempts, n).value)
                 && forall j :: k < j <= n - 1 ==> !attempts(j).Threw?;
        assert forall j :: k < j <= n ==> !attempts(j).Threw?;
      }
    }
  }

  /** The loop looks at no call after the fifth. */
  lemma OnlyFirstAttemptsMatter(a: Attempts, b: Attempts)
    requires forall k :: 1 <= k <= MANUAL_ATTEMPTS ==> a(k) == b(k)
    ensures RequestWithManualBackoff(a) == RequestWithManualBackoff(b)
  {
    LoopAgrees(a, b, 1, None);
  }

  lemma {:induction false} LoopAgrees(a: Attempts, b: Attempts, attempt: nat, last: Option<string>)
    requires forall k :: 1 <= k <= MANUAL_ATTEMPTS ==> a(k) == b(k)
    requires 1 <= attempt <= MANUAL_ATTEMPTS + 1
    requires last == LastThrown(a, attempt - 1) == LastThrown(b, attempt - 1)
    requires forall k :: 1 <= k < attempt ==> Rejected(a(k))
    ensures Loop(a, attempt, last) == Loop(b, attempt, last)
    decreases MANUAL_ATTEMPTS + 1 - attempt
  {
    if attempt <= MANUAL_ATTEMPTS {
      match a(attempt)
      case Threw(e) => LoopAgrees(a, b, attempt + 1, Some(e));
      case Escaped(_) =>
      case Answered(r) =>
        if Throttled(r.status) {
          LoopAgrees(a, b, attempt + 1, last);
        }
    }
  }
}
