/** The request executor: one fixed request, re-issued on rate limiting and on
    bare transport failures, with every other outcome turned into exactly one
    success or error delivery. Timers are not modelled: a retry is a returned
    delay in milliseconds. */
module HttpFetcher {
  import opened Common
  import opened Strings

  /** One answer from the network to one issue of the request. */
  datatype Response<T> =
    | Done(result: T)
    | HttpError(status: int, retryAfter: Option<string>)

  /** What the executor does with one response. */
  datatype Step<T> =
    | Deliver(reply: Reply<T>, unmount: bool, report: bool)
    | Refetch(delayMillis: nat)
  {
    /** A delivery of the generic failure. */
    predicate DeliversFailed() { Deliver? && reply == Err(Failed) }
  }

  /** A `Retry-After` value in the delay-seconds form (section 10.2.3 of
      RFC 9110): one or more decimal digits. */
  predicate IsDelaySeconds(v: string)
  {
    |v| > 0 && AllDigits(v, 10)
  }

  /** The timer delay `retryAfter * 1000`: delay-seconds scaled to
      milliseconds. Any other form (an HTTP-date) coerces to NaN, which a timer
      reads as no delay. */
  function RetryDelay(v: string): (ms: nat)
    ensures IsDelaySeconds(v) ==> ms == ParseBase(v, 10) * 1000
    ensures !IsDelaySeconds(v) ==> ms == 0
  {
    if IsDelaySeconds(v) then ParseBase(v, 10) * 1000 else 0
  }

  /** `handleError`, with a success passed straight through. `empty` is what
      a 416 delivers: an empty buffer. */
  function Classify<T>(resp: Response<T>, empty: T): (s: Step<T>)
    ensures resp.Done? ==> s == Deliver(Ok(resp.result), false, false)
    ensures resp.HttpError? && resp.status in {404, 409} ==> s == Deliver(Err(NotFound), false, false)
    ensures resp.HttpError? && resp.status == 416 ==> s == Deliver(Ok(empty), false, false)
    ensures resp.HttpError? && resp.status == 401 ==> s == Deliver(Err(InvalidOperation), true, false)
    ensures s.Refetch? <==>
      (resp.HttpError? && (resp.status == 0 || (resp.status == 429 && Truthy(resp.retryAfter))))
    ensures s.Refetch? && resp.status == 429 ==> s.delayMillis == RetryDelay(resp.retryAfter.value)
    ensures s.Refetch? && resp.status == 0 ==> s.delayMillis == 1000
    ensures s.DeliversFailed() <==>
      (resp.HttpError? && resp.status !in {0, 401, 404, 409, 416} &&
       !(resp.status == 429 && Truthy(resp.retryAfter)))
    ensures (s.Deliver? && s.report) <==>
      (s.DeliversFailed() && (resp.status == 429 || resp.status < 500 || 599 < resp.status))
    ensures (s.Deliver? && s.unmount) <==> (resp.HttpError? && resp.status == 401)
    ensures (s.Deliver? && s.reply == Err(InvalidOperation)) <==> (resp.HttpError? && resp.status == 401)
  {
    match resp
    case Done(result) => Deliver(Ok(result), false, false)
    case HttpError(status, retryAfter) =>
      if status == 404 || status == 409 then Deliver(Err(NotFound), false, false)
      else if status == 416 then Deliver(Ok(empty), false, false)
      else if status == 401 then Deliver(Err(InvalidOperation), true, false)
      else if status == 429 then
        if Truthy(retryAfter) then Refetch(RetryDelay(retryAfter.value))
        else Deliver(Err(Failed), false, true)
      else if status == 0 then Refetch(1000)
      else Deliver(Err(Failed), false, status < 500 || 599 < status)
  }

  predicate IsRetry<T>(resp: Response<T>, empty: T)
  {
    Classify(resp, empty).Refetch?
  }

  /** A run of one executor: every issue of the request, the delay before each
      re-issue, and the delivery if one happened (`None`: still waiting). */
  datatype Run<R, T> = Run(issued: seq<R>, delays: seq<nat>, outcome: Option<Step<T>>)

  /** `fetch`, driven by the successive responses to the request issued at
      construction. The request never changes; each response causes exactly one
      delivery or exactly one re-issue; there is no retry bound, so the number
      of responses is the only limit. */
  function Drive<R, T>(request: R, responses: seq<Response<T>>, empty: T): (run: Run<R, T>)
    ensures forall i :: 0 <= i < |run.issued| ==> run.issued[i] == request
    ensures |run.issued| == |run.delays| + 1
    ensures |run.delays| <= |responses|
    ensures forall j :: 0 <= j < |run.delays| ==>
      IsRetry(responses[j], empty) && Classify(responses[j], empty) == Refetch(run.delays[j])
    ensures run.outcome.Some? ==>
      && |run.delays| < |responses|
      && !IsRetry(responses[|run.delays|], empty)
      && run.outcome.value == Classify(responses[|run.delays|], empty)
    ensures run.outcome.None? ==> |run.delays| == |responses|
    decreases |responses|
  {
    if |responses| == 0 then Run([request], [], None)
    else
      match Classify(responses[0], empty)
      case Refetch(d) =>
        var rest := Drive(request, responses[1..], empty);
        Run([request] + rest.issued, [d] + rest.delays, rest.outcome)
      case Deliver(reply, unmount, report) =>
        Run([request], [], Some(Deliver(reply, unmount, report)))
  }

  /** The run ends in a delivery exactly when some response is not a retry, and
      then the delivery is the classification of the first such response. */
  lemma {:induction false} DriveDelivers<R, T>(request: R, responses: seq<Response<T>>, empty: T, k: int)
    requires 0 <= k < |responses| && !IsRetry(responses[k], empty)
    requires forall j :: 0 <= j < k ==> IsRetry(responses[j], empty)
    ensures Drive(request, responses, empty).outcome == Some(Classify(responses[k], empty))
    ensures |Drive(request, responses, empty).issued| == k + 1
    decreases k
  {
    if k > 0 {
      assert IsRetry(responses[0], empty);
      DriveDelivers(request, responses[1..], empty, k - 1);
    }
  }

  /** A response sequence made only of retries leaves the request waiting,
      however long it is. */
  lemma {:induction false} RetriesNeverDeliver<R, T>(request: R, responses: seq<Response<T>>, empty: T)
    requires forall j :: 0 <= j < |responses| ==> IsRetry(responses[j], empty)
    ensures Drive(request, responses, empty).outcome == None
    ensures |Drive(request, responses, empty).issued| == |responses| + 1
    decreases |responses|
  {
    if |responses| > 0 {
      RetriesNeverDeliver(request, responses[1..], empty);
    }
  }

  /** A 429 carrying `Retry-After: n` (any decimal seconds value) re-issues
      the identical request once, `n` seconds later, and delivers nothing for
      that response. */
  lemma RetryAfterHonoured<R, T>(request: R, n: nat, next: Response<T>, empty: T)
    ensures var run := Drive(request, [HttpError(429, Some(IntToString(n))), next], empty);
      && run.issued[..2] == [request, request]
      && run.delays[0] == n * 1000
  {
    RetryDelaySeconds(n);
  }

  /** The delay read from `Retry-After` is the number of seconds the header
      spells, in milliseconds, with or without a leading zero. */
  lemma RetryDelaySeconds(n: nat)
    ensures RetryDelay(IntToString(n)) == n * 1000
    ensures RetryDelay("0" + IntToString(n)) == n * 1000
  {
    ParseLeadingZero(IntToString(n), 10);
  }
}
