/** `withRetry` of `src/lib/prisma.ts`: run a database operation, retrying
    transient failures with exponential backoff.

    The operation is the function `op` from the attempt number (1, 2, ...)
    to what that attempt does: return a value or throw an error. The sleeps
    are not taken; the delays asked for are returned as data. */
module PrismaRetry {
  import opened Wrappers
  import opened Text
  import ApiResponse

  /** The parts of a thrown error the retry test reads. */
  datatype DbError = DbError(code: Option<string>, message: Option<string>)

  /** What one call of the operation does. */
  datatype Outcome<T> = Success(value: T) | Failure(error: DbError)

  /** How `withRetry` ends: with a value, or by throwing `lastError`, which
      is `undefined` (None) when the operation never ran. */
  datatype Result<T> = Returned(value: T) | Threw(error: Option<DbError>)

  /** The result, the number of calls of the operation, and the delays
      waited between them, in order. */
  datatype Run<T> = Run(result: Result<T>, calls: nat, delays: seq<int>)

  const RetryableCodes: set<string> := {"P2024", "P2034", "P1001", "P1002"}

  /** `error.message?.includes(word)`: false when there is no message. */
  predicate MessageHas(e: DbError, word: string) {
    e.message.Some? && Contains(e.message.value, word)
  }

  /** Lines 57-64: a connection timeout, a transaction conflict, an
      unreachable or timed-out server, or a message that mentions a refused
      connection, a time-out or a deadlock. */
  predicate Retryable(e: DbError) {
    e.code == Some("P2024") || e.code == Some("P2034") || e.code == Some("P1001") ||
    e.code == Some("P1002") || MessageHas(e, "ECONNREFUSED") || MessageHas(e, "ETIMEDOUT") ||
    MessageHas(e, "deadlock")
  }

  /** The retryable codes are exactly the four listed ones. */
  lemma RetryableByCode(e: DbError)
    requires !MessageHas(e, "ECONNREFUSED") && !MessageHas(e, "ETIMEDOUT") && !MessageHas(e, "deadlock")
    ensures Retryable(e) <==> e.code.Some? && e.code.value in RetryableCodes
  {
  }

  /** A failure with a retryable code is one the response helper reports as
      "try again": 503, or 409 for a transaction conflict. A duplicate entry
      is also a 409, but not retried. */
  lemma RetryableCodesAreTransient(code: Option<string>)
    ensures var r := ApiResponse.HandlePrismaError(ApiResponse.PrismaError(code, ApiResponse.NoTarget));
      (code.Some? && code.value in RetryableCodes) <==>
        r.status == 503 || r.body.code == Some(ApiResponse.TRANSACTION_CONFLICT)
  {
    ApiResponse.PrismaErrorTable(ApiResponse.PrismaError(code, ApiResponse.NoTarget));
  }

  function Pow2(k: nat): (p: nat)
    ensures p >= 1
  {
    if k == 0 then 1 else 2 * Pow2(k - 1)
  }

  /** `delayMs * Math.pow(2, attempt - 1)`: the wait after a retryable
      failure of attempt `attempt`. */
  function Backoff(delayMs: int, attempt: nat): int
    requires attempt >= 1
  {
    delayMs * Pow2(attempt - 1)
  }

  /** The loop from attempt `attempt` on, with `lastError` thrown by the
      previous attempt (None before the first). */
  function Retry<T>(op: nat -> Outcome<T>, maxRetries: int, delayMs: int, attempt: nat,
                    lastError: Option<DbError>): Run<T>
    requires attempt >= 1
    decreases if attempt <= maxRetries then maxRetries - attempt + 1 else 0
  {
    if attempt > maxRetries then Run(Threw(lastError), attempt - 1, [])
    else match op(attempt)
      case Success(v) => Run(Returned(v), attempt, [])
      case Failure(e) =>
        if !Retryable(e) || attempt == maxRetries then Run(Threw(Some(e)), attempt, [])
        else
          var rest := Retry(op, maxRetries, delayMs, attempt + 1, Some(e));
          rest.(delays := [Backoff(delayMs, attempt)] + rest.delays)
  }

  /** `withRetry(operation, maxRetries = 3, delayMs = 100)`, as a value. */
  function RetrySpec<T>(op: nat -> Outcome<T>, maxRetries: int := 3, delayMs: int := 100): Run<T> {
    Retry(op, maxRetries, delayMs, 1, None)
  }

  /** `withRetry(operation, maxRetries, delayMs)`: the `for` loop over
      `attempt`. */
  method WithRetry<T>(op: nat -> Outcome<T>, maxRetries: int := 3, delayMs: int := 100)
    returns (run: Run<T>)
    ensures run == RetrySpec(op, maxRetries, delayMs)
  {
    var lastError: Option<DbError> := None;
    var delays: seq<int> := [];
    var attempt: nat := 1;
    while attempt <= maxRetries
      invariant attempt >= 1
      invariant var rest := Retry(op, maxRetries, delayMs, attempt, lastError);
        RetrySpec(op, maxRetries, delayMs) == rest.(delays := delays + rest.delays)
      decreases maxRetries - attempt
    {
      var outcome := op(attempt);
      if outcome.Success? {
        return Run(Returned(outcome.value), attempt, delays);
      }
      var error := outcome.error;
      lastError := Some(error);
      if !Retryable(error) || attempt == maxRetries {
        return Run(Threw(Some(error)), attempt, delays);
      }
      var delay := delayMs * Pow2(attempt - 1);
      ghost var before := delays;
      delays := delays + [delay];
      assert before + ([delay] + Retry(op, maxRetries, delayMs, attempt + 1, lastError).delays)
          == delays + Retry(op, maxRetries, delayMs, attempt + 1, lastError).delays;
      attempt := attempt + 1;
    }
    assert delays + [] == delays;
    return Run(Threw(lastError), attempt - 1, delays);
  }

  /** What the loop does from attempt `attempt` on, when that attempt is
      within the limit: every call before the last failed retryably, the
      last call is the first success or the error that is thrown, and each
      retry waited twice as long as the one before. */
  lemma {:induction false} RetryFacts<T>(op: nat -> Outcome<T>, maxRetries: int, delayMs: int,
                                         attempt: nat, lastError: Option<DbError>)
    requires 1 <= attempt <= maxRetries
    ensures var r := Retry(op, maxRetries, delayMs, attempt, lastError);
      && attempt <= r.calls <= maxRetries
      && |r.delays| == r.calls - attempt
      && (forall k :: 0 <= k < |r.delays| ==> r.delays[k] == Backoff(delayMs, attempt + k))
      && (forall j :: attempt <= j < r.calls ==> op(j).Failure? && Retryable(op(j).error))
      && (r.result.Returned? ==> op(r.calls) == Success(r.result.value))
      && (r.result.Threw? ==> op(r.calls).Failure? && r.result.error == Some(op(r.calls).error)
                              && (!Retryable(op(r.calls).error) || r.calls == maxRetries))
    decreases maxRetries - attempt
  {
    var r := Retry(op, maxRetries, delayMs, attempt, lastError);
    match op(attempt)
    case Success(v) =>
    case Failure(e) =>
      if Retryable(e) && attempt != maxRetries {
        var rest := Retry(op, maxRetries, delayMs, attempt + 1, Some(e));
        RetryFacts(op, maxRetries, delayMs, attempt + 1, Some(e));
        assert r.delays == [Backoff(delayMs, attempt)] + rest.delays;
        forall k | 0 <= k < |r.delays| ensures r.delays[k] == Backoff(delayMs, attempt + k) {
          if k > 0 {
            assert r.delays[k] == rest.delays[k - 1];
          }
        }
      }
  }

  /** `withRetry` calls the operation at most `maxRetries` times (never when
      that is below 1, and then throws `undefined`); it returns the first
      success at once; it rethrows a non-retryable error at once and the
      last error after `maxRetries` retryable failures; and the wait before
      attempt k + 1 is `delayMs * 2^(k - 1)`. */
  lemma RetryContract<T>(op: nat -> Outcome<T>, maxRetries: int, delayMs: int)
    ensures var r := RetrySpec(op, maxRetries, delayMs);
      && (maxRetries < 1 ==> r == Run(Threw(None), 0, []))
      && (maxRetries >= 1 ==> 1 <= r.calls <= maxRetries && |r.delays| == r.calls - 1)
      && (forall k :: 0 <= k < |r.delays| ==> r.delays[k] == delayMs * Pow2(k))
      && (forall j :: 1 <= j < r.calls ==> op(j).Failure? && Retryable(op(j).error))
      && (r.result.Returned? ==> op(r.calls) == Success(r.result.value))
      && (maxRetries >= 1 && r.result.Threw? ==>
            op(r.calls).Failure? && r.result.error == Some(op(r.calls).error) &&
            (!Retryable(op(r.calls).error) || r.calls == maxRetries))
  {
    if maxRetries >= 1 {
      RetryFacts(op, maxRetries, delayMs, 1, None);
    }
  }

  /** An operation that succeeds at once is called once and never waited for. */
  lemma FirstTrySucceeds<T>(op: nat -> Outcome<T>, maxRetries: int, delayMs: int)
    requires maxRetries >= 1 && op(1).Success?
    ensures RetrySpec(op, maxRetries, delayMs) == Run(Returned(op(1).value), 1, [])
  {
  }

  /** An operation that always fails retryably is called `maxRetries`
      times, and the last error is thrown. */
  lemma AlwaysTransient<T>(op: nat -> Outcome<T>, maxRetries: int, delayMs: int)
    requires maxRetries >= 1
    requires forall j :: 1 <= j <= maxRetries ==> op(j).Failure? && Retryable(op(j).error)
    ensures RetrySpec(op, maxRetries, delayMs).calls == maxRetries
    ensures RetrySpec(op, maxRetries, delayMs).result == Threw(Some(op(maxRetries).error))
  {
    RetryContract(op, maxRetries, delayMs);
  }
}
