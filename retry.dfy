/** The retry decorator (`async_retry`): call the wrapped operation up to
    `retries` times, return the first success, sleep a fixed `delay` after
    each failure that is not the last, and re-raise the last failure.

    The wrapped operation is a function from the attempt number (0, 1, ...)
    to what that call does, so any sequence of outcomes can be modelled. The
    calls and the sleeps are recorded in a log of events instead of being
    performed. */
module Retry {

  /** What one call of the wrapped operation does: return a value, raise an
      `Exception` (which the wrapper catches), or raise a `BaseException`
      that is not an `Exception`, such as `CancelledError`,
      `KeyboardInterrupt` or `SystemExit` (which `except Exception` does not
      catch, so it leaves the wrapper at once). */
  datatype Outcome<+T, +E> = Ok(value: T) | Raised(error: E) | Escaped(error: E)

  /** How the wrapper ends: with the first success, by re-raising the last
      attempt's exception, by letting an uncaught `BaseException` pass
      through, because `time.sleep` rejected a negative delay (it raises
      `ValueError`), or, when `retries <= 0`, by falling off the end of the
      function, which returns `None`. */
  datatype Exit<+T, +E> = Returned(value: T) | Reraised(error: E) | Propagated(error: E) | SleepFailed | ReturnedNone

  /** One thing the wrapper did: call the operation, or sleep. */
  datatype Event = Call | Sleep(seconds: real)

  datatype RetryRun<+T, +E> = RetryRun(exit: Exit<T, E>, log: seq<Event>)

  const DefaultRetries: int := 3
  const DefaultDelay: real := 1.0

  /** The first attempt below `n` that ends the loop without a retry (it
      succeeds, or raises something `except Exception` does not catch), or
      `n` when every attempt below `n` raises an `Exception`. */
  function FirstFinal<T, E>(op: nat -> Outcome<T, E>, n: nat): (k: nat)
    ensures k <= n
    ensures forall j :: 0 <= j < k ==> op(j).Raised?
    ensures k < n ==> !op(k).Raised?
  {
    if n == 0 then 0
    else
      var k := FirstFinal(op, n - 1);
      if k < n - 1 then k else if !op(n - 1).Raised? then n - 1 else n
  }

  /** `n` failed attempts, each followed by its sleep. */
  function Rounds(n: nat, delay: real): seq<Event> {
    if n == 0 then [] else Rounds(n - 1, delay) + [Call, Sleep(delay)]
  }

  /** What the wrapper does, stated in one piece: no call at all when
      `retries <= 0`; otherwise failed attempts, each followed by a sleep,
      then one last call that succeeds, raises an uncaught `BaseException`
      or is the final attempt. A negative delay ends the run at the first
      sleep. */
  function Expected<T, E>(op: nat -> Outcome<T, E>, retries: int, delay: real): RetryRun<T, E> {
    if retries <= 0 then RetryRun(ReturnedNone, [])
    else
      var k := FirstFinal(op, retries);
      if k < retries then
        if k > 0 && delay < 0.0 then RetryRun(SleepFailed, [Call])
        else if op(k).Ok? then RetryRun(Returned(op(k).value), Rounds(k, delay) + [Call])
        else RetryRun(Propagated(op(k).error), Rounds(k, delay) + [Call])
      else if retries > 1 && delay < 0.0 then RetryRun(SleepFailed, [Call])
      else RetryRun(Reraised(op(retries - 1).error), Rounds(retries - 1, delay) + [Call])
  }

  /** The wrapper's loop: `for attempt in range(retries)`, with the early
      return on success, the re-raise on the last attempt, the sleep between
      attempts, and an uncaught `BaseException` leaving at once. */
  method AsyncRetry<T, E>(op: nat -> Outcome<T, E>, retries: int, delay: real)
    returns (exit: Exit<T, E>, log: seq<Event>)
    ensures RetryRun(exit, log) == Expected(op, retries, delay)
  {
    log := [];
    var attempt: nat := 0;
    while attempt < retries
      invariant attempt == 0 || attempt < retries
      invariant forall j :: 0 <= j < attempt ==> op(j).Raised?
      invariant attempt > 0 ==> delay >= 0.0
      invariant log == Rounds(attempt, delay)
    {
      log := log + [Call];
      match op(attempt) {
        case Ok(v) =>
          exit := Returned(v);
          FirstFinalIs(op, retries, attempt);
          return;
        case Escaped(e) =>
          exit := Propagated(e);
          FirstFinalIs(op, retries, attempt);
          return;
        case Raised(e) =>
          if attempt == retries - 1 {
            exit := Reraised(e);
            FirstFinalIs(op, retries, retries);
            return;
          }
          if delay < 0.0 {
            exit := SleepFailed;
            FirstFinalAfter(op, retries, attempt);
            return;
          }
          log := log + [Sleep(delay)];
      }
      attempt := attempt + 1;
    }
    exit := ReturnedNone;
  }

  /** `FirstFinal` is pinned down by its contract. */
  lemma FirstFinalIs<T, E>(op: nat -> Outcome<T, E>, n: nat, k: nat)
    requires k <= n
    requires forall j :: 0 <= j < k ==> op(j).Raised?
    requires k < n ==> !op(k).Raised?
    ensures FirstFinal(op, n) == k
  {
    var f := FirstFinal(op, n);
    if f < k {
      assert false;
    } else if k < f {
      assert false;
    }
  }

  /** When the attempts up to `a` raise an `Exception`, the first attempt
      that ends the loop comes after `a`. */
  lemma FirstFinalAfter<T, E>(op: nat -> Outcome<T, E>, n: nat, a: nat)
    requires a < n
    requires forall j :: 0 <= j <= a ==> op(j).Raised?
    ensures a < FirstFinal(op, n)
  {
    var f := FirstFinal(op, n);
    if f <= a {
      assert false;
    }
  }

  // ---------------------------------------------------------------------
  // Counting the log

  function CallCount(log: seq<Event>): nat {
    if log == [] then 0 else CallCount(log[..|log| - 1]) + (if log[|log| - 1] == Call then 1 else 0)
  }

  function SleepCount(log: seq<Event>): nat {
    if log == [] then 0 else SleepCount(log[..|log| - 1]) + (if log[|log| - 1].Sleep? then 1 else 0)
  }

  /** `n` rounds hold `n` calls and `n` sleeps, every sleep of `delay`, and
      they alternate: a call at every even position, a sleep at every odd one. */
  lemma {:induction false} RoundsShape(n: nat, delay: real)
    ensures |Rounds(n, delay)| == 2 * n
    ensures CallCount(Rounds(n, delay)) == n && SleepCount(Rounds(n, delay)) == n
    ensures forall i :: 0 <= i < 2 * n ==>
      Rounds(n, delay)[i] == if i % 2 == 0 then Call else Sleep(delay)
  {
    if n > 0 {
      RoundsShape(n - 1, delay);
      var r := Rounds(n, delay);
      var r' := Rounds(n - 1, delay);
      assert r[..|r| - 1] == r' + [Call];
      assert (r' + [Call])[..|r'|] == r';
    }
  }

  /** The log of a run that makes `n + 1` calls: `n` rounds and a last call. */
  lemma FinalCallShape(n: nat, delay: real)
    ensures var log := Rounds(n, delay) + [Call];
            && CallCount(log) == n + 1 && SleepCount(log) == n
            && log[|log| - 1] == Call
            && forall i :: 0 <= i < |log| ==> log[i] == if i % 2 == 0 then Call else Sleep(delay)
  {
    RoundsShape(n, delay);
    var log := Rounds(n, delay) + [Call];
    assert log[..|log| - 1] == Rounds(n, delay);
  }

  // ---------------------------------------------------------------------
  // Properties of the wrapper

  /** The operation is called at most `retries` times, and never when
      `retries <= 0`, in which case the wrapper returns `None`. */
  lemma CallsAtMostRetries<T, E>(op: nat -> Outcome<T, E>, retries: int, delay: real)
    ensures var run := Expected(op, retries, delay);
            && CallCount(run.log) <= (if retries > 0 then retries else 0)
            && (retries <= 0 ==> run == RetryRun(ReturnedNone, []))
  {
    if retries > 0 {
      var k := FirstFinal(op, retries);
      FinalCallShape(k, delay);
      FinalCallShape(retries - 1, delay);
      assert CallCount([Call]) == 1 by { assert [Call][..0] == []; }
    }
  }

  /** The first success is returned and nothing is called after it: `k`
      failures followed by a success make `k + 1` calls and `k` sleeps of
      `delay` each, one between each two calls and none after the last. */
  lemma FirstSuccessReturned<T, E>(op: nat -> Outcome<T, E>, retries: int, delay: real, k: nat)
    requires k < retries && delay >= 0.0
    requires forall j :: 0 <= j < k ==> op(j).Raised?
    requires op(k).Ok?
    ensures var run := Expected(op, retries, delay);
            && run.exit == Returned(op(k).value)
            && CallCount(run.log) == k + 1 && SleepCount(run.log) == k
            && run.log[|run.log| - 1] == Call
            && forall i :: 0 <= i < |run.log| ==> run.log[i] == if i % 2 == 0 then Call else Sleep(delay)
  {
    FirstFinalIs(op, retries, k);
    FinalCallShape(k, delay);
  }

  /** When every attempt fails, the last attempt's exception is re-raised
      unchanged after `retries` calls and `retries - 1` sleeps. */
  lemma ExhaustedReraisesLast<T, E>(op: nat -> Outcome<T, E>, retries: int, delay: real)
    requires retries > 0 && delay >= 0.0
    requires forall j :: 0 <= j < retries ==> op(j).Raised?
    ensures var run := Expected(op, retries, delay);
            && run.exit == Reraised(op(retries - 1).error)
            && CallCount(run.log) == retries && SleepCount(run.log) == retries - 1
            && run.log[|run.log| - 1] == Call
  {
    FirstFinalIs(op, retries, retries);
    FinalCallShape(retries - 1, delay);
  }

  /** Caught exceptions are not classified: two operations that succeed,
      raise an `Exception` and raise an uncaught `BaseException` on the same
      attempts, with the same values and the same uncaught exceptions, lead
      to the same calls and sleeps and the same kind of exit, whatever
      `Exception`s they raise. */
  lemma ErrorsNotClassified<T, E>(op: nat -> Outcome<T, E>, op': nat -> Outcome<T, E>, retries: int, delay: real)
    requires forall j :: op(j).Raised? == op'(j).Raised?
    requires forall j :: !op(j).Raised? ==> op(j) == op'(j)
    ensures Expected(op, retries, delay).log == Expected(op', retries, delay).log
    ensures Expected(op, retries, delay).exit.Reraised? == Expected(op', retries, delay).exit.Reraised?
    ensures !Expected(op, retries, delay).exit.Reraised? ==> Expected(op, retries, delay).exit == Expected(op', retries, delay).exit
  {
    if retries > 0 {
      var k := FirstFinal(op, retries);
      FirstFinalIs(op', retries, k);
    }
  }

  /** An exception that `except Exception` does not catch ends the run right
      after the call that raised it: it passes through unchanged, nothing is
      called after it and no sleep follows it. `k` retried failures before it
      make `k + 1` calls and `k` sleeps in all. */
  lemma EscapeEndsRun<T, E>(op: nat -> Outcome<T, E>, retries: int, delay: real, k: nat)
    requires k < retries && (k == 0 || delay >= 0.0)
    requires forall j :: 0 <= j < k ==> op(j).Raised?
    requires op(k).Escaped?
    ensures var run := Expected(op, retries, delay);
            && run.exit == Propagated(op(k).error)
            && CallCount(run.log) == k + 1 && SleepCount(run.log) == k
            && run.log[|run.log| - 1] == Call
  {
    FirstFinalIs(op, retries, k);
    FinalCallShape(k, delay);
  }

  /** An uncaught exception on the first attempt is never retried, whatever
      `retries` and `delay` are: one call, no sleep. */
  lemma FirstEscapeNotRetried<T, E>(op: nat -> Outcome<T, E>, retries: int, delay: real)
    requires retries > 0 && op(0).Escaped?
    ensures Expected(op, retries, delay) == RetryRun(Propagated(op(0).error), [Call])
  {
    FirstFinalIs(op, retries, 0);
  }

  /** Two failures then a success, with the defaults: the third call's
      result is returned after exactly two sleeps of one second. */
  lemma TwoFailuresThenSuccess<T, E>(op: nat -> Outcome<T, E>)
    requires op(0).Raised? && op(1).Raised? && op(2).Ok?
    ensures Expected(op, DefaultRetries, DefaultDelay)
      == RetryRun(Returned(op(2).value), [Call, Sleep(1.0), Call, Sleep(1.0), Call])
  {
    FirstFinalIs(op, 3, 2);
  }
}
