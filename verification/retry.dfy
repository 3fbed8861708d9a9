/**
 * The bounded retry primitive of lib/utils/retry.ts.
 *
 * Both `retryUntilCondition` and `retryFunction` run the same loop: evaluate,
 * stop on a final answer, otherwise (unless this was the last attempt) call
 * `onRetry(attempt + 1)` and wait before the next attempt.  The loop is the
 * generic `Drive`; the condition or function is an oracle from the attempt
 * index to what that evaluation produced, and the `onRetry` calls and
 * `delay` waits are recorded as events of a trace.
 */
module Retry {
  import opened Wrappers
  import opened Digits

  /** What the loop does, in order: one evaluation, one onRetry call, one wait. */
  datatype Event = Eval | OnRetry(attempt: nat) | Wait(ms: int)

  datatype Options = Options(maxRetries: int, retryDelay: int, exponentialBackoff: bool)

  /** The options object as a caller passes it: every field may be omitted. */
  datatype Given = Given(maxRetries: Option<int>, retryDelay: Option<int>, exponentialBackoff: Option<bool>)

  /** Destructuring with defaults: 5 attempts, 200 ms, no backoff. */
  function WithDefaults(g: Given): (o: Options)
    ensures g.maxRetries.None? ==> o.maxRetries == 5
    ensures g.retryDelay.None? ==> o.retryDelay == 200
    ensures g.exponentialBackoff.None? ==> !o.exponentialBackoff
    ensures g.maxRetries.Some? ==> o.maxRetries == g.maxRetries.value
    ensures g.retryDelay.Some? ==> o.retryDelay == g.retryDelay.value
    ensures g.exponentialBackoff.Some? ==> o.exponentialBackoff == g.exponentialBackoff.value
  {
    Options(g.maxRetries.GetOr(5), g.retryDelay.GetOr(200), g.exponentialBackoff.GetOr(false))
  }

  /**
   * Omitting a field is the same as passing its default; options given in
   * full are taken as they are, and none given means 5 attempts of 200 ms.
   */
  lemma DefaultsLaws(g: Given, o: Options)
    ensures WithDefaults(Given(None, None, None)) == Options(5, 200, false)
    ensures WithDefaults(Given(Some(o.maxRetries), Some(o.retryDelay), Some(o.exponentialBackoff))) == o
    ensures WithDefaults(g.(maxRetries := Some(5))) == WithDefaults(g.(maxRetries := None))
    ensures WithDefaults(g.(retryDelay := Some(200))) == WithDefaults(g.(retryDelay := None))
    ensures WithDefaults(g.(exponentialBackoff := Some(false))) == WithDefaults(g.(exponentialBackoff := None))
  {
  }

  /** The wait after the failed attempt `attempt` (counted from 0). */
  function Delay(opts: Options, attempt: nat): int
  {
    if opts.exponentialBackoff then opts.retryDelay * Pow2(attempt) else opts.retryDelay
  }

  /**
   * The i-th event of a run whose first attempt is `from`: every attempt
   * contributes Eval, OnRetry(attempt + 1), Wait(delay) in that order.
   */
  function ScheduleEvent(opts: Options, from: nat, i: nat): Event
  {
    if i % 3 == 0 then Eval
    else if i % 3 == 1 then OnRetry(from + i / 3 + 1)
    else Wait(Delay(opts, from + i / 3))
  }

  /** `t` is the trace of `n` evaluations from attempt `from`: no wait after the last one. */
  ghost predicate IsSchedule(t: seq<Event>, opts: Options, from: nat, n: nat)
  {
    && |t| == (if n == 0 then 0 else 3 * n - 2)
    && forall i :: 0 <= i < |t| ==> t[i] == ScheduleEvent(opts, from, i)
  }

  /** The number of evaluations a schedule-shaped trace records. */
  function Performed(t: seq<Event>): nat
  {
    (|t| + 2) / 3
  }

  /** Attempts left from `a`: `maxRetries - a`, never negative. */
  function Span(opts: Options, a: nat): nat
  {
    if a < opts.maxRetries then opts.maxRetries - a else 0
  }

  /** One evaluation either ends the loop with a result or fails and asks for another. */
  datatype Step<R, X> = Done(result: R) | Again(failure: X)

  /** How the loop ended: with a result, or out of attempts holding the last failure. */
  datatype Final<R, X> = Stopped(result: R) | OutOfAttempts(last: Option<X>)

  datatype Run<R, X> = Run(final: Final<R, X>, trace: seq<Event>)

  /** The loop `for (attempt = a; attempt < maxRetries; attempt++)`. */
  function Drive<R, X>(step: nat -> Step<R, X>, opts: Options, a: nat, last: Option<X>): Run<R, X>
    decreases Span(opts, a)
  {
    if a >= opts.maxRetries then Run(OutOfAttempts(last), [])
    else
      match step(a)
      case Done(r) => Run(Stopped(r), [Eval])
      case Again(x) =>
        var rest := Drive(step, opts, a + 1, Some(x));
        var pause := if a < opts.maxRetries - 1 then [OnRetry(a + 1), Wait(Delay(opts, a))] else [];
        Run(rest.final, [Eval] + pause + rest.trace)
  }

  /** A schedule of at least two evaluations is one full attempt followed by a schedule. */
  lemma ScheduleCons(t: seq<Event>, opts: Options, from: nat, n: nat)
    requires n >= 1
    requires |t| == 3 * n + 1
    requires t[..3] == [Eval, OnRetry(from + 1), Wait(Delay(opts, from))]
    requires IsSchedule(t[3..], opts, from + 1, n)
    ensures IsSchedule(t, opts, from, n + 1)
  {
    forall i | 0 <= i < |t|
      ensures t[i] == ScheduleEvent(opts, from, i)
    {
      if i >= 3 {
        assert t[i] == t[3..][i - 3];
        assert (i - 3) % 3 == i % 3 && (i - 3) / 3 == i / 3 - 1;
      } else {
        assert t[i] == t[..3][i];
      }
    }
  }

  /** The tail of a schedule after one full attempt is the schedule of the remaining attempts. */
  lemma ScheduleTail(t: seq<Event>, opts: Options, from: nat, n: nat)
    requires n >= 2 && IsSchedule(t, opts, from, n)
    ensures t[..3] == [Eval, OnRetry(from + 1), Wait(Delay(opts, from))]
    ensures IsSchedule(t[3..], opts, from + 1, n - 1)
  {
    assert t[0] == ScheduleEvent(opts, from, 0);
    assert t[1] == ScheduleEvent(opts, from, 1);
    assert t[2] == ScheduleEvent(opts, from, 2);
    forall i | 0 <= i < |t| - 3
      ensures t[3..][i] == ScheduleEvent(opts, from + 1, i)
    {
      assert t[3..][i] == t[i + 3] == ScheduleEvent(opts, from, i + 3);
      assert (i + 3) % 3 == i % 3 && (i + 3) / 3 == i / 3 + 1;
    }
  }

  /**
   * What the loop does from attempt `a`: it records the schedule of the
   * evaluations it performs, never more than the attempts left; every
   * evaluation but the last failed; and it stops on the first result or runs
   * out holding the last failure.
   */
  lemma {:induction false} DriveShape<R, X>(step: nat -> Step<R, X>, opts: Options, a: nat, last: Option<X>)
    ensures var r := Drive(step, opts, a, last);
      var n := Performed(r.trace);
      && IsSchedule(r.trace, opts, a, n)
      && n <= Span(opts, a)
      && (forall j :: a <= j < a + n - 1 ==> step(j).Again?)
      && (r.final.Stopped? ==> n >= 1 && step(a + n - 1) == Done(r.final.result))
      && (r.final.OutOfAttempts? ==> n == Span(opts, a))
      && (r.final.OutOfAttempts? && n >= 1 ==>
            step(a + n - 1).Again? && r.final.last == Some(step(a + n - 1).failure))
      && (r.final.OutOfAttempts? && n == 0 ==> r.final.last == last)
    decreases Span(opts, a)
  {
    var r := Drive(step, opts, a, last);
    if a >= opts.maxRetries {
    } else {
      match step(a)
      case Done(v) =>
        assert r.trace == [Eval];
      case Again(x) =>
        var rest := Drive(step, opts, a + 1, Some(x));
        DriveShape(step, opts, a + 1, Some(x));
        var m := Performed(rest.trace);
        if a < opts.maxRetries - 1 {
          assert r.trace == [Eval, OnRetry(a + 1), Wait(Delay(opts, a))] + rest.trace;
          assert m >= 1;
          assert r.trace[..3] == [Eval, OnRetry(a + 1), Wait(Delay(opts, a))];
          assert r.trace[3..] == rest.trace;
          ScheduleCons(r.trace, opts, a, m);
          assert Performed(r.trace) == m + 1;
        } else {
          assert rest.trace == [] && r.trace == [Eval];
        }
    }
  }

  /** Count of the evaluations in a trace. */
  function Evaluations(t: seq<Event>): nat
  {
    if t == [] then 0 else (if t[0].Eval? then 1 else 0) + Evaluations(t[1..])
  }

  /** Count of the waits in a trace. */
  function Waits(t: seq<Event>): nat
  {
    if t == [] then 0 else (if t[0].Wait? then 1 else 0) + Waits(t[1..])
  }

  /** Count of the onRetry calls in a trace. */
  function Retries(t: seq<Event>): nat
  {
    if t == [] then 0 else (if t[0].OnRetry? then 1 else 0) + Retries(t[1..])
  }

  /** A schedule of n evaluations holds n evaluations and n - 1 onRetry calls and waits. */
  lemma {:induction false} ScheduleCounts(t: seq<Event>, opts: Options, from: nat, n: nat)
    requires IsSchedule(t, opts, from, n)
    ensures Evaluations(t) == n
    ensures Waits(t) == (if n == 0 then 0 else n - 1)
    ensures Retries(t) == (if n == 0 then 0 else n - 1)
    decreases n
  {
    if n == 1 {
      assert t == [Eval];
      assert t[1..] == [];
    } else if n >= 2 {
      ScheduleTail(t, opts, from, n);
      ScheduleCounts(t[3..], opts, from + 1, n - 1);
      assert t[1..][1..][1..] == t[3..];
      assert t[1..][0] == t[1] && t[1..][1..][0] == t[2];
      assert Evaluations(t) == 1 + Evaluations(t[1..]);
      assert Evaluations(t[1..]) == Evaluations(t[1..][1..]);
      assert Evaluations(t[1..][1..]) == Evaluations(t[3..]);
      assert Waits(t) == Waits(t[1..]);
      assert Waits(t[1..]) == Waits(t[1..][1..]);
      assert Waits(t[1..][1..]) == 1 + Waits(t[3..]);
      assert Retries(t) == Retries(t[1..]);
      assert Retries(t[1..]) == 1 + Retries(t[1..][1..]);
      assert Retries(t[1..][1..]) == Retries(t[3..]);
    }
  }

  /** What evaluating the condition produced: a boolean, or a thrown error. */
  datatype Check<E> = Holds(ok: bool) | Throws(error: E)

  /** `retryUntilCondition` resolves, rejects with the exhaustion error, or rethrows the condition's error. */
  datatype ConditionOutcome<E> = Met | Exhausted(message: string) | Raised(error: E)

  datatype Attempted<T> = Attempted(outcome: T, trace: seq<Event>)

  function ExhaustionMessage(maxRetries: int): string
  {
    "Condition not met after " + IntToString(maxRetries) + " attempts"
  }

  function ConditionStep<E>(c: Check<E>): Step<ConditionOutcome<E>, ()>
  {
    match c
    case Holds(true) => Done(Met)
    case Holds(false) => Again(())
    case Throws(e) => Done(Raised(e))
  }

  /**
   * `retryUntilCondition(condition, options)`: `cond(a)` is what the
   * condition produced at attempt `a`.
   */
  function RetryUntilCondition<E>(cond: nat -> Check<E>, opts: Options): (r: Attempted<ConditionOutcome<E>>)
    ensures var n := Performed(r.trace);
      && IsSchedule(r.trace, opts, 0, n)
      && n <= Span(opts, 0)
      && (forall j :: 0 <= j < n - 1 ==> cond(j) == Holds(false))
      && (r.outcome == Met <==> n >= 1 && cond(n - 1) == Holds(true))
      && (r.outcome.Raised? <==> n >= 1 && cond(n - 1).Throws?)
      && (r.outcome.Raised? ==> cond(n - 1) == Throws(r.outcome.error))
      && (r.outcome.Exhausted? <==> n == Span(opts, 0) && (n == 0 || cond(n - 1) == Holds(false)))
      && (r.outcome.Exhausted? ==> r.outcome.message == ExhaustionMessage(opts.maxRetries))
  {
    var step := (a: nat) => ConditionStep(cond(a));
    var run := Drive(step, opts, 0, None);
    DriveShape(step, opts, 0, None);
    assert forall j :: 0 <= j < Performed(run.trace) - 1 ==> cond(j) == Holds(false) by {
      forall j | 0 <= j < Performed(run.trace) - 1
        ensures cond(j) == Holds(false)
      {
        assert step(j).Again?;
      }
    }
    var outcome := match run.final
      case Stopped(o) => o
      case OutOfAttempts(_) => Exhausted(ExhaustionMessage(opts.maxRetries));
    Attempted(outcome, run.trace)
  }

  /** If the condition first holds at evaluation k ≤ maxRetries, there are exactly k evaluations and k - 1 onRetry calls and waits. */
  lemma FirstSuccessAt<E>(cond: nat -> Check<E>, opts: Options, k: nat)
    requires 1 <= k <= opts.maxRetries
    requires cond(k - 1) == Holds(true)
    requires forall j :: 0 <= j < k - 1 ==> cond(j) == Holds(false)
    ensures RetryUntilCondition(cond, opts).outcome == Met
    ensures Evaluations(RetryUntilCondition(cond, opts).trace) == k
    ensures Waits(RetryUntilCondition(cond, opts).trace) == k - 1
    ensures Retries(RetryUntilCondition(cond, opts).trace) == k - 1
  {
    var r := RetryUntilCondition(cond, opts);
    var n := Performed(r.trace);
    ScheduleCounts(r.trace, opts, 0, n);
  }

  /**
   * If every one of maxRetries ≥ 1 evaluations is false: the exhaustion error
   * naming maxRetries, maxRetries evaluations, maxRetries - 1 waits, and the
   * trace ends with the last evaluation, not with a wait.
   */
  lemma ExhaustsAfterAll<E>(cond: nat -> Check<E>, opts: Options)
    requires opts.maxRetries >= 1
    requires forall j :: 0 <= j < opts.maxRetries ==> cond(j) == Holds(false)
    ensures RetryUntilCondition(cond, opts).outcome == Exhausted(ExhaustionMessage(opts.maxRetries))
    ensures Evaluations(RetryUntilCondition(cond, opts).trace) == opts.maxRetries
    ensures Waits(RetryUntilCondition(cond, opts).trace) == opts.maxRetries - 1
    ensures Retries(RetryUntilCondition(cond, opts).trace) == opts.maxRetries - 1
    ensures var t := RetryUntilCondition(cond, opts).trace; t[|t| - 1] == Eval
  {
    var r := RetryUntilCondition(cond, opts);
    var n := Performed(r.trace);
    if n >= 1 {
      assert cond(n - 1) == Holds(false);
    }
    ScheduleCounts(r.trace, opts, 0, n);
    assert (3 * n - 3) % 3 == 0;
    assert r.trace[|r.trace| - 1] == ScheduleEvent(opts, 0, 3 * n - 3);
  }

  /** With maxRetries ≤ 0 the condition is never evaluated and the exhaustion error is immediate. */
  lemma NoAttempts<E>(cond: nat -> Check<E>, opts: Options)
    requires opts.maxRetries <= 0
    ensures RetryUntilCondition(cond, opts) == Attempted(Exhausted(ExhaustionMessage(opts.maxRetries)), [])
  {
  }

  /**
   * onRetry receives 1, 2, 3, … in order, each call immediately followed by the
   * wait for the attempt it announces: retryDelay·2^(k-1) with backoff,
   * retryDelay without.
   */
  lemma RetryAnnouncements(t: seq<Event>, opts: Options, n: nat, i: nat)
    requires IsSchedule(t, opts, 0, n)
    requires i < |t| && t[i].OnRetry?
    ensures t[i].attempt == i / 3 + 1
    ensures i + 1 < |t| && t[i + 1] == Wait(Delay(opts, t[i].attempt - 1))
    ensures opts.exponentialBackoff ==> t[i + 1].ms == opts.retryDelay * Pow2(t[i].attempt - 1)
    ensures !opts.exponentialBackoff ==> t[i + 1].ms == opts.retryDelay
    ensures forall j :: i < j < |t| && t[j].OnRetry? ==> t[i].attempt < t[j].attempt
  {
    assert t[i] == ScheduleEvent(opts, 0, i);
    assert i % 3 == 1;
    assert (i + 1) % 3 == 2 && (i + 1) / 3 == i / 3;
    assert t[i + 1] == ScheduleEvent(opts, 0, i + 1);
    forall j | i < j < |t| && t[j].OnRetry?
      ensures t[i].attempt < t[j].attempt
    {
      assert t[j] == ScheduleEvent(opts, 0, j);
      assert j % 3 == 1;
    }
  }

  /** Without backoff every wait of a schedule lasts retryDelay. */
  lemma ScheduleWaits(t: seq<Event>, opts: Options, from: nat, n: nat)
    requires !opts.exponentialBackoff && IsSchedule(t, opts, from, n)
    ensures forall i :: 0 <= i < |t| && t[i].Wait? ==> t[i].ms == opts.retryDelay
  {
    forall i | 0 <= i < |t| && t[i].Wait?
      ensures t[i].ms == opts.retryDelay
    {
      assert t[i] == ScheduleEvent(opts, from, i);
    }
  }

  /** With backoff every wait is twice the previous one. */
  lemma BackoffDoubles(opts: Options, a: nat)
    requires opts.exponentialBackoff
    ensures Delay(opts, a + 1) == 2 * Delay(opts, a)
  {
  }

  /** What one call of the retried function did: returned a value, or threw (None: a falsy thrown value). */
  datatype Attempt<T, E> = Returns(value: T) | Raises(thrown: Option<E>)

  /** `retryFunction` returns the value, rethrows the last error, or throws its own generic error. */
  datatype FunctionOutcome<T, E> = Returned(value: T) | Rethrown(error: E) | GaveUp(message: string)

  function GaveUpMessage(maxRetries: int): string
  {
    "Function failed after " + IntToString(maxRetries) + " attempts"
  }

  function FunctionStep<T, E>(x: Attempt<T, E>): Step<T, Option<E>>
  {
    match x
    case Returns(v) => Done(v)
    case Raises(e) => Again(e)
  }

  /** `retryFunction(fn, options)`: `fn(a)` is what the call at attempt `a` did. */
  function RetryFunction<T, E>(fn: nat -> Attempt<T, E>, opts: Options): (r: Attempted<FunctionOutcome<T, E>>)
    ensures var n := Performed(r.trace);
      && IsSchedule(r.trace, opts, 0, n)
      && n <= Span(opts, 0)
      && (forall j :: 0 <= j < n - 1 ==> fn(j).Raises?)
      && (r.outcome.Returned? <==> n >= 1 && fn(n - 1).Returns?)
      && (r.outcome.Returned? ==> fn(n - 1) == Returns(r.outcome.value))
      && (r.outcome.Rethrown? <==> n == Span(opts, 0) && n >= 1 && fn(n - 1).Raises? && fn(n - 1).thrown.Some?)
      && (r.outcome.Rethrown? ==> fn(n - 1) == Raises(Some(r.outcome.error)))
      && (r.outcome.GaveUp? <==> n == Span(opts, 0) && (n == 0 || fn(n - 1) == Raises(None)))
      && (r.outcome.GaveUp? ==> r.outcome.message == GaveUpMessage(opts.maxRetries))
  {
    var step := (a: nat) => FunctionStep(fn(a));
    var run := Drive(step, opts, 0, None);
    DriveShape(step, opts, 0, None);
    assert forall j :: 0 <= j < Performed(run.trace) - 1 ==> fn(j).Raises? by {
      forall j | 0 <= j < Performed(run.trace) - 1
        ensures fn(j).Raises?
      {
        assert step(j).Again?;
      }
    }
    var outcome := match run.final
      case Stopped(v) => Returned(v)
      case OutOfAttempts(Some(Some(e))) => Rethrown(e)
      case OutOfAttempts(_) => GaveUp(GaveUpMessage(opts.maxRetries));
    Attempted(outcome, run.trace)
  }
}
