/** The circuit breaker of `resilience.py`, under arbitrarily overlapping calls. Time is a monotonic clock in seconds. */
module CircuitBreaker {

  datatype CircuitState = CLOSED | OPEN | HALF_OPEN

  datatype Breaker = Breaker(failMax: int, resetTimeout: real, failures: nat, state: CircuitState, openedAt: real)

  function New(failMax: int, resetTimeout: real): Breaker {
    Breaker(failMax, resetTimeout, 0, CLOSED, 0.0)
  }

  /** The `state` getter: an open breaker turns half-open once the reset timeout has elapsed. */
  function Poll(b: Breaker, now: real): Breaker {
    if b.state == OPEN && now - b.openedAt >= b.resetTimeout then b.(state := HALF_OPEN) else b
  }

  function OnSuccess(b: Breaker): Breaker {
    b.(failures := 0, state := CLOSED)
  }

  function OnFailure(b: Breaker, now: real): Breaker {
    var counted := b.(failures := b.failures + 1);
    if counted.failures >= b.failMax then counted.(state := OPEN, openedAt := now) else counted
  }

  datatype Outcome = Finished | Threw | Interrupted

  class AsyncCircuitBreaker {
    const failMax: int
    const resetTimeout: real
    var failures: nat
    var state: CircuitState
    var openedAt: real

    function Value(): Breaker
      reads this
    {
      Breaker(failMax, resetTimeout, failures, state, openedAt)
    }

    constructor (failMax: int, resetTimeout: real)
      ensures Value() == New(failMax, resetTimeout)
    {
      this.failMax, this.resetTimeout := failMax, resetTimeout;
      failures, state, openedAt := 0, CLOSED, 0.0;
    }

    method State(now: real) returns (s: CircuitState)
      modifies this`state
      ensures Value() == Poll(old(Value()), now) && s == state
    {
      if state == OPEN && now - openedAt >= resetTimeout {
        state := HALF_OPEN;
      }
      s := state;
    }

    method Succeeded()
      modifies this
      ensures Value() == OnSuccess(old(Value()))
    {
      failures := 0;
      state := CLOSED;
    }

    method Failed(now: real)
      modifies this
      ensures Value() == OnFailure(old(Value()), now)
    {
      failures := failures + 1;
      if failures >= failMax {
        state := OPEN;
        openedAt := now;
      }
    }

    /** What other callers do to the breaker while one call waits for its result. */
    method Overlap(events: seq<Event>)
      modifies this
      ensures Value() == Run(old(Value()), events)
    {
      for i := 0 to |events|
        invariant Value() == Run(old(Value()), events[..i])
      {
        assert events[..i + 1][..i] == events[..i];
        match events[i] {
          case Polled(now) => var _ := State(now);
          case Success => Succeeded();
          case Failure(now) => Failed(now);
          case Cancellation =>
        }
      }
      assert events[..|events|] == events;
    }

    /** `call`, with whatever other calls do to the breaker between its start and its end. */
    method Call(begin: real, others: seq<Event>, outcome: Outcome, end: real) returns (invoked: bool)
      modifies this
      ensures invoked == (Poll(old(Value()), begin).state != OPEN)
      ensures Value() == if invoked then Ended(Run(Poll(old(Value()), begin), others), outcome, end)
                         else Poll(old(Value()), begin)
    {
      var s := State(begin);
      invoked := s != OPEN;
      if invoked {
        Overlap(others);
        match outcome
        case Threw => Failed(end);
        case Finished => Succeeded();
        case Interrupted =>
      }
    }
  }

  /** The breaker after a call's result is in. Cancellation is not an `Exception`: it counts as neither success nor failure. */
  function Ended(b: Breaker, outcome: Outcome, end: real): Breaker {
    match outcome
    case Threw => OnFailure(b, end)
    case Finished => OnSuccess(b)
    case Interrupted => b
  }

  /** A whole call, with no other one meanwhile. */
  function AfterCall(b: Breaker, begin: real, outcome: Outcome, end: real): Breaker {
    var polled := Poll(b, begin);
    if polled.state == OPEN then polled else Ended(polled, outcome, end)
  }

  // ---------------------------------------------------------------- state as a function of history

  /** What happens to a breaker: calls may start, finish and be cancelled in any order, also while it is open. */
  datatype Event = Polled(now: real) | Success | Failure(now: real) | Cancellation

  function Apply(b: Breaker, e: Event): Breaker {
    match e
    case Polled(now) => Poll(b, now)
    case Success => OnSuccess(b)
    case Failure(now) => OnFailure(b, now)
    case Cancellation => b
  }

  function Run(b: Breaker, history: seq<Event>): Breaker {
    if history == [] then b
    else Apply(Run(b, history[..|history| - 1]), history[|history| - 1])
  }

  lemma RunOne(b: Breaker, e: Event)
    ensures Run(b, [e]) == Apply(b, e)
  {
    assert [e][..0] == [];
    assert Run(b, []) == b;
  }

  lemma RunTwo(b: Breaker, d: Event, e: Event)
    ensures Run(b, [d, e]) == Apply(Apply(b, d), e)
  {
    assert [d, e][..1] == [d];
    RunOne(b, d);
  }

  lemma {:induction false} RunAppend(b: Breaker, first: seq<Event>, second: seq<Event>)
    ensures Run(b, first + second) == Run(Run(b, first), second)
    decreases |second|
  {
    if second == [] {
      assert first + second == first;
    } else {
      var n := |second| - 1;
      assert (first + second)[..|first| + n] == first + second[..n];
      RunAppend(b, first, second[..n]);
    }
  }

  /** Failed completions since the last success. */
  function FailuresSinceSuccess(history: seq<Event>): nat {
    if history == [] then 0
    else
      var rest := FailuresSinceSuccess(history[..|history| - 1]);
      match history[|history| - 1]
      case Success => 0
      case Failure(_) => rest + 1
      case Polled(_) => rest
      case Cancellation => rest
  }

  predicate ClosedBelowMax(b: Breaker) {
    b.state == CLOSED <==> b.failures < b.failMax
  }

  lemma {:induction false} CountIsHistory(failMax: int, resetTimeout: real, history: seq<Event>)
    ensures var b := Run(New(failMax, resetTimeout), history);
            b.failures == FailuresSinceSuccess(history) && b.failMax == failMax && b.resetTimeout == resetTimeout
    ensures failMax >= 1 ==> ClosedBelowMax(Run(New(failMax, resetTimeout), history))
  {
    if history != [] {
      CountIsHistory(failMax, resetTimeout, history[..|history| - 1]);
    }
  }

  /** After this history, the breaker is closed exactly while the failures since the last success are below `fail_max`. */
  ghost predicate ClosedByHistory(failMax: int, resetTimeout: real, history: seq<Event>) {
    Run(New(failMax, resetTimeout), history).state == CLOSED <==> FailuresSinceSuccess(history) < failMax
  }

  /** That holds after every history if and only if `fail_max` is at least 1. */
  lemma ClosedExactly(failMax: int, resetTimeout: real)
    ensures failMax >= 1 <==> forall history :: ClosedByHistory(failMax, resetTimeout, history)
  {
    if failMax >= 1 {
      forall history
        ensures ClosedByHistory(failMax, resetTimeout, history)
      {
        CountIsHistory(failMax, resetTimeout, history);
      }
    } else {
      assert !ClosedByHistory(failMax, resetTimeout, []);
    }
  }

  /**
   A failure that is at least the `fail_max`-th since the last success opens the breaker, or keeps it open, with the
   timeout starting anew.
   */
  lemma FailureOpens(failMax: int, resetTimeout: real, history: seq<Event>, now: real)
    requires FailuresSinceSuccess(history + [Failure(now)]) >= failMax
    ensures var b := Run(New(failMax, resetTimeout), history + [Failure(now)]);
            b.state == OPEN && b.openedAt == now && b.resetTimeout == resetTimeout
  {
    var all := history + [Failure(now)];
    assert all[..|all| - 1] == history;
    CountIsHistory(failMax, resetTimeout, history);
  }

  /** Short of that it only counts; and only such a failure, or the timeout, moves the time of opening or the state. */
  lemma OtherEventsExactly(failMax: int, resetTimeout: real, history: seq<Event>, e: Event)
    requires e.Failure? ==> FailuresSinceSuccess(history + [e]) < failMax
    ensures var b, next := Run(New(failMax, resetTimeout), history), Run(New(failMax, resetTimeout), history + [e]);
            && next.openedAt == b.openedAt
            && next.state == if e == Success then CLOSED
                             else if e.Polled? && b.state == OPEN && e.now - b.openedAt >= resetTimeout then HALF_OPEN
                             else b.state
  {
    assert (history + [e])[..|history|] == history;
    CountIsHistory(failMax, resetTimeout, history);
  }

  // ---------------------------------------------------------------- half-open

  /** A breaker that is not closed has failed `fail_max` times: true after any history. */
  lemma {:induction false} NotClosedHasFailed(failMax: int, resetTimeout: real, history: seq<Event>)
    ensures var b := Run(New(failMax, resetTimeout), history); b.failMax == failMax && (b.state != CLOSED ==> b.failures >= failMax)
  {
    if history != [] {
      NotClosedHasFailed(failMax, resetTimeout, history[..|history| - 1]);
    }
  }

  /** Half-open after everything done so far. */
  ghost predicate StaysHalfOpen(b: Breaker, events: seq<Event>) {
    forall i :: 0 <= i <= |events| ==> Run(b, events[..i]).state == HALF_OPEN
  }

  predicate Completes(e: Event) {
    e.Success? || e.Failure?
  }

  /**
   A half-open period lasts until the first completion, of whichever call it is: a second call, which is a second poll, is
   let through in the same period if and only if no call has completed since the first.
   */
  lemma {:induction false} HalfOpenExactly(b: Breaker, events: seq<Event>)
    requires b.state == HALF_OPEN && b.failures >= b.failMax
    ensures StaysHalfOpen(b, events) <==> forall e :: e in events ==> !Completes(e)
    ensures StaysHalfOpen(b, events) ==> Run(b, events) == b
  {
    if events == [] {
      assert events[..0] == events;
    } else {
      var n := |events| - 1;
      var front, last := events[..n], events[n];
      HalfOpenExactly(b, front);
      assert events == front + [last];
      assert forall e :: e in events <==> e in front || e == last;
      assert Run(b, events) == Apply(Run(b, front), last);
      StaysHalfOpenFront(b, events);
      if StaysHalfOpen(b, front) {
        assert Apply(b, last).state == HALF_OPEN <==> !Completes(last);
      } else {
        assert exists e :: e in front && Completes(e);
      }
    }
  }

  lemma StaysHalfOpenFront(b: Breaker, events: seq<Event>)
    requires events != []
    ensures var front := events[..|events| - 1];
            StaysHalfOpen(b, events) <==> StaysHalfOpen(b, front) && Run(b, events).state == HALF_OPEN
  {
    var n := |events| - 1;
    var front := events[..n];
    assert events[..n + 1] == events;
    assert forall i :: 0 <= i <= n ==> front[..i] == events[..i];
    if StaysHalfOpen(b, events) {
      assert Run(b, events[..n + 1]).state == HALF_OPEN;
      assert forall i :: 0 <= i <= n ==> Run(b, front[..i]) == Run(b, events[..i]);
    } else if StaysHalfOpen(b, front) {
      assert forall i :: 0 <= i <= n ==> Run(b, events[..i]) == Run(b, front[..i]);
    }
  }

  /** Two calls that overlap are both let through by one half-open period. */
  lemma TwoTrials(resetTimeout: real)
    requires resetTimeout > 0.0
    ensures var shut := Run(New(1, resetTimeout), [Failure(0.0)]);
            var first := Poll(shut, resetTimeout);
            var second := Poll(first, resetTimeout);
            shut.state == OPEN && first.state == HALF_OPEN && second == first
  {
    assert [Failure(0.0)][..0] == [];
    assert Run(New(1, resetTimeout), []) == New(1, resetTimeout);
  }

  /**
   Calls one after another get one trial a period, after any history at all: a call let through half-open leaves the
   breaker half-open if and only if it was cancelled.
   */
  lemma OneTrialExactly(
    failMax: int, resetTimeout: real, history: seq<Event>, begin: real, outcome: Outcome, end: real)
    ensures var b := Run(New(failMax, resetTimeout), history);
            Poll(b, begin).state == HALF_OPEN ==>
              (AfterCall(b, begin, outcome, end).state == HALF_OPEN <==> outcome == Interrupted)
  {
    NotClosedHasFailed(failMax, resetTimeout, history);
  }

  // ---------------------------------------------------------------- rate bound

  /** One attempted call against a dependency that fails: when it starts, and when it fails if it is let through. */
  datatype Attempt = Attempt(begin: real, end: real)

  datatype Driven = Driven(b: Breaker, invoked: nat)

  function Drive(b: Breaker, attempts: seq<Attempt>): Driven
    decreases |attempts|
  {
    if attempts == [] then Driven(b, 0)
    else
      var a := attempts[0];
      var through := if Poll(b, a.begin).state == OPEN then 0 else 1;
      var rest := Drive(AfterCall(b, a.begin, Threw, a.end), attempts[1..]);
      Driven(rest.b, through + rest.invoked)
  }

  ghost predicate Sequential(attempts: seq<Attempt>, start: real) {
    attempts != [] ==>
      start <= attempts[0].begin <= attempts[0].end && Sequential(attempts[1..], attempts[0].end)
  }

  /** The least time `k` timeouts take. */
  ghost function Waiting(k: int, timeout: real): real {
    if k <= 0 then 0.0 else timeout + Waiting(k - 1, timeout)
  }

  lemma {:induction false} WaitingIsProduct(k: nat, timeout: real)
    ensures Waiting(k, timeout) == k as real * timeout
  {
    if k > 0 {
      WaitingIsProduct(k - 1, timeout);
      assert k as real * timeout == (k - 1) as real * timeout + timeout;
    }
  }

  /** After n invocations from a fresh breaker: each one past `fail_max` has waited out a timeout. */
  ghost predicate Paced(b: Breaker, n: nat, start: real) {
    && b.failMax >= 1 && b.resetTimeout > 0.0 && b.failures == n
    && (if n < b.failMax then b.state == CLOSED
        else b.state == OPEN && start + Waiting(n - b.failMax, b.resetTimeout) <= b.openedAt)
  }

  lemma PacedStep(b: Breaker, n: nat, start: real, a: Attempt)
    requires Paced(b, n, start) && start <= a.begin <= a.end
    ensures var next := AfterCall(b, a.begin, Threw, a.end);
            if Poll(b, a.begin).state == OPEN then next == b
            else Paced(next, n + 1, start) && start + Waiting(n + 1 - b.failMax, b.resetTimeout) <= a.begin
  {
  }

  lemma {:induction false} PacedDrive(b: Breaker, n: nat, start: real, now: real, attempts: seq<Attempt>, span: real)
    requires Paced(b, n, start) && start <= now
    requires Sequential(attempts, now)
    requires forall i :: 0 <= i < |attempts| ==> attempts[i].begin <= start + span
    requires Waiting(n - b.failMax, b.resetTimeout) <= span
    ensures Waiting(n + Drive(b, attempts).invoked - b.failMax, b.resetTimeout) <= span
    decreases |attempts|
  {
    hide Waiting;
    if attempts != [] {
      var a := attempts[0];
      PacedStep(b, n, start, a);
      assert a.begin <= start + span;
      forall i | 0 <= i < |attempts| - 1 ensures attempts[1..][i].begin <= start + span {
        assert attempts[1..][i] == attempts[i + 1];
      }
      var m := if Poll(b, a.begin).state == OPEN then n else n + 1;
      PacedDrive(AfterCall(b, a.begin, Threw, a.end), m, start, a.end, attempts[1..], span);
    }
  }

  /** From a fresh breaker, at most `fail_max + floor(T / reset_timeout)` calls reach a failing dependency within T. */
  lemma RateBound(failMax: int, resetTimeout: real, start: real, span: real, attempts: seq<Attempt>)
    requires failMax >= 1 && resetTimeout > 0.0 && span >= 0.0
    requires Sequential(attempts, start)
    requires forall i :: 0 <= i < |attempts| ==> attempts[i].begin <= start + span
    ensures Drive(New(failMax, resetTimeout), attempts).invoked <= failMax + (span / resetTimeout).Floor
  {
    var n := Drive(New(failMax, resetTimeout), attempts).invoked;
    PacedDrive(New(failMax, resetTimeout), 0, start, start, attempts, span);
    var k := if n >= failMax then n - failMax else 0;
    WaitingIsProduct(k, resetTimeout);
    Quotient(k as real, resetTimeout, span);
  }

  lemma Quotient(k: real, r: real, span: real)
    requires r > 0.0 && k * r <= span
    ensures k <= span / r
  {
    var q := span / r;
    assert q * r == span;
    if k > q {
      assert (k - q) * r > 0.0;
    }
  }
}
