/** `HybridRetriever.retrieve` from `hybrid.py`: two legs behind breakers on one database session. */
module Hybrid {
  import opened Wrappers
  import opened CircuitBreaker
  import Fusion

  /** What a leg's search does on a usable session: it finds hits, raises, or is cancelled. The last two may spoil the session. */
  datatype Search = Found(hits: seq<Fusion.Hit>) | Broken(spoils: bool) | Dropped(spoils: bool)

  /** The caller's session: unusable from the failure that spoils its transaction to the next rollback. */
  class DbSession {
    var usable: bool

    constructor ()
      ensures usable
    {
      usable := true;
    }
  }

  /** The recovery hook: absent, or rolling back the session with or without success. */
  datatype Hook = NoHook | RollsBack | Fails

  datatype LegRun = LegRun(outcome: Outcome, hits: seq<Fusion.Hit>, usable: bool)

  /** One leg: an open breaker or an unusable session fails it without searching. */
  function Leg(open: bool, usable: bool, search: Search): LegRun {
    if open || !usable then LegRun(Threw, [], usable)
    else
      match search
      case Found(hits) => LegRun(Finished, hits, true)
      case Broken(spoils) => LegRun(Threw, [], !spoils)
      case Dropped(spoils) => LegRun(Interrupted, [], !spoils)
  }

  function Recovered(hook: Hook, usable: bool): bool {
    usable || hook == RollsBack
  }

  function AfterLeg(leg: LegRun, hook: Hook): bool {
    if leg.outcome == Threw then Recovered(hook, leg.usable) else leg.usable
  }

  datatype Times = Times(begin: real, end: real)

  /** What meets one retrieval: how each search would go, the hook, and when the legs start and end. */
  datatype Weather = Weather(dense: Search, sparse: Search, hook: Hook, denseAt: Times, sparseAt: Times)

  datatype State = State(dense: Breaker, sparse: Breaker, usable: bool)

  datatype Verdict = Served(dense: seq<Fusion.Hit>, sparse: seq<Fusion.Hit>) | NoLeg | Interruption

  function DenseOpen(s: State, w: Weather): bool {
    Poll(s.dense, w.denseAt.begin).state == OPEN
  }

  function SparseOpen(s: State, w: Weather): bool {
    Poll(s.sparse, w.sparseAt.begin).state == OPEN
  }

  function DenseRun(s: State, w: Weather): LegRun {
    Leg(DenseOpen(s, w), s.usable, w.dense)
  }

  function SparseRun(s: State, w: Weather): LegRun {
    Leg(SparseOpen(s, w), AfterLeg(DenseRun(s, w), w.hook), w.sparse)
  }

  /** One retrieval, as a step of the retriever's state. */
  function Next(s: State, w: Weather): (State, Verdict) {
    var a := DenseRun(s, w);
    var dense := AfterCall(s.dense, w.denseAt.begin, a.outcome, w.denseAt.end);
    if a.outcome == Interrupted then (State(dense, s.sparse, a.usable), Interruption)
    else
      var b := SparseRun(s, w);
      var sparse := AfterCall(s.sparse, w.sparseAt.begin, b.outcome, w.sparseAt.end);
      (State(dense, sparse, AfterLeg(b, w.hook)),
       if b.outcome == Interrupted then Interruption
       else if a.outcome == Threw && b.outcome == Threw then NoLeg
       else Served(a.hits, b.hits))
  }

  datatype Retrieval = Fused(candidates: seq<Fusion.Candidate>) | Unavailable | Stopped

  /** What the caller gets: the fusion of the legs that worked, a failed leg counting as empty. */
  ghost predicate Delivers(r: Retrieval, v: Verdict, rrfK: nat, k: nat) {
    match v
    case NoLeg => r == Unavailable
    case Interruption => r == Stopped
    case Served(dense, sparse) =>
      var keys := Fusion.FusedKeys(dense, sparse, rrfK, k);
      && r.Fused?
      && |r.candidates| == |keys|
      && forall i :: 0 <= i < |keys| ==> r.candidates[i] == Fusion.Fused(dense, sparse, keys[i], rrfK)
  }

  class HybridRetriever {
    const dense: AsyncCircuitBreaker
    const sparse: AsyncCircuitBreaker
    const session: DbSession
    const rrfK: nat

    constructor (session: DbSession, rrfK: nat)
      ensures this.session == session && this.rrfK == rrfK
      ensures dense != sparse && fresh(dense) && fresh(sparse)
      ensures dense.Value() == sparse.Value() == New(5, 30.0)
    {
      this.session, this.rrfK := session, rrfK;
      dense := new AsyncCircuitBreaker(5, 30.0);
      sparse := new AsyncCircuitBreaker(5, 30.0);
    }

    /** `guarded` around one leg's search. */
    method RunLeg(breaker: AsyncCircuitBreaker, search: Search, at: Times) returns (run: LegRun)
      modifies breaker, session
      ensures var open := Poll(old(breaker.Value()), at.begin).state == OPEN;
              && run == Leg(open, old(session.usable), search)
              && session.usable == run.usable
              && breaker.Value() == AfterCall(old(breaker.Value()), at.begin, run.outcome, at.end)
    {
      var usable := session.usable;
      var s := breaker.State(at.begin);
      run := Leg(s == OPEN, usable, search);
      if s != OPEN {
        match run.outcome
        case Threw => breaker.Failed(at.end);
        case Finished => breaker.Succeeded();
        case Interrupted =>
      }
      session.usable := run.usable;
    }

    /** `_recover_after_failed_leg`. */
    method Recover(hook: Hook)
      modifies session
      ensures session.usable == Recovered(hook, old(session.usable))
    {
      if hook == RollsBack {
        session.usable := true;
      }
    }

    function Now(): State
      reads this, dense, sparse, session
    {
      State(dense.Value(), sparse.Value(), session.usable)
    }

    /** `retrieve`: keyword and vector search, each guarded, then fusion of whatever succeeded. */
    method Retrieve(k: nat, w: Weather) returns (r: Retrieval)
      requires dense != sparse
      modifies dense, sparse, session
      ensures Now() == Next(old(Now()), w).0
      ensures Delivers(r, Next(old(Now()), w).1, rrfK, k)
    {
      hide Fusion.FusedKeys, Fusion.Fused;
      var denseHits, sparseHits := [], [];
      var denseOk, sparseOk := false, false;
      var a := RunLeg(dense, w.dense, w.denseAt);
      match a.outcome {
        case Interrupted => return Stopped;
        case Finished => denseHits, denseOk := a.hits, true;
        case Threw => Recover(w.hook);
      }
      var b := RunLeg(sparse, w.sparse, w.sparseAt);
      match b.outcome {
        case Interrupted => return Stopped;
        case Finished => sparseHits, sparseOk := b.hits, true;
        case Threw => Recover(w.hook);
      }
      if !denseOk && !sparseOk {
        return Unavailable;
      }
      var out := Fusion.Fuse(denseHits, sparseHits, rrfK, k);
      r := Fused(out);
    }
  }

  // ---------------------------------------------------------------- one retrieval, spelled out

  /**
   A search counts if its breaker polls not open, the session is usable when its turn comes, and it finds hits. The sparse
   search's turn comes with the session as the dense one left it, rolled back if that failed and the hook works. What is
   served is the hits of the searches that count; nothing is served exactly if neither counts; a cancelled search that ran
   interrupts the whole.
   */
  lemma ServedExactly(s: State, w: Weather)
    ensures var denseRuns := Poll(s.dense, w.denseAt.begin).state != OPEN && s.usable;
            var usable := if denseRuns then w.dense.Found? || (w.dense.Broken? && (!w.dense.spoils || w.hook == RollsBack))
                          else s.usable || w.hook == RollsBack;
            var sparseRuns := Poll(s.sparse, w.sparseAt.begin).state != OPEN && usable;
            var denseCounts, sparseCounts := denseRuns && w.dense.Found?, sparseRuns && w.sparse.Found?;
            Next(s, w).1 ==
            if (denseRuns && w.dense.Dropped?) || (sparseRuns && w.sparse.Dropped?) then Interruption
            else if denseCounts || sparseCounts then
              Served(if denseCounts then w.dense.hits else [], if sparseCounts then w.sparse.hits else [])
            else NoLeg
  {
  }

  /** The event that a search is for its breaker; an unusable session fails it. */
  ghost predicate Tells(e: Event, usable: bool, search: Search, end: real) {
    && (e == Success <==> usable && search.Found?)
    && (e == Cancellation <==> usable && search.Dropped?)
    && (e == Failure(end) <==> !usable || search.Broken?)
    && !e.Polled?
  }

  /**
   Each breaker is polled when its leg starts and, unless it is then open, told how the search went. A retrieval
   interrupted in the dense leg leaves the sparse breaker alone.
   */
  lemma BreakersFollow(s: State, w: Weather)
    ensures var next := Next(s, w).0;
            var polled := Run(s.dense, [Polled(w.denseAt.begin)]);
            if polled.state == OPEN then next.dense == polled
            else exists e :: Tells(e, s.usable, w.dense, w.denseAt.end)
                             && next.dense == Run(s.dense, [Polled(w.denseAt.begin), e])
    ensures var next := Next(s, w).0;
            var polled := Run(s.sparse, [Polled(w.sparseAt.begin)]);
            if DenseRun(s, w).outcome == Interrupted then next.sparse == s.sparse
            else if polled.state == OPEN then next.sparse == polled
            else exists e :: Tells(e, AfterLeg(DenseRun(s, w), w.hook), w.sparse, w.sparseAt.end)
                             && next.sparse == Run(s.sparse, [Polled(w.sparseAt.begin), e])
  {
    RunOne(s.dense, Polled(w.denseAt.begin));
    RunOne(s.sparse, Polled(w.sparseAt.begin));
    var d := if !s.usable || w.dense.Broken? then Failure(w.denseAt.end)
             else if w.dense.Found? then Success else Cancellation;
    assert Tells(d, s.usable, w.dense, w.denseAt.end);
    RunTwo(s.dense, Polled(w.denseAt.begin), d);
    var usable := AfterLeg(DenseRun(s, w), w.hook);
    var p := if !usable || w.sparse.Broken? then Failure(w.sparseAt.end)
             else if w.sparse.Found? then Success else Cancellation;
    assert Tells(p, usable, w.sparse, w.sparseAt.end);
    RunTwo(s.sparse, Polled(w.sparseAt.begin), p);
  }

  // ---------------------------------------------------------------- runs of retrievals on one session

  function After(s: State, run: seq<Weather>): State
    decreases |run|
  {
    if run == [] then s else Next(After(s, run[..|run| - 1]), run[|run| - 1]).0
  }

  predicate NotDropped(w: Weather) {
    !w.dense.Dropped? && !w.sparse.Dropped?
  }

  /**
   With a hook that rolls back, a retrieval leaves the session usable, whatever state it found it in, unless a leg was
   cancelled in a way that spoiled it: cancellation passes the hook by.
   */
  lemma HookHealsExactly(s: State, w: Weather)
    requires w.hook == RollsBack
    ensures Next(s, w).0.usable <==>
            && !(DenseRun(s, w).outcome == Interrupted && w.dense == Dropped(true))
            && !(DenseRun(s, w).outcome != Interrupted && SparseRun(s, w).outcome == Interrupted && w.sparse == Dropped(true))
  {
    var a := DenseRun(s, w);
    if a.outcome != Interrupted {
      assert AfterLeg(a, w.hook);
    }
  }

  /**
   So no leg fails because of the other: after any run that ended with a healed session, a retrieval finds no leg exactly
   when each of the two has its own breaker open or its own search fail.
   */
  lemma LegsIndependent(s: State, run: seq<Weather>, w: Weather)
    requires if run == [] then s.usable else run[|run| - 1].hook == RollsBack && NotDropped(run[|run| - 1])
    requires w.hook == RollsBack && NotDropped(w)
    ensures var now := After(s, run);
            && Next(now, w).0.usable
            && (Next(now, w).1 == NoLeg <==>
                (DenseOpen(now, w) || w.dense.Broken?) && (SparseOpen(now, w) || w.sparse.Broken?))
  {
    hide Next;
    if run != [] {
      var n := |run| - 1;
      HookHealsExactly(After(s, run[..n]), run[n]);
    }
    HookHealsExactly(After(s, run), w);
    FromUsable(After(s, run), w);
  }

  lemma FromUsable(s: State, w: Weather)
    requires s.usable && w.hook == RollsBack && NotDropped(w)
    ensures Next(s, w).1 == NoLeg <==>
            (DenseOpen(s, w) || w.dense.Broken?) && (SparseOpen(s, w) || w.sparse.Broken?)
  {
  }

  /**
   Without it, one spoiled transaction is the end: a retrieval that finds an unusable session finds no leg and leaves it
   unusable, and so does every later one.
   */
  lemma {:induction false} SpoiledForGood(s: State, run: seq<Weather>, w: Weather)
    requires !s.usable && w.hook != RollsBack && forall i :: 0 <= i < |run| ==> run[i].hook != RollsBack
    ensures var now := After(s, run); !now.usable && Next(now, w).1 == NoLeg
    decreases |run|
  {
    if run != [] {
      var n := |run| - 1;
      SpoiledForGood(s, run[..n], run[n]);
    }
  }
}
