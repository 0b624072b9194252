/**
 The delivery protocol of `worker.py` over SQS and the shared cache, as interleaved atomic steps of any number of
 workers. Sends and deletes may fail at any time; what else may go wrong is switched on by a `Config`.
 */
module WorkerProtocol {
  import opened Wrappers

  type Key = nat
  type Id = nat

  datatype JobType = FeedbackRecorded | ReembedCorpus | PopularPrecompute | GdprDelete

  /** A message body: one that does not parse, or a job with its idempotency key. */
  datatype Body = Malformed | Job(key: Key, kind: JobType)

  datatype Config = Config(
    registry: set<JobType>,   // the job types with a handler
    diesInHandler: bool,      // a process may die between the claim and the verdict
    visibilityLapses: bool,   // a message may become visible again while a worker still holds it
    deletesLost: bool,        // the cache may swallow the delete that un-claims a key
    claimsExpire: bool,       // the dedup window may elapse
    failsOpen: bool           // the claim may answer "new" without storing anything (cache down or absent)
  )

  const RECEIVE_BATCH: nat := 10

  /** Where an undeleted message of the main queue is. Limbo: in flight, with no worker looking at it any more. */
  datatype Place = Visible | Held(w: nat) | Limbo

  datatype Stage = Idle | Running(id: Id) | Unclaiming(id: Id) | ToDlq(id: Id) | ToDelete(id: Id)

  datatype Worker = Worker(pending: set<Id>, stage: Stage)

  datatype State = State(
    body: map<Id, Body>,        // every message ever published
    place: map<Id, Place>,      // those not yet deleted from the main queue
    dlq: set<Id>,
    seen: set<Key>,
    completed: multiset<Key>,   // one occurrence for each handler run that returned
    workers: map<nat, Worker>
  )

  const START: State := State(map[], map[], {}, {}, multiset{}, map[])

  function At(s: State, w: nat): Worker {
    if w in s.workers then s.workers[w] else Worker({}, Idle)
  }

  datatype Action =
    | Publish(id: Id, body: Body)
    | Receive(w: nat, ids: set<Id>)
    | Begin(w: nat, id: Id, cacheUp: bool)
    | Succeed(w: nat)
    | Fail(w: nat)
    | Unclaim(w: nat, applied: bool)
    | SendDlq(w: nat, stored: bool, acked: bool)
    | Delete(w: nat, applied: bool)
    | Reappear(id: Id)
    | Redrive(id: Id)
    | Replay(id: Id)
    | Die(w: nat)
    | Expire(key: Key)

  predicate Enabled(c: Config, s: State, a: Action) {
    match a
    case Publish(id, _) => id !in s.body
    case Receive(w, ids) =>
      At(s, w) == Worker({}, Idle) && 1 <= |ids| <= RECEIVE_BATCH
      && forall id :: id in ids ==> id in s.place && s.place[id] == Visible
    case Begin(w, id, up) =>
      At(s, w).stage == Idle && id in At(s, w).pending && id in s.body && (up || c.failsOpen)
    case Succeed(w) => At(s, w).stage.Running? && IsJob(s, At(s, w).stage.id)
    case Fail(w) => At(s, w).stage.Running?
    case Unclaim(w, applied) =>
      At(s, w).stage.Unclaiming? && IsJob(s, At(s, w).stage.id) && (applied || c.deletesLost)
    case SendDlq(w, stored, acked) => At(s, w).stage.ToDlq? && (acked ==> stored)
    case Delete(w, _) => At(s, w).stage.ToDelete?
    case Reappear(id) =>
      id in s.place && (s.place[id] == Limbo || (s.place[id].Held? && c.visibilityLapses))
    case Redrive(id) => id in s.place && s.place[id] == Visible
    case Replay(id) => id in s.dlq && id in s.body && id !in s.place
    case Die(w) => c.diesInHandler || !(At(s, w).stage.Running? || At(s, w).stage.Unclaiming?)
    case Expire(_) => c.claimsExpire
  }

  predicate IsJob(s: State, id: Id) {
    id in s.body && s.body[id].Job?
  }

  /** The worker stops looking at a message; if it still holds it, the message waits for its visibility timeout. */
  function LetGo(place: map<Id, Place>, w: nat, id: Id): map<Id, Place> {
    if id in place && place[id] == Held(w) then place[id := Limbo] else place
  }

  function Step(c: Config, s: State, a: Action): State
    requires Enabled(c, s, a)
  {
    match a
    case Publish(id, body) => s.(body := s.body[id := body], place := s.place[id := Visible])
    case Receive(w, ids) =>
      s.(place := map id | id in s.place :: if id in ids then Held(w) else s.place[id],
         workers := s.workers[w := Worker(ids, Idle)])
    case Begin(w, id, up) =>
      var rest := At(s, w).pending - {id};
      (match s.body[id]
       case Malformed => s.(workers := s.workers[w := Worker(rest, ToDlq(id))])
       case Job(key, kind) =>
         if up && key in s.seen then s.(workers := s.workers[w := Worker(rest, ToDelete(id))])
         else
           s.(seen := if up then s.seen + {key} else s.seen,
              workers := s.workers[w := Worker(rest, if kind in c.registry then Running(id) else ToDlq(id))]))
    case Succeed(w) =>
      var id := At(s, w).stage.id;
      s.(completed := s.completed + multiset{s.body[id].key},
         workers := s.workers[w := At(s, w).(stage := ToDelete(id))])
    case Fail(w) =>
      s.(workers := s.workers[w := At(s, w).(stage := Unclaiming(At(s, w).stage.id))])
    case Unclaim(w, applied) =>
      var id := At(s, w).stage.id;
      s.(seen := if applied then s.seen - {s.body[id].key} else s.seen,
         place := LetGo(s.place, w, id),
         workers := s.workers[w := At(s, w).(stage := Idle)])
    case SendDlq(w, stored, acked) =>
      var id := At(s, w).stage.id;
      s.(dlq := if stored then s.dlq + {id} else s.dlq,
         place := if acked then s.place else LetGo(s.place, w, id),
         workers := s.workers[w := At(s, w).(stage := if acked then ToDelete(id) else Idle)])
    case Delete(w, applied) =>
      var id := At(s, w).stage.id;
      s.(place := if applied then s.place - {id} else LetGo(s.place, w, id),
         workers := s.workers[w := At(s, w).(stage := Idle)])
    case Reappear(id) => s.(place := s.place[id := Visible])
    case Redrive(id) => s.(place := s.place - {id}, dlq := s.dlq + {id})
    case Replay(id) => s.(place := s.place[id := Visible], dlq := s.dlq - {id})
    case Die(w) =>
      s.(place := map id | id in s.place :: if s.place[id] == Held(w) then Limbo else s.place[id],
         workers := s.workers[w := Worker({}, Idle)])
    case Expire(key) => s.(seen := s.seen - {key})
  }

  /** Run a list of actions, if each is enabled in turn. */
  function Exec(c: Config, s: State, acts: seq<Action>): Option<State>
    decreases |acts|
  {
    if acts == [] then Some(s)
    else if Enabled(c, s, acts[0]) then Exec(c, Step(c, s, acts[0]), acts[1..])
    else None
  }

  lemma {:induction false} ExecAppend(c: Config, s: State, first: seq<Action>, second: seq<Action>)
    requires Exec(c, s, first).Some?
    ensures Exec(c, s, first + second) == Exec(c, Exec(c, s, first).value, second)
    decreases |first|
  {
    if first == [] {
      assert first + second == second;
    } else {
      assert (first + second)[1..] == first[1..] + second;
      ExecAppend(c, Step(c, s, first[0]), first[1..], second);
    }
  }

  // ---------------------------------------------------------------- the queue's own steps

  /** An idle worker may take any one to ten visible messages, and then holds exactly those besides what it held. */
  lemma ReceiveExactly(c: Config, s: State, w: nat, ids: set<Id>)
    requires At(s, w) == Worker({}, Idle)
    ensures Enabled(c, s, Receive(w, ids)) <==>
            1 <= |ids| <= 10 && forall id :: id in ids ==> id in s.place && s.place[id] == Visible
    ensures Enabled(c, s, Receive(w, ids)) ==>
              var t := Step(c, s, Receive(w, ids));
              && t.place.Keys == s.place.Keys
              && (forall id :: id in s.place ==> t.place[id] == if id in ids then Held(w) else s.place[id])
              && At(t, w) == Worker(ids, Idle)
              && t.dlq == s.dlq && t.seen == s.seen && t.completed == s.completed && t.body == s.body
  {
  }

  /** The queue may dead-letter any visible message: it is then in the DLQ, no longer in the queue, and nothing else changes. */
  lemma RedriveExactly(c: Config, s: State, id: Id)
    ensures Enabled(c, s, Redrive(id)) <==> id in s.place && s.place[id] == Visible
    ensures Enabled(c, s, Redrive(id)) ==>
              var t := Step(c, s, Redrive(id));
              && id in t.dlq && id !in t.place
              && (forall other :: other != id ==> (other in t.dlq <==> other in s.dlq)
                                                  && (other in t.place <==> other in s.place)
                                                  && (other in s.place ==> t.place[other] == s.place[other]))
              && t.seen == s.seen && t.completed == s.completed && t.body == s.body && t.workers == s.workers
  {
  }

  // ---------------------------------------------------------------- conservation

  predicate HasKey(s: State, id: Id, key: Key) {
    id in s.body && s.body[id].Job? && s.body[id].key == key
  }

  /** Still in the main queue (visible or in flight) or in the dead-letter queue. */
  predicate InSystem(s: State, id: Id) {
    id in s.place || id in s.dlq
  }

  /** No published job is lost: its key completed, or a message with its key is still somewhere. Poison is kept too. */
  ghost predicate Conserved(s: State) {
    forall id :: id in s.body ==>
      match s.body[id]
      case Malformed => InSystem(s, id)
      case Job(key, _) => key in s.completed || exists id' :: HasKey(s, id', key) && InSystem(s, id')
  }

  ghost predicate Reachable(c: Config, s: State) {
    exists acts :: Exec(c, START, acts) == Some(s)
  }

  ghost predicate AlwaysConserved(c: Config) {
    forall s :: Reachable(c, s) ==> Conserved(s)
  }

  const ALL_TYPES: set<JobType> := {FeedbackRecorded, ReembedCorpus, PopularPrecompute, GdprDelete}

  lemma AllTypes(kind: JobType)
    ensures kind in ALL_TYPES
  {
    match kind
    case FeedbackRecorded =>
    case ReembedCorpus =>
    case PopularPrecompute =>
    case GdprDelete =>
  }

  predicate SafeToDedup(c: Config) {
    c.registry == ALL_TYPES && !c.diesInHandler && !c.visibilityLapses && !c.deletesLost
  }

  /** The worker `w` is about to delete `id`, which it alone holds. */
  predicate Doomed(s: State, id: Id) {
    id in s.place && s.place[id].Held? && At(s, s.place[id].w).stage == ToDelete(id)
  }

  /** A copy of the message that no pending deletion will remove. */
  predicate Carrier(s: State, id: Id) {
    id in s.dlq || (id in s.place && !Doomed(s, id))
  }

  predicate Handling(s: State, w: nat, id: Id) {
    At(s, w).stage == Running(id) || At(s, w).stage == Unclaiming(id)
  }

  predicate Holds(s: State, w: nat, id: Id) {
    id in s.place && s.place[id] == Held(w)
  }

  /** Each received message is held by the one worker that received it. */
  ghost predicate Owned(s: State) {
    && (forall id :: id in s.place ==> id in s.body)
    && (forall w, id :: id in At(s, w).pending ==> Holds(s, w, id))
    && (forall w :: At(s, w).stage != Idle ==>
          Holds(s, w, At(s, w).stage.id) && At(s, w).stage.id !in At(s, w).pending)
  }

  ghost predicate StagesMakeSense(s: State) {
    && (forall w, id :: Handling(s, w, id) ==> IsJob(s, id))
    && (forall w :: At(s, w).stage.ToDlq? ==> !IsJob(s, At(s, w).stage.id))
  }

  /** The key invariant: a seen key is completed, or owned by a live handler whose message is not yet deleted. */
  ghost predicate ClaimsBacked(s: State) {
    forall key :: key in s.seen ==>
      key in s.completed || exists w, id :: Handling(s, w, id) && HasKey(s, id, key)
  }

  ghost predicate Backed(s: State, id: Id) {
    id in s.body &&
    match s.body[id]
    case Malformed => Carrier(s, id)
    case Job(key, _) => key in s.completed || exists id' :: HasKey(s, id', key) && Carrier(s, id')
  }

  ghost predicate Inv(s: State) {
    Owned(s) && StagesMakeSense(s) && ClaimsBacked(s) && forall id :: id in s.body ==> Backed(s, id)
  }

  lemma InvConserved(s: State)
    requires Inv(s)
    ensures Conserved(s)
  {
    forall id | id in s.body
      ensures match s.body[id]
              case Malformed => InSystem(s, id)
              case Job(key, _) => key in s.completed || exists id' :: HasKey(s, id', key) && InSystem(s, id')
    {
      assert Backed(s, id);
      if s.body[id].Job? && s.body[id].key !in s.completed {
        var id' :| HasKey(s, id', s.body[id].key) && Carrier(s, id');
        assert InSystem(s, id');
      }
    }
  }

  lemma OwnedStep(c: Config, s: State, a: Action)
    requires SafeToDedup(c) && Owned(s) && StagesMakeSense(s) && Enabled(c, s, a)
    ensures Owned(Step(c, s, a))
  {
    var t := Step(c, s, a);
    forall w, id | id in At(t, w).pending ensures Holds(t, w, id) {
      if !(a.Receive? && a.w == w) {
        assert id in At(s, w).pending;
        assert Holds(s, w, id);
      }
    }
    forall w | At(t, w).stage != Idle
      ensures Holds(t, w, At(t, w).stage.id) && At(t, w).stage.id !in At(t, w).pending
    {
      if a.Begin? && a.w == w {
        assert Holds(s, w, a.id);
      } else {
        assert At(s, w).stage != Idle;
        assert Holds(s, w, At(s, w).stage.id);
      }
    }
  }

  lemma StagesStep(c: Config, s: State, a: Action)
    requires SafeToDedup(c) && Owned(s) && StagesMakeSense(s) && Enabled(c, s, a)
    ensures StagesMakeSense(Step(c, s, a))
  {
    var t := Step(c, s, a);
    forall w, id | Handling(t, w, id) ensures IsJob(t, id) {
      if a.Begin? && a.w == w {
        assert IsJob(s, id);
      } else {
        assert Handling(s, w, id);
        assert IsJob(s, id);
      }
    }
    forall w | At(t, w).stage.ToDlq? ensures !IsJob(t, At(t, w).stage.id) {
      var id := At(t, w).stage.id;
      if a.Begin? && a.w == w {
        if s.body[id].Job? {
          AllTypes(s.body[id].kind);
        }
      } else {
        assert At(s, w).stage.ToDlq?;
        assert Holds(s, w, id);
      }
    }
  }

  lemma ClaimsStep(c: Config, s: State, a: Action)
    requires SafeToDedup(c) && Owned(s) && StagesMakeSense(s) && ClaimsBacked(s) && Enabled(c, s, a)
    ensures ClaimsBacked(Step(c, s, a))
  {
    var t := Step(c, s, a);
    forall key | key in t.seen
      ensures key in t.completed || exists w, id :: Handling(t, w, id) && HasKey(t, id, key)
    {
      if key !in s.seen {
        AllTypes(s.body[a.id].kind);
        assert Handling(t, a.w, a.id) && HasKey(t, a.id, key);
      } else if key !in s.completed {
        var w, id :| Handling(s, w, id) && HasKey(s, id, key);
        assert HasKey(t, id, key);
        if !Handling(t, w, id) {
          assert At(s, w) != At(t, w);
        }
      }
    }
  }

  /** A carrier stays one unless this very step dooms it: a duplicate verdict, or its own handler's success. */
  lemma CarrierStep(c: Config, s: State, a: Action, id: Id)
    requires SafeToDedup(c) && Owned(s) && StagesMakeSense(s) && Enabled(c, s, a)
    requires id in s.body && Carrier(s, id)
    ensures Carrier(Step(c, s, a), id)
            || (a.Succeed? && At(s, a.w).stage.id == id)
            || (a.Begin? && a.id == id && IsJob(s, id) && s.body[id].key in s.seen)
  {
    var t := Step(c, s, a);
    if id !in t.dlq {
      if a.Delete? && a.applied {
        assert At(s, a.w).stage.id != id;
      }
      assert id in t.place;
      if Doomed(t, id) {
        var w := t.place[id].w;
        assert At(t, w).stage == ToDelete(id);
        assert At(s, w).stage != ToDelete(id) || !Holds(s, w, id);
      }
    }
  }

  /** When a duplicate verdict dooms a copy, the claim it lost to still has a live handler with its own copy. */
  lemma DuplicateBacked(c: Config, s: State, a: Action, key: Key)
    requires SafeToDedup(c) && Owned(s) && ClaimsBacked(s) && Enabled(c, s, a)
    requires a.Begin? && key in s.seen && key !in s.completed
    ensures exists id :: HasKey(Step(c, s, a), id, key) && Carrier(Step(c, s, a), id)
  {
    var t := Step(c, s, a);
    var w, id :| Handling(s, w, id) && HasKey(s, id, key);
    assert Holds(s, w, id);
    assert w != a.w;
    assert At(t, w) == At(s, w);
    assert HasKey(t, id, key) && Carrier(t, id);
  }

  lemma PublishedCarries(c: Config, s: State, a: Action)
    requires a.Publish? && Enabled(c, s, a) && Owned(s)
    ensures Backed(Step(c, s, a), a.id)
  {
    var t := Step(c, s, a);
    assert Carrier(t, a.id);
    assert t.body[a.id].Job? ==> HasKey(t, a.id, t.body[a.id].key);
  }

  lemma KeyBackedStep(c: Config, s: State, a: Action, key: Key)
    requires SafeToDedup(c) && Owned(s) && StagesMakeSense(s) && ClaimsBacked(s) && Enabled(c, s, a)
    requires exists id :: HasKey(s, id, key) && Carrier(s, id)
    ensures key in Step(c, s, a).completed || exists id :: HasKey(Step(c, s, a), id, key) && Carrier(Step(c, s, a), id)
  {
    hide Owned, StagesMakeSense, ClaimsBacked, Carrier;
    var t := Step(c, s, a);
    if key !in t.completed {
      var id :| HasKey(s, id, key) && Carrier(s, id);
      CarrierStep(c, s, a, id);
      if Carrier(t, id) {
        assert HasKey(t, id, key);
      } else {
        DuplicateBacked(c, s, a, key);
      }
    }
  }

  lemma BackedStep(c: Config, s: State, a: Action, id: Id)
    requires SafeToDedup(c) && Inv(s) && Enabled(c, s, a)
    requires id in Step(c, s, a).body
    ensures Backed(Step(c, s, a), id)
  {
    hide Owned, StagesMakeSense, ClaimsBacked, Carrier;
    if id !in s.body {
      PublishedCarries(c, s, a);
    } else {
      assert Backed(s, id);
      if s.body[id].Malformed? {
        CarrierStep(c, s, a, id);
      } else if s.body[id].key !in s.completed {
        KeyBackedStep(c, s, a, s.body[id].key);
      }
    }
  }

  lemma InvStep(c: Config, s: State, a: Action)
    requires SafeToDedup(c) && Inv(s) && Enabled(c, s, a)
    ensures Inv(Step(c, s, a))
  {
    OwnedStep(c, s, a);
    StagesStep(c, s, a);
    ClaimsStep(c, s, a);
    forall id | id in Step(c, s, a).body ensures Backed(Step(c, s, a), id) {
      BackedStep(c, s, a, id);
    }
  }

  lemma {:induction false} InvRun(c: Config, s: State, acts: seq<Action>)
    requires SafeToDedup(c) && Inv(s) && Exec(c, s, acts).Some?
    ensures Inv(Exec(c, s, acts).value)
    decreases |acts|
  {
    hide Inv, Step, Enabled;
    if acts != [] {
      InvStep(c, s, acts[0]);
      InvRun(c, Step(c, s, acts[0]), acts[1..]);
    }
  }

  // ---------------------------------------------------------------- how a job can be lost

  lemma ReachStep(c: Config, s: State, a: Action)
    requires Reachable(c, s) && Enabled(c, s, a)
    ensures Reachable(c, Step(c, s, a))
  {
    hide Step, Enabled;
    var acts :| Exec(c, START, acts) == Some(s);
    ExecAppend(c, START, acts, [a]);
    assert [a][1..] == [];
    assert Exec(c, START, acts + [a]) == Some(Step(c, s, a));
  }

  /** Only message 0 exists, with key 0, and worker 0 alone has done anything. */
  ghost predicate LoneJob(s: State, kind: JobType) {
    && s.body == map[0 := Job(0, kind)]
    && s.place.Keys == {0}
    && s.dlq == {}
    && s.seen == {0}
    && s.completed == multiset{}
    && At(s, 0).pending == {}
    && At(s, 1) == Worker({}, Idle)
  }

  lemma Take(c: Config, kind: JobType) returns (s: State)
    ensures Reachable(c, s) && LoneJob(s, kind) && s.place[0] == Held(0)
    ensures At(s, 0).stage == if kind in c.registry then Running(0) else ToDlq(0)
  {
    assert Exec(c, START, []) == Some(START);
    ReachStep(c, START, Publish(0, Job(0, kind)));
    var s1 := Step(c, START, Publish(0, Job(0, kind)));
    ReachStep(c, s1, Receive(0, {0}));
    var s2 := Step(c, s1, Receive(0, {0}));
    ReachStep(c, s2, Begin(0, 0, true));
    s := Step(c, s2, Begin(0, 0, true));
  }

  /** A redelivery of message 0 while its claim stands: taken for a duplicate and deleted. */
  lemma TakenForDuplicate(c: Config, s: State, kind: JobType, w: nat) returns (t: State)
    requires Reachable(c, s) && LoneJob(s, kind) && s.place[0] == Visible && At(s, w) == Worker({}, Idle)
    ensures Reachable(c, t) && t.body == s.body && t.place.Keys == {} && t.dlq == {} && t.completed == multiset{}
    ensures w != 0 ==> At(t, 0) == At(s, 0)
  {
    hide Reachable;
    ReachStep(c, s, Receive(w, {0}));
    var s1 := Step(c, s, Receive(w, {0}));
    ReachStep(c, s1, Begin(w, 0, true));
    var s2 := Step(c, s1, Begin(w, 0, true));
    ReachStep(c, s2, Delete(w, true));
    t := Step(c, s2, Delete(w, true));
  }

  lemma GoneIsLost(c: Config, s: State)
    requires Reachable(c, s) && 0 in s.body && s.body[0].Job?
    requires s.place.Keys == {} && s.dlq == {} && s.completed == multiset{}
    ensures !AlwaysConserved(c)
  {
    hide Reachable;
    assert forall id :: !InSystem(s, id);
    assert !Conserved(s);
  }

  /** A claim that outlives its holder loses the job. */
  lemma DedupedAway(c: Config, s: State, kind: JobType)
    requires Reachable(c, s) && LoneJob(s, kind) && s.place[0] == Limbo && At(s, 0) == Worker({}, Idle)
    ensures !AlwaysConserved(c)
  {
    hide Reachable, AlwaysConserved;
    ReachStep(c, s, Reappear(0));
    var t := TakenForDuplicate(c, Step(c, s, Reappear(0)), kind, 0);
    GoneIsLost(c, t);
  }

  /** No handler for the type: the claim is set before the lookup, so a failed send to the DLQ loses the job. */
  lemma LostWithoutHandler(c: Config, kind: JobType)
    requires kind !in c.registry
    ensures !AlwaysConserved(c)
  {
    hide Reachable, AlwaysConserved;
    var s := Take(c, kind);
    ReachStep(c, s, SendDlq(0, false, false));
    DedupedAway(c, Step(c, s, SendDlq(0, false, false)), kind);
  }

  /** Even when the send succeeds: the dead-lettered job keeps its claim, so its replay is taken for a duplicate. */
  lemma LostToReplay(c: Config, kind: JobType)
    requires kind !in c.registry
    ensures exists s :: Reachable(c, s) && s.dlq == {0} && s.place.Keys == {} && Enabled(c, s, Replay(0)) && LostAfter(c, s, 0)
  {
    hide Reachable, Enabled;
    var s := Take(c, kind);
    HandedOver(c, s);
    var s1 := Step(c, s, SendDlq(0, true, true));
    ReachStep(c, s, SendDlq(0, true, true));
    ReachStep(c, s1, Delete(0, true));
    var s2 := Step(c, s1, Delete(0, true));
    assert LostAfter(c, s2, 0) by {
      ReplayedAway(c, s2, kind);
    }
  }

  /** Replaying the message and letting a worker take it leaves nothing of its job. */
  ghost predicate LostAfter(c: Config, s: State, id: Id) {
    var end := Exec(c, s, [Replay(id), Receive(1, {id}), Begin(1, id, true), Delete(1, true)]);
    end.Some? && !Conserved(end.value)
  }

  lemma HandedOver(c: Config, s: State)
    requires At(s, 0).stage == ToDlq(0) && s.place.Keys == {0}
    ensures Enabled(c, s, SendDlq(0, true, true))
    ensures Enabled(c, Step(c, s, SendDlq(0, true, true)), Delete(0, true))
  {
  }

  lemma ReplayedAway(c: Config, s: State, kind: JobType)
    requires s.body == map[0 := Job(0, kind)] && s.place == map[] && s.dlq == {0} && s.seen == {0}
    requires s.completed == multiset{} && At(s, 1) == Worker({}, Idle)
    ensures LostAfter(c, s, 0) && Enabled(c, s, Replay(0))
  {
    hide Exec;
    var s1 := Step(c, s, Replay(0));
    var s2 := Step(c, s1, Receive(1, {0}));
    var s3 := Step(c, s2, Begin(1, 0, true));
    var s4 := Step(c, s3, Delete(1, true));
    ExecNone(c, s4);
    ExecCons(c, s3, Delete(1, true), []);
    ExecCons(c, s2, Begin(1, 0, true), [Delete(1, true)]);
    ExecCons(c, s1, Receive(1, {0}), [Begin(1, 0, true), Delete(1, true)]);
    ExecCons(c, s, Replay(0), [Receive(1, {0}), Begin(1, 0, true), Delete(1, true)]);
    assert [Delete(1, true)] + [] == [Delete(1, true)];
    assert [Begin(1, 0, true)] + [Delete(1, true)] == [Begin(1, 0, true), Delete(1, true)];
    assert [Receive(1, {0})] + [Begin(1, 0, true), Delete(1, true)] == [Receive(1, {0}), Begin(1, 0, true), Delete(1, true)];
    assert [Replay(0)] + [Receive(1, {0}), Begin(1, 0, true), Delete(1, true)]
        == [Replay(0), Receive(1, {0}), Begin(1, 0, true), Delete(1, true)];
    assert forall id :: !InSystem(s4, id);
  }

  lemma LostToDeath(c: Config, kind: JobType)
    requires kind in c.registry && c.diesInHandler
    ensures !AlwaysConserved(c)
  {
    hide Reachable, AlwaysConserved;
    var s := Take(c, kind);
    ReachStep(c, s, Die(0));
    DedupedAway(c, Step(c, s, Die(0)), kind);
  }

  lemma LostWithTheDelete(c: Config, kind: JobType)
    requires kind in c.registry && c.deletesLost
    ensures !AlwaysConserved(c)
  {
    hide Reachable, AlwaysConserved;
    var s := Take(c, kind);
    ReachStep(c, s, Fail(0));
    var s1 := Step(c, s, Fail(0));
    ReachStep(c, s1, Unclaim(0, false));
    DedupedAway(c, Step(c, s1, Unclaim(0, false)), kind);
  }

  /** Redelivered while its handler still runs: the second delivery deletes it, then the first run fails. */
  lemma LostToLapse(c: Config, kind: JobType)
    requires kind in c.registry && c.visibilityLapses
    ensures !AlwaysConserved(c)
  {
    hide Reachable, AlwaysConserved;
    var s := Take(c, kind);
    ReachStep(c, s, Reappear(0));
    var t := TakenForDuplicate(c, Step(c, s, Reappear(0)), kind, 1);
    ReachStep(c, t, Fail(0));
    GoneIsLost(c, Step(c, t, Fail(0)));
  }

  /**
   Over every interleaving of any number of workers, with sends and deletes free to fail, no job is lost exactly when
   every type has a handler, no process dies between claim and verdict, no message is redelivered while held, and the
   cache loses no delete. Expiring or unavailable claims do no harm here.
   */
  lemma ConservationExactly(c: Config)
    ensures AlwaysConserved(c) <==> SafeToDedup(c)
  {
    if SafeToDedup(c) {
      forall s | Reachable(c, s) ensures Conserved(s) {
        var acts :| Exec(c, START, acts) == Some(s);
        InvRun(c, START, acts);
        InvConserved(s);
      }
    } else if c.registry != ALL_TYPES {
      forall kind | kind in c.registry ensures kind in ALL_TYPES {
        AllTypes(kind);
      }
      var kind :| kind in ALL_TYPES && kind !in c.registry;
      LostWithoutHandler(c, kind);
    } else {
      var kind := GdprDelete;
      if c.diesInHandler {
        LostToDeath(c, kind);
      } else if c.visibilityLapses {
        LostToLapse(c, kind);
      } else {
        LostWithTheDelete(c, kind);
      }
    }
  }

  // ---------------------------------------------------------------- mutual exclusion

  /** No two workers run the handler of one key at the same time. */
  ghost predicate Exclusive(s: State) {
    forall w1, w2, id1, id2, key ::
      At(s, w1).stage == Running(id1) && At(s, w2).stage == Running(id2) && HasKey(s, id1, key) && HasKey(s, id2, key)
      ==> w1 == w2
  }

  ghost predicate SucceedsOnce(s: State) {
    forall key :: s.completed[key] <= 1
  }

  ghost predicate AlwaysExclusive(c: Config) {
    forall s :: Reachable(c, s) ==> Exclusive(s) && SucceedsOnce(s)
  }

  predicate ClaimsHold(c: Config) {
    !c.claimsExpire && !c.failsOpen
  }

  /** Every running handler holds its key's claim alone; every completed key keeps its claim for good. */
  ghost predicate ClaimInv(s: State) {
    && (forall w, id :: Handling(s, w, id) ==> IsJob(s, id))
    && (forall w, id, key :: Handling(s, w, id) && HasKey(s, id, key) ==> key in s.seen && key !in s.completed)
    && (forall w1, w2, id1, id2, key ::
          Handling(s, w1, id1) && Handling(s, w2, id2) && HasKey(s, id1, key) && HasKey(s, id2, key) ==> w1 == w2)
    && (forall key :: key in s.completed ==> key in s.seen && s.completed[key] == 1)
  }

  lemma HandlingBefore(c: Config, s: State, a: Action, w: nat, id: Id)
    requires Enabled(c, s, a) && Handling(Step(c, s, a), w, id)
    requires forall w, id :: Handling(s, w, id) ==> IsJob(s, id)
    ensures Handling(s, w, id) || (a.Begin? && a.w == w && a.id == id)
    ensures forall key :: HasKey(Step(c, s, a), id, key) ==> HasKey(s, id, key)
  {
    assert Handling(s, w, id) || (a.Begin? && a.w == w && a.id == id);
  }

  lemma ClaimInvStep(c: Config, s: State, a: Action)
    requires ClaimsHold(c) && ClaimInv(s) && Enabled(c, s, a)
    ensures ClaimInv(Step(c, s, a))
  {
    var t := Step(c, s, a);
    forall w, id | Handling(t, w, id) ensures IsJob(t, id) {
      HandlingBefore(c, s, a, w, id);
    }
    forall w, id, key | Handling(t, w, id) && HasKey(t, id, key) ensures key in t.seen && key !in t.completed {
      HandlingBefore(c, s, a, w, id);
      if a.Succeed? || a.Unclaim? {
        assert w != a.w;
        assert Handling(s, a.w, At(s, a.w).stage.id);
      }
    }
    forall w1, w2, id1, id2, key |
      Handling(t, w1, id1) && Handling(t, w2, id2) && HasKey(t, id1, key) && HasKey(t, id2, key)
      ensures w1 == w2
    {
      HandlingBefore(c, s, a, w1, id1);
      HandlingBefore(c, s, a, w2, id2);
    }
    forall key | key in t.completed ensures key in t.seen && t.completed[key] == 1 {
      if a.Succeed? || a.Unclaim? {
        var id := At(s, a.w).stage.id;
        assert Handling(s, a.w, id) && HasKey(s, id, s.body[id].key);
      }
    }
  }

  lemma {:induction false} ClaimInvRun(c: Config, s: State, acts: seq<Action>)
    requires ClaimsHold(c) && ClaimInv(s) && Exec(c, s, acts).Some?
    ensures ClaimInv(Exec(c, s, acts).value)
    decreases |acts|
  {
    hide ClaimInv, Step, Enabled;
    if acts != [] {
      ClaimInvStep(c, s, acts[0]);
      ClaimInvRun(c, Step(c, s, acts[0]), acts[1..]);
    }
  }

  /** A second message with key 0, taken while message 0 is being handled and its claim does not stop it. */
  lemma BothRun(c: Config, s: State, kind: JobType, cacheUp: bool)
    requires Reachable(c, s) && kind in c.registry && (cacheUp || c.failsOpen)
    requires s.body == map[0 := Job(0, kind)] && At(s, 0).stage == Running(0) && At(s, 1) == Worker({}, Idle)
    requires cacheUp ==> 0 !in s.seen
    ensures !AlwaysExclusive(c)
  {
    var again := Publish(1, Job(0, kind));
    ReachStep(c, s, again);
    var s1 := Step(c, s, again);
    ReachStep(c, s1, Receive(1, {1}));
    var s2 := Step(c, s1, Receive(1, {1}));
    ReachStep(c, s2, Begin(1, 1, cacheUp));
    var s3 := Step(c, s2, Begin(1, 1, cacheUp));
    assert At(s3, 0).stage == Running(0) && At(s3, 1).stage == Running(1);
    assert HasKey(s3, 0, 0) && HasKey(s3, 1, 0);
    assert !Exclusive(s3);
  }

  /**
   Handlers of one key never overlap and succeed at most once exactly when claims neither expire nor fail open (or no
   type has a handler at all). Deaths, redeliveries and lost deletes do no harm here.
   */
  lemma ExclusionExactly(c: Config)
    ensures AlwaysExclusive(c) <==> ClaimsHold(c) || c.registry == {}
  {
    if ClaimsHold(c) || c.registry == {} {
      forall s | Reachable(c, s) ensures Exclusive(s) && SucceedsOnce(s) {
        var acts :| Exec(c, START, acts) == Some(s);
        if ClaimsHold(c) {
          ClaimInvRun(c, START, acts);
          ClaimInvExcludes(s);
        } else {
          NothingRuns(c, START, acts);
          NothingExcludes(s);
        }
      }
    } else {
      hide Reachable;
      var kind :| kind in c.registry;
      var s := Take(c, kind);
      if c.claimsExpire {
        ReachStep(c, s, Expire(0));
        BothRun(c, Step(c, s, Expire(0)), kind, true);
      } else {
        BothRun(c, s, kind, false);
      }
    }
  }

  lemma ClaimInvExcludes(s: State)
    requires ClaimInv(s)
    ensures Exclusive(s) && SucceedsOnce(s)
  {
    forall w1, w2, id1, id2, key |
      At(s, w1).stage == Running(id1) && At(s, w2).stage == Running(id2) && HasKey(s, id1, key) && HasKey(s, id2, key)
      ensures w1 == w2
    {
      assert Handling(s, w1, id1) && Handling(s, w2, id2);
    }
    forall key ensures s.completed[key] <= 1 {
      assert key in s.completed || s.completed[key] == 0;
    }
  }

  lemma NothingExcludes(s: State)
    requires s.completed == multiset{} && forall w, id :: !Handling(s, w, id)
    ensures Exclusive(s) && SucceedsOnce(s)
  {
    forall w, id ensures At(s, w).stage != Running(id) {
      assert !Handling(s, w, id);
    }
  }

  lemma {:induction false} NothingRuns(c: Config, s: State, acts: seq<Action>)
    requires c.registry == {} && Exec(c, s, acts).Some?
    requires s.completed == multiset{} && forall w, id :: !Handling(s, w, id)
    ensures var t := Exec(c, s, acts).value; t.completed == multiset{} && forall w, id :: !Handling(t, w, id)
    decreases |acts|
  {
    if acts != [] {
      var t := Step(c, s, acts[0]);
      assert !(acts[0].Succeed? || acts[0].Fail?) by {
        if acts[0].Succeed? || acts[0].Fail? {
          assert Handling(s, acts[0].w, At(s, acts[0].w).stage.id);
        }
      }
      forall w, id ensures !Handling(t, w, id) {
        assert !Handling(s, w, id);
      }
      NothingRuns(c, t, acts[1..]);
      assert Exec(c, s, acts) == Exec(c, t, acts[1..]);
    }
  }

  /**
   After a failed run the key is claimable again, in every configuration: once the un-claim is applied, the message the
   worker still holds reaches its handler again at any idle worker that it is redelivered to.
   */
  lemma RetryRuns(c: Config, s: State, w: nat, w': nat)
    requires At(s, w).stage.Unclaiming? && At(s, w') == Worker({}, Idle)
    requires var id := At(s, w).stage.id; Holds(s, w, id) && IsJob(s, id) && s.body[id].kind in c.registry
    ensures var id := At(s, w).stage.id;
            var acts := [Unclaim(w, true), Reappear(id), Receive(w', {id}), Begin(w', id, true)];
            var end := Exec(c, s, acts);
            end.Some? && At(end.value, w').stage == Running(id)
  {
    hide Exec;
    var id := At(s, w).stage.id;
    var s1 := Step(c, s, Unclaim(w, true));
    var s2 := Step(c, s1, Reappear(id));
    TakenAndRun(c, s2, id, w');
    var tail2 := [Receive(w', {id}), Begin(w', id, true)];
    var tail3 := [Reappear(id)] + tail2;
    assert [Unclaim(w, true), Reappear(id), Receive(w', {id}), Begin(w', id, true)] == [Unclaim(w, true)] + tail3;
    ExecCons(c, s1, Reappear(id), tail2);
    ExecCons(c, s, Unclaim(w, true), tail3);
  }

  /** A visible job whose key is not claimed reaches its handler at an idle worker that takes it. */
  lemma TakenAndRun(c: Config, s: State, id: Id, w: nat)
    requires IsJob(s, id) && s.body[id].kind in c.registry && s.body[id].key !in s.seen
    requires id in s.place && s.place[id] == Visible && At(s, w) == Worker({}, Idle)
    ensures var end := Exec(c, s, [Receive(w, {id}), Begin(w, id, true)]);
            end.Some? && At(end.value, w).stage == Running(id)
  {
    hide Exec;
    var take, begin := Receive(w, {id}), Begin(w, id, true);
    var s1 := Step(c, s, take);
    var s2 := Step(c, s1, begin);
    assert [begin] == [begin] + [] && [take, begin] == [take] + [begin];
    ExecNone(c, s2);
    ExecCons(c, s1, begin, []);
    ExecCons(c, s, take, [begin]);
  }

  /** A replayed dead letter reaches its handler, at an idle worker that takes it, if and only if no claim has survived it. */
  lemma ReplayRunsExactly(c: Config, s: State, id: Id, w: nat)
    requires Enabled(c, s, Replay(id)) && At(s, w) == Worker({}, Idle)
    requires IsJob(s, id) && s.body[id].kind in c.registry
    ensures var end := Exec(c, s, [Replay(id), Receive(w, {id}), Begin(w, id, true)]);
            && end.Some?
            && (At(end.value, w).stage == Running(id) <==> s.body[id].key !in s.seen)
            && (s.body[id].key in s.seen ==> At(end.value, w).stage == ToDelete(id))
  {
    hide Exec;
    var take, begin := Receive(w, {id}), Begin(w, id, true);
    var s1 := Step(c, s, Replay(id));
    var s2 := Step(c, s1, take);
    var s3 := Step(c, s2, begin);
    assert [begin] == [begin] + [] && [take, begin] == [take] + [begin];
    assert [Replay(id), take, begin] == [Replay(id)] + [take, begin];
    ExecNone(c, s3);
    ExecCons(c, s2, begin, []);
    ExecCons(c, s1, take, [begin]);
    ExecCons(c, s, Replay(id), [take, begin]);
  }

  /**
   The same for any other copy of the key: after an applied un-claim, a visible message with that key whose type has a
   handler reaches it at an idle worker that takes it; and while claims hold, it is the only one running for the key.
   */
  lemma CopyRuns(c: Config, s: State, w: nat, copy: Id, w': nat)
    requires Enabled(c, s, Unclaim(w, true)) && At(s, w') == Worker({}, Idle)
    requires HasKey(s, copy, s.body[At(s, w).stage.id].key) && s.body[copy].kind in c.registry
    requires copy in s.place && s.place[copy] == Visible
    ensures var end := Exec(c, s, [Unclaim(w, true), Receive(w', {copy}), Begin(w', copy, true)]);
            && end.Some?
            && At(end.value, w').stage == Running(copy)
            && (ClaimsHold(c) && ClaimInv(s) ==> Alone(end.value, w', s.body[copy].key))
  {
    hide Exec, ClaimInv, Alone;
    var s1 := Step(c, s, Unclaim(w, true));
    var tail := [Receive(w', {copy}), Begin(w', copy, true)];
    TakenAndRun(c, s1, copy, w');
    var acts := [Unclaim(w, true)] + tail;
    assert acts == [Unclaim(w, true), Receive(w', {copy}), Begin(w', copy, true)];
    ExecCons(c, s, Unclaim(w, true), tail);
    if ClaimsHold(c) && ClaimInv(s) {
      ClaimInvRun(c, s, acts);
      BodyStays(c, s, acts, copy);
      AloneInClaim(Exec(c, s, acts).value, w', copy);
    }
  }

  /** Nobody else handles this key. */
  ghost predicate Alone(s: State, w: nat, key: Key) {
    forall w', id :: Handling(s, w', id) && HasKey(s, id, key) ==> w' == w
  }

  lemma AloneInClaim(s: State, w: nat, id: Id)
    requires ClaimInv(s) && At(s, w).stage == Running(id) && IsJob(s, id)
    ensures Alone(s, w, s.body[id].key)
  {
    assert Handling(s, w, id) && HasKey(s, id, s.body[id].key);
  }

  /** A published body never changes. */
  lemma {:induction false} BodyStays(c: Config, s: State, acts: seq<Action>, id: Id)
    requires id in s.body && Exec(c, s, acts).Some?
    ensures var t := Exec(c, s, acts).value; id in t.body && t.body[id] == s.body[id]
    decreases |acts|
  {
    if acts != [] {
      BodyStays(c, Step(c, s, acts[0]), acts[1..], id);
    }
  }

  lemma ExecNone(c: Config, s: State)
    ensures Exec(c, s, []) == Some(s)
  {
  }

  lemma ExecCons(c: Config, s: State, a: Action, rest: seq<Action>)
    requires Enabled(c, s, a)
    ensures Exec(c, s, [a] + rest) == Exec(c, Step(c, s, a), rest)
  {
    assert ([a] + rest)[1..] == rest;
  }
}
