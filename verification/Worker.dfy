/** The consumer loop of `worker.py`, step by step, tied to the interleaved protocol of `WorkerProtocol`. */
module Worker {
  import opened Wrappers
  import opened WorkerProtocol

  datatype ProcessResult = PROCESSED | DUPLICATE | FAILED | POISON

  /** What the outside world does while one message is handled. */
  datatype Luck = Luck(
    cacheUp: bool, handlerReturns: bool, unclaimApplied: bool, dlqStored: bool, dlqAcked: bool, deleteApplied: bool)

  predicate Possible(c: Config, luck: Luck) {
    (luck.cacheUp || c.failsOpen) && (luck.unclaimApplied || c.deletesLost) && (luck.dlqAcked ==> luck.dlqStored)
  }

  /** Where the verdict on a message leaves the worker. */
  function Next(result: ProcessResult, id: Id): Stage {
    match result
    case PROCESSED => ToDelete(id)
    case DUPLICATE => ToDelete(id)
    case FAILED => Idle
    case POISON => ToDlq(id)
  }

  /** One worker over the shared broker and cache. `workers` is the protocol's record of where every worker stands. */
  class Consumer {
    const config: Config
    const me: nat
    const body: map<Id, Body>
    var place: map<Id, Place>
    var dlq: set<Id>
    var seen: set<Key>
    var completed: multiset<Key>
    ghost var workers: map<nat, WorkerProtocol.Worker>

    constructor (config: Config, me: nat, s: State)
      ensures this.config == config && this.me == me && Snapshot() == s
    {
      this.config, this.me, this.body := config, me, s.body;
      place, dlq, seen, completed, workers := s.place, s.dlq, s.seen, s.completed, s.workers;
    }

    ghost function Snapshot(): State
      reads this
    {
      State(body, place, dlq, seen, completed, workers)
    }

    ghost function Self(): WorkerProtocol.Worker
      reads this
    {
      At(Snapshot(), me)
    }

    /** `process_message`: parse, claim, dispatch; it returns a verdict whatever it is handed. */
    method ProcessMessage(id: Id, luck: Luck) returns (result: ProcessResult, ghost trace: seq<Action>)
      requires Self().stage == Idle && id in Self().pending && id in body && Possible(config, luck)
      modifies this`workers, this`seen, this`completed, this`place
      ensures Self() == WorkerProtocol.Worker(old(Self().pending) - {id}, Next(result, id))
      ensures Exec(config, old(Snapshot()), trace) == Some(Snapshot())
      ensures body[id].Malformed? ==> result == POISON && seen == old(seen) && completed == old(completed)
      ensures result == DUPLICATE <==> body[id].Job? && luck.cacheUp && body[id].key in old(seen)
      ensures result == PROCESSED ==> body[id].Job? && completed == old(completed) + multiset{body[id].key}
      ensures result == FAILED && luck.unclaimApplied ==> body[id].Job? && body[id].key !in seen
      ensures result != PROCESSED ==> completed == old(completed)
      ensures result == POISON <==> body[id].Malformed? || (result != DUPLICATE && body[id].kind !in config.registry)
      ensures result == PROCESSED ==> luck.handlerReturns
      ensures result == FAILED ==> !luck.handlerReturns
      ensures place == if result == FAILED then LetGo(old(place), me, id) else old(place)
    {
      hide Exec;
      ghost var begin := Begin(me, id, luck.cacheUp);
      ghost var s0 := Snapshot();
      ghost var rest := Self().pending - {id};
      ExecOne(config, s0, begin);
      trace := [begin];
      if body[id].Malformed? {
        workers := workers[me := WorkerProtocol.Worker(rest, ToDlq(id))];
        return POISON, trace;
      }
      var key := body[id].key;
      if luck.cacheUp && key in seen {
        workers := workers[me := WorkerProtocol.Worker(rest, ToDelete(id))];
        return DUPLICATE, trace;
      }
      if luck.cacheUp {
        seen := seen + {key};
      }
      if body[id].kind !in config.registry {
        workers := workers[me := WorkerProtocol.Worker(rest, ToDlq(id))];
        return POISON, trace;
      }
      workers := workers[me := WorkerProtocol.Worker(rest, Running(id))];
      ghost var more;
      result, more := RunHandler(id, luck);
      ExecAppend(config, s0, trace, more);
      trace := trace + more;
    }

    /** The guarded handler call: success, or failure followed by the un-claim. */
    method RunHandler(id: Id, luck: Luck) returns (result: ProcessResult, ghost trace: seq<Action>)
      requires Self().stage == Running(id) && id in body && body[id].Job? && Possible(config, luck)
      modifies this`workers, this`seen, this`completed, this`place
      ensures Self() == WorkerProtocol.Worker(old(Self().pending), Next(result, id))
      ensures Exec(config, old(Snapshot()), trace) == Some(Snapshot())
      ensures result == if luck.handlerReturns then PROCESSED else FAILED
      ensures completed == if luck.handlerReturns then old(completed) + multiset{body[id].key} else old(completed)
      ensures seen == if result == FAILED && luck.unclaimApplied then old(seen) - {body[id].key} else old(seen)
      ensures place == if result == FAILED then LetGo(old(place), me, id) else old(place)
    {
      hide Exec;
      ghost var s0 := Snapshot();
      ghost var rest := Self().pending;
      if luck.handlerReturns {
        completed := completed + multiset{body[id].key};
        workers := workers[me := WorkerProtocol.Worker(rest, ToDelete(id))];
        ExecOne(config, s0, Succeed(me));
        return PROCESSED, [Succeed(me)];
      }
      workers := workers[me := WorkerProtocol.Worker(rest, Unclaiming(id))];
      ghost var s1 := Snapshot();
      ExecOne(config, s0, Fail(me));
      if luck.unclaimApplied {
        seen := seen - {body[id].key};
      }
      place := LetGo(place, me, id);
      workers := workers[me := WorkerProtocol.Worker(rest, Idle)];
      trace := Extend(config, s0, [Fail(me)], s1, Unclaim(me, luck.unclaimApplied));
      return FAILED, trace;
    }

    /** Acting on the verdict: dead-letter then delete, delete, or leave it for redelivery; a failed call is swallowed. */
    method Settle(id: Id, result: ProcessResult, luck: Luck) returns (ghost trace: seq<Action>)
      requires Self().stage == Next(result, id) && Possible(config, luck)
      modifies this`workers, this`place, this`dlq
      ensures Self() == WorkerProtocol.Worker(old(Self().pending), Idle)
      ensures Exec(config, old(Snapshot()), trace) == Some(Snapshot())
      ensures dlq == if result == POISON && luck.dlqStored then old(dlq) + {id} else old(dlq)
      ensures place ==
              if result == FAILED then old(place)
              else if luck.deleteApplied && (result == POISON ==> luck.dlqAcked) then old(place) - {id}
              else LetGo(old(place), me, id)
    {
      hide Exec;
      ghost var s0 := Snapshot();
      ghost var rest := Self().pending;
      trace := [];
      ExecNone(config, s0);
      if result == FAILED {
        return;
      }
      if result == POISON {
        ghost var send := SendDlq(me, luck.dlqStored, luck.dlqAcked);
        if luck.dlqStored {
          dlq := dlq + {id};
        }
        if !luck.dlqAcked {
          place := LetGo(place, me, id);
        }
        workers := workers[me := WorkerProtocol.Worker(rest, if luck.dlqAcked then ToDelete(id) else Idle)];
        trace := Extend(config, s0, trace, s0, send);
        if !luck.dlqAcked {
          return;
        }
      }
      ghost var s1 := Snapshot();
      place := if luck.deleteApplied then place - {id} else LetGo(place, me, id);
      workers := workers[me := WorkerProtocol.Worker(rest, Idle)];
      trace := Extend(config, s0, trace, s1, Delete(me, luck.deleteApplied));
    }

    /** `for msg in resp["Messages"]`: every message received is dealt with, whatever happens to the ones before it. */
    method HandleBatch(ids: seq<Id>, luck: nat -> Luck) returns (ghost trace: seq<Action>)
      requires Self().stage == Idle
      requires forall i :: 0 <= i < |ids| ==> ids[i] in Self().pending && ids[i] in body && Possible(config, luck(i))
      requires forall i, j :: 0 <= i < j < |ids| ==> ids[i] != ids[j]
      modifies this`workers, this`seen, this`completed, this`place, this`dlq
      ensures Self().stage == Idle
      ensures forall id :: id in Self().pending <==> id in old(Self().pending) && id !in ids
      ensures Exec(config, old(Snapshot()), trace) == Some(Snapshot())
    {
      hide Exec;
      ghost var s0 := Snapshot();
      trace := [];
      ExecNone(config, s0);
      for i := 0 to |ids|
        invariant Self().stage == Idle
        invariant forall id :: id in Self().pending <==> id in old(Self().pending) && id !in ids[..i]
        invariant Exec(config, s0, trace) == Some(Snapshot())
      {
        assert ids[..i + 1] == ids[..i] + [ids[i]];
        ghost var s1 := Snapshot();
        var result;
        ghost var first;
        result, first := ProcessMessage(ids[i], luck(i));
        ExecAppend(config, s0, trace, first);
        trace := trace + first;
        ghost var second := Settle(ids[i], result, luck(i));
        ExecAppend(config, s0, trace, second);
        trace := trace + second;
      }
      assert ids[..|ids|] == ids;
    }
  }

  lemma ExecOne(c: Config, s: State, a: Action)
    requires Enabled(c, s, a)
    ensures Exec(c, s, [a]) == Some(Step(c, s, a))
  {
    assert [a] == [a] + [];
    ExecNone(c, Step(c, s, a));
    ExecCons(c, s, a, []);
  }

  ghost function Extend(c: Config, s: State, trace: seq<Action>, t: State, a: Action): (r: seq<Action>)
    requires Exec(c, s, trace) == Some(t) && Enabled(c, t, a)
    ensures Exec(c, s, r) == Some(Step(c, t, a))
  {
    ExecAppend(c, s, trace, [a]);
    ExecOne(c, t, a);
    trace + [a]
  }
}
