/** The two entry points of `RecommendationService` in `service.py`. */
module Service {
  import opened Wrappers
  import opened Schemas
  import opened Grounding
  import LlmStreams
  import Pipeline

  /** `_top_rerank_confidence`: the first rerank score there is. */
  function FirstScore(cs: seq<Candidate>): Option<real> {
    if cs == [] then None
    else if cs[0].rerank.Some? then cs[0].rerank
    else FirstScore(cs[1..])
  }

  method TopRerankConfidence(cs: seq<Candidate>) returns (r: Option<real>)
    ensures r == FirstScore(cs)
  {
    for i := 0 to |cs|
      invariant FirstScore(cs) == FirstScore(cs[i..])
    {
      if cs[i].rerank.Some? {
        return cs[i].rerank;
      }
      assert cs[i..][1..] == cs[i + 1..];
    }
    return None;
  }

  datatype Retrieval = Found(candidates: seq<Candidate>) | Unavailable | Raised

  /** What surrounds a request: the kill switch, the catalogue's verdict, retrieval, and the refusal floor. */
  datatype Request = Request(enabled: bool, missing: seq<string>, retrieval: Retrieval, floor: real)

  datatype ModelReply = Answered(recs: Recommendations) | ModelRaised | ModelCancelled

  datatype Outcome = Returned(result: RecommendationResult) | Escaped

  /** The request gets as far as the model. */
  predicate ReachesModel(q: Request) {
    && q.enabled
    && q.missing == []
    && q.retrieval.Found?
    && q.retrieval.candidates != []
    && !BelowFloor(q)
  }

  /** The reranker ran, and its best candidate is below the floor. */
  predicate BelowFloor(q: Request)
    requires q.retrieval.Found?
  {
    var c := FirstScore(q.retrieval.candidates);
    c.Some? && c.value < q.floor
  }

  /** What the model was given: the published confidence, when it was asked at all. */
  datatype Asked = NotAsked | AskedWith(confidence: Option<real>)

  // ---------------------------------------------------------------- the two entry points

  /** `RecommendationService.recommend`. */
  method Recommend(q: Request, reply: ModelReply) returns (r: Outcome, asked: Asked)
    ensures asked == if ReachesModel(q) then AskedWith(FirstScore(q.retrieval.candidates)) else NotAsked
    ensures r == Answer(q, reply)
  {
    hide Ground;
    asked := NotAsked;
    if !q.enabled {
      return Returned(PopularFallback(DegradedNotice)), asked;
    }
    if q.missing != [] {
      return Returned(Refused(NotInCatalogue(q.missing))), asked;
    }
    match q.retrieval {
      case Raised => return Escaped, asked;
      case Unavailable => return Returned(PopularFallback(DegradedNotice)), asked;
      case Found(candidates) =>
        if candidates == [] {
          return Returned(PopularFallback(NoMatchNotice)), asked;
        }
        var confidence := TopRerankConfidence(candidates);
        if confidence.Some? && confidence.value < q.floor {
          return Returned(Refused(OutOfScopeRefusal)), asked;
        }
        asked := AskedWith(confidence);
        match reply {
          case ModelCancelled => return Escaped, asked;
          case ModelRaised => return Returned(PopularFallback(DegradedNotice)), asked;
          case Answered(recs) =>
            if recs.IsRefusal() {
              return Returned(Refused(Said(recs.refusal.value))), asked;
            }
            var grounded := GroundRecommendations(recs, candidates);
            if grounded.items == [] {
              return Returned(PopularFallback(NoMatchNotice)), asked;
            }
            return Returned(Of(grounded)), asked;
        }
    }
  }

  function Spoken(tokens: seq<string>): seq<Message> {
    seq(|tokens|, i requires 0 <= i < |tokens| => Said(tokens[i]))
  }

  function Shown(seen: LlmStreams.Seen): seq<Message> {
    Spoken(seen.text) + (if seen.notices > 0 then [DegradedNotice] else [])
  }

  /** What a reader of the stream gets, and whether the request ends in an error instead. */
  datatype Streamed = Streamed(chunks: seq<Message>, escaped: bool)

  /** `RecommendationService.astream`, for a reader that takes at most `room` chunks. */
  method Astream(q: Request, model: LlmStreams.Stream, room: nat) returns (r: Streamed, asked: Asked)
    requires room >= 1
    ensures asked == if ReachesModel(q) then AskedWith(FirstScore(q.retrieval.candidates)) else NotAsked
    ensures r == StreamedAnswer(q, model, room)
  {
    asked := NotAsked;
    if !q.enabled {
      return Streamed([DegradedNotice], false), asked;
    }
    if q.missing != [] {
      return Streamed([NotInCatalogue(q.missing)], false), asked;
    }
    match q.retrieval {
      case Raised => return Streamed([], true), asked;
      case Unavailable => return Streamed([DegradedNotice], false), asked;
      case Found(candidates) =>
        if candidates == [] {
          return Streamed([NoMatchNotice], false), asked;
        }
        var confidence := TopRerankConfidence(candidates);
        if confidence.Some? && confidence.value < q.floor {
          return Streamed([OutOfScopeRefusal], false), asked;
        }
        asked := AskedWith(confidence);
        var seen := LlmStreams.WithNotice(model, room);
        return Streamed(Shown(seen), seen.end == LlmStreams.Stopped), asked;
    }
  }

  // ---------------------------------------------------------------- the answer contract

  datatype Verdict = Refuses(message: Message) | Degrades(notice: Message) | Grounds(recs: Recommendations) | Fails

  /** What is decided before, or instead of, asking the model; None when the model is asked. */
  function Early(q: Request): Option<Verdict> {
    if !q.enabled then Some(Degrades(DegradedNotice))
    else if q.missing != [] then Some(Refuses(NotInCatalogue(q.missing)))
    else
      match q.retrieval
      case Raised => Some(Fails)
      case Unavailable => Some(Degrades(DegradedNotice))
      case Found(candidates) =>
        if candidates == [] then Some(Degrades(NoMatchNotice))
        else if BelowFloor(q) then Some(Refuses(OutOfScopeRefusal))
        else None
  }

  function Late(reply: ModelReply, cs: seq<Candidate>): Verdict {
    match reply
    case ModelCancelled => Fails
    case ModelRaised => Degrades(DegradedNotice)
    case Answered(recs) =>
      if recs.IsRefusal() then Refuses(Said(recs.refusal.value))
      else if Ground(recs, cs).items == [] then Degrades(NoMatchNotice)
      else Grounds(Ground(recs, cs))
  }

  function Decide(q: Request, reply: ModelReply): Verdict {
    if Early(q).Some? then Early(q).value else Late(reply, q.retrieval.candidates)
  }

  function Answer(q: Request, reply: ModelReply): Outcome {
    match Decide(q, reply)
    case Fails => Escaped
    case Refuses(message) => Returned(Refused(message))
    case Degrades(notice) => Returned(PopularFallback(notice))
    case Grounds(recs) => Returned(Of(recs))
  }

  function StreamedAnswer(q: Request, model: LlmStreams.Stream, room: nat): Streamed {
    match Early(q)
    case None =>
      var seen := LlmStreams.Received(model, room);
      Streamed(Shown(seen), seen.end == LlmStreams.Stopped)
    case Some(verdict) =>
      match verdict
      case Refuses(message) => Streamed([message], false)
      case Degrades(notice) => Streamed([notice], false)
      case Grounds(_) => Streamed([], false)
      case Fails => Streamed([], true)
  }

  /** The first rerank score is that of the first candidate that has one. */
  lemma {:induction false} FirstScoreExactly(cs: seq<Candidate>)
    ensures FirstScore(cs).None? <==> forall i :: 0 <= i < |cs| ==> cs[i].rerank.None?
    ensures FirstScore(cs).Some? ==> exists i :: ScoresFirst(cs, i) && cs[i].rerank == FirstScore(cs)
  {
    if cs != [] {
      FirstScoreExactly(cs[1..]);
      if cs[0].rerank.Some? {
        assert ScoresFirst(cs, 0);
      } else if FirstScore(cs).Some? {
        var i :| ScoresFirst(cs[1..], i) && cs[1..][i].rerank == FirstScore(cs);
        assert forall j :: 0 < j <= i ==> cs[j].rerank.None? by {
          assert forall j :: 0 < j <= i ==> cs[j] == cs[1..][j - 1];
        }
        assert ScoresFirst(cs, i + 1);
      } else {
        assert forall i :: 0 < i < |cs| ==> cs[i] == cs[1..][i - 1];
      }
    }
  }

  ghost predicate ScoresFirst(cs: seq<Candidate>, i: int) {
    0 <= i < |cs| && cs[i].rerank.Some? && forall j :: 0 <= j < i ==> cs[j].rerank.None?
  }

  /** The first rerank score there is, is below the floor. */
  ghost predicate FirstBelow(cs: seq<Candidate>, floor: real) {
    exists i :: ScoresFirst(cs, i) && cs[i].rerank.value < floor
  }

  lemma FirstBelowExactly(cs: seq<Candidate>, floor: real)
    ensures FirstBelow(cs, floor) <==> FirstScore(cs).Some? && FirstScore(cs).value < floor
  {
    FirstScoreExactly(cs);
    if FirstScore(cs).Some? {
      var i :| ScoresFirst(cs, i) && cs[i].rerank == FirstScore(cs);
      forall k | ScoresFirst(cs, k)
        ensures k == i
      {
      }
    }
  }

  /** Everything decided before the model, with the very message, at both entry points. */
  lemma EarlyExactly(q: Request, reply: ModelReply, model: LlmStreams.Stream, room: nat)
    ensures !q.enabled ==> Both(q, reply, model, room, Popularly(DegradedNotice), DegradedNotice)
    ensures q.enabled && q.missing != [] ==>
              Both(q, reply, model, room, Nothing(NotInCatalogue(q.missing)), NotInCatalogue(q.missing))
    ensures q.enabled && q.missing == [] && q.retrieval.Unavailable? ==>
              Both(q, reply, model, room, Popularly(DegradedNotice), DegradedNotice)
    ensures q.enabled && q.missing == [] && q.retrieval.Raised? ==>
              Answer(q, reply) == Escaped && StreamedAnswer(q, model, room) == Streamed([], true)
    ensures q.enabled && q.missing == [] && q.retrieval == Found([]) ==>
              Both(q, reply, model, room, Popularly(NoMatchNotice), NoMatchNotice)
    ensures q.enabled && q.missing == [] && q.retrieval.Found? && FirstBelow(q.retrieval.candidates, q.floor) ==>
              Both(q, reply, model, room, Nothing(OutOfScopeRefusal), OutOfScopeRefusal)
    ensures ReachesModel(q) <==>
            && q.enabled && q.missing == []
            && q.retrieval.Found? && q.retrieval.candidates != [] && !FirstBelow(q.retrieval.candidates, q.floor)
  {
    hide FirstBelow, FirstScore;
    if q.retrieval.Found? {
      NothingBelow(q.floor);
      FirstBelowExactly(q.retrieval.candidates, q.floor);
    }
  }

  lemma NothingBelow(floor: real)
    ensures !FirstBelow([], floor)
  {
  }

  /** `recommend` returns this result, and `astream` yields this one message. */
  ghost predicate Both(
    q: Request, reply: ModelReply, model: LlmStreams.Stream, room: nat, result: RecommendationResult, message: Message)
  {
    Answer(q, reply) == Returned(result) && StreamedAnswer(q, model, room) == Streamed([message], false)
  }

  /** The popular anime, as a degraded answer. */
  ghost function Popularly(notice: Message): RecommendationResult {
    RecommendationResult(
      [Recommendation(1, "Cowboy Bebop", 0), Recommendation(19, "Monster", 1), Recommendation(21, "One Piece", 2)],
      None, true, Some(notice))
  }

  ghost function Nothing(refusal: Message): RecommendationResult {
    RecommendationResult([], Some(refusal), false, None)
  }

  /** What becomes of the model's reply, with the very message. */
  lemma LateExactly(q: Request, reply: ModelReply)
    requires ReachesModel(q)
    ensures reply.ModelCancelled? ==> Answer(q, reply) == Escaped
    ensures reply.ModelRaised? ==> Answer(q, reply) == Returned(Popularly(DegradedNotice))
    ensures reply.Answered? && reply.recs.items == [] && reply.recs.refusal.Some? && reply.recs.refusal.value != "" ==>
              Answer(q, reply) == Returned(Nothing(Said(reply.recs.refusal.value)))
    ensures reply.Answered? && (reply.recs.items != [] || reply.recs.refusal.None? || reply.recs.refusal.value == "") ==>
              var items := Ground(reply.recs, q.retrieval.candidates).items;
              Answer(q, reply) ==
              Returned(if items == [] then Popularly(NoMatchNotice) else RecommendationResult(items, None, false, None))
  {
    hide Kept;
  }

  /**
   What a reader gets of the model's stream: its tokens in order, as many as it takes, and a notice after them exactly if
   the model then raised with the reader still there; a cancellation escapes.
   */
  lemma StreamExactly(q: Request, model: LlmStreams.Stream, room: nat, i: nat)
    requires ReachesModel(q)
    ensures var r, n := StreamedAnswer(q, model, room), |model.tokens|;
            var noticed := n < room && model.end == LlmStreams.Broke;
            && |r.chunks| == (if n < room then n else room) + (if noticed then 1 else 0)
            && (i < n && i < room ==> r.chunks[i] == Said(model.tokens[i]))
            && (noticed ==> r.chunks[n] == DegradedNotice)
            && (r.escaped <==> n < room && model.end == LlmStreams.Stopped)
  {
  }

  predicate IsRefusal(r: RecommendationResult) {
    r.items == [] && r.refusal.Some? && !Blank(r.refusal.value) && !r.degraded && r.notice.None?
  }

  predicate IsDegraded(r: RecommendationResult) {
    r.items != [] && r.refusal.None? && r.degraded && r.notice.Some?
  }

  /** A real answer: at least one and at most five items, each with a retrieved id, in the model's order. */
  ghost predicate IsGrounded(r: RecommendationResult, recs: Recommendations, cs: seq<Candidate>) {
    && 0 < |r.items| <= MAX_RECOMMENDATIONS
    && r.refusal.None? && !r.degraded && r.notice.None?
    && AllRetrieved(r.items, cs)
    && exists kept: seq<Recommendation>, places: seq<nat> :: KeptAt(kept, recs.items, cs, places) && r.items <= kept
  }

  /**
   Every result is a refusal, a degraded answer or a grounded one, and never two of them. It is grounded exactly when the
   model was asked, answered without refusing, and named something retrieved.
   */
  lemma AnswerContract(q: Request, reply: ModelReply)
    requires Answer(q, reply).Returned?
    ensures var r := Answer(q, reply).result;
            var useful := ReachesModel(q) && reply.Answered? && !reply.recs.IsRefusal()
                          && Ground(reply.recs, q.retrieval.candidates).items != [];
            && (useful <==> !IsRefusal(r) && !IsDegraded(r))
            && (useful ==> IsGrounded(r, reply.recs, q.retrieval.candidates))
            && !(IsRefusal(r) && IsDegraded(r))
            && (IsRefusal(r) <==>
                  && q.enabled
                  && (q.missing != []
                      || (q.retrieval.Found? && q.retrieval.candidates != [] && BelowFloor(q))
                      || (ReachesModel(q) && reply.Answered? && reply.recs.IsRefusal())))
  {
    hide KeptAt, Ground, Kept;
    if Decide(q, reply).Grounds? {
      GroundedShape(reply.recs, q.retrieval.candidates);
    }
  }

  lemma GroundedShape(recs: Recommendations, cs: seq<Candidate>)
    requires Ground(recs, cs).items != []
    ensures IsGrounded(Of(Ground(recs, cs)), recs, cs)
  {
    hide KeptAt, Kept, AllRetrieved;
    GroundingIdempotent(recs, cs);
    var places := KeptInOrder(recs.items, cs);
    assert KeptAt(Kept(recs.items, cs), recs.items, cs, places) && Ground(recs, cs).items <= Kept(recs.items, cs);
  }

  /**
   The two entry points agree. The model is asked by both or by neither, whatever it then does; when it is not, the stream
   is one chunk that says what the other returns, or both end in an error; and when the model fails before its first token,
   the stream is the notice of the degraded answer.
   */
  lemma EntryPointsAgree(q: Request, reply: ModelReply, model: LlmStreams.Stream, room: nat)
    requires room >= 1
    ensures Early(q).None? <==> ReachesModel(q)
    ensures !ReachesModel(q) ==>
              && (StreamedAnswer(q, model, room).escaped <==> Answer(q, reply).Escaped?)
              && (Answer(q, reply).Returned? ==>
                    var r := Answer(q, reply).result;
                    StreamedAnswer(q, model, room).chunks == [if IsRefusal(r) then r.refusal.value else r.notice.value])
    ensures ReachesModel(q) && LlmStreams.Silent(model) && reply.ModelRaised? ==>
              && Answer(q, reply).Returned?
              && StreamedAnswer(q, model, room) == Streamed([Answer(q, reply).result.notice.value], false)
  {
    hide Ground;
  }

  /**
   On the pipeline's results the published confidence is the first candidate's rerank score, or nothing when the reranker
   failed; so a failed reranker never causes a refusal.
   */
  lemma ConfidenceIsFirst(
    r: Pipeline.Result, c: Pipeline.Config, fused: seq<Candidate>, rerank: Pipeline.Rerank,
    fetch: Option<set<Fusion.Key>>, v: Pipeline.Vectors, floor: real)
    requires Pipeline.Completes(r, c, fused, rerank, fetch, v) && r.Ranked? && Pipeline.Plain(fused)
    ensures r.candidates != [] ==> FirstScore(r.candidates) == r.candidates[0].rerank
    ensures rerank.Failed? && r.candidates != [] ==> ReachesModel(Request(true, [], Found(r.candidates), floor))
  {
    hide Pipeline.Completes, Pipeline.Plain, Pipeline.FirstOfEach;
    Pipeline.ScoredExactly(r, c, fused, rerank, fetch, v);
    var yes := rerank.Scores? && |rerank.scores| == |Pipeline.FirstOfEach(fused)|;
    if r.candidates != [] && !yes {
      NoScore(r.candidates);
    }
  }

  lemma {:induction false} NoScore(cs: seq<Candidate>)
    requires Pipeline.Scored(cs, false)
    ensures FirstScore(cs).None?
  {
    if cs != [] {
      NoScore(cs[1..]);
    }
  }
}
