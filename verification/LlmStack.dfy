/** The nested LLM clients of `llm_client.py` and `venue.py`, and the flat policy they amount to. */
module LlmStack {
  import opened Wrappers
  import opened CircuitBreaker

  datatype Tier = Venue | GroqDefault | GroqEscalation | OpenAI

  datatype Error = ParseFailure | OtherFailure | TimedOut | BreakerOpen | OverBudget

  /** What a client returns or raises. A refusal, like an empty answer, has no items. */
  datatype Reply = Answer(id: nat) | Empty(id: nat) | Refusal(id: nat) | Raised(error: Error) | Cancelled

  datatype Timed = Timed(reply: Reply, took: real)

  datatype Breakers = Breakers(venue: Breaker, groqDefault: Breaker, groqEscalation: Breaker, openAI: Breaker) {
    function Of(t: Tier): Breaker {
      match t
      case Venue => venue
      case GroqDefault => groqDefault
      case GroqEscalation => groqEscalation
      case OpenAI => openAI
    }

    function With(t: Tier, b: Breaker): Breakers {
      match t
      case Venue => this.(venue := b)
      case GroqDefault => this.(groqDefault := b)
      case GroqEscalation => this.(groqEscalation := b)
      case OpenAI => this.(openAI := b)
    }

    /** After other requests have done these things to each breaker. */
    function Overlapped(others: Tier -> seq<Event>): Breakers {
      Breakers(Run(venue, others(Venue)), Run(groqDefault, others(GroqDefault)),
               Run(groqEscalation, others(GroqEscalation)), Run(openAI, others(OpenAI)))
    }
  }

  /**
   The world around one request. `oracle` decides, for the n-th provider invocation, what the tier asked replies and how
   long it takes, its timeout included; `others` what other requests do to the breakers while that invocation is awaited;
   `calls` lists this request's invocations that reached a provider.
   */
  datatype World = World(
    oracle: (Tier, nat) -> Timed,
    others: nat -> Tier -> seq<Event>,
    calls: seq<Tier>,
    breakers: Breakers,
    clock: real,
    venueAttempts: nat,
    venueFallbacks: nat)

  datatype Step = Step(reply: Reply, w: World)

  /** A breaker after an invocation. A cancellation counts as neither success nor failure. */
  function Settled(b: Breaker, r: Reply, end: real): Breaker {
    match r
    case Raised(_) => OnFailure(b, end)
    case Cancelled => b
    case _ => OnSuccess(b)
  }

  /** `ResilientLLMClient.recommend`: the tier behind its breaker, which other requests share. */
  function Ask(w: World, t: Tier): Step {
    var b := Poll(w.breakers.Of(t), w.clock);
    var polled := w.breakers.With(t, b);
    if b.state == OPEN then Step(Raised(BreakerOpen), w.(breakers := polled))
    else
      var n := |w.calls|;
      var r := w.oracle(t, n);
      var end := w.clock + r.took;
      var overlapped := polled.Overlapped(w.others(n));
      Step(r.reply,
           w.(calls := w.calls + [t], clock := end,
              breakers := overlapped.With(t, Settled(overlapped.Of(t), r.reply, end))))
  }

  datatype Tiers = Tiers(default: Tier, escalation: Tier, fallback: Tier)

  datatype Request = Request(
    words: nat,                  // of query and context
    maxInputTokens: int,
    escalate: bool,              // the difficulty heuristic's answer for the query
    tiers: Tiers,
    venueEnabled: bool,
    confidence: Option<real>,    // the published retrieval confidence
    venueThreshold: real)

  function Primary(q: Request): Tier {
    if q.escalate then q.tiers.escalation else q.tiers.default
  }

  predicate NoItems(r: Reply) {
    r.Empty? || r.Refusal?
  }

  // ---------------------------------------------------------------- the nested clients

  /** `TieredLLMClient.recommend`. */
  function Tiered(w: World, q: Request): Step {
    var primary, fallback := Primary(q), q.tiers.fallback;
    var first := Ask(w, primary);
    match first.reply
    case Cancelled => first
    case Raised(error) =>
      if error == ParseFailure && primary != fallback then
        var retry := Ask(first.w, primary);
        if retry.reply.Raised? then Ask(retry.w, fallback) else retry
      else Ask(first.w, fallback)
    case Refusal(_) => first
    case Empty(_) =>
      if primary != fallback then
        var second := Ask(first.w, fallback);
        if NoItems(second.reply) then Step(first.reply, second.w) else second
      else first
    case Answer(_) => first
  }

  predicate ShouldUseVenue(q: Request) {
    q.confidence.Some? && q.confidence.value >= q.venueThreshold
  }

  /** `VenueRoutedClient.recommend`. */
  function VenueRouted(w: World, q: Request): Step {
    if !ShouldUseVenue(q) then Tiered(w, q)
    else
      var first := Ask(w.(venueAttempts := w.venueAttempts + 1), Venue);
      var fellThrough := first.w.(venueFallbacks := first.w.venueFallbacks + 1);
      match first.reply
      case Cancelled => first
      case Raised(_) => Tiered(fellThrough, q)
      case Refusal(_) => first
      case Empty(_) =>
        var hosted := Tiered(fellThrough, q);
        if NoItems(hosted.reply) then Step(first.reply, hosted.w) else hosted
      case Answer(_) => first
  }

  /** `int(words * 1.5)`. */
  function EstimatedTokens(words: nat): nat {
    words * 3 / 2
  }

  /** The production composition: budget, then venue if enabled, then tiers, each behind its breaker. */
  function Recommend(w: World, q: Request): Step {
    if EstimatedTokens(q.words) > q.maxInputTokens then Step(Raised(OverBudget), w)
    else if q.venueEnabled then VenueRouted(w, q)
    else Tiered(w, q)
  }

  // ---------------------------------------------------------------- the flat policy

  datatype Leg = VenueLeg | PrimaryLeg | RetryLeg | FallbackLeg

  function Rank(leg: Leg): nat {
    match leg case VenueLeg => 0 case PrimaryLeg => 1 case RetryLeg => 2 case FallbackLeg => 3
  }

  function TierOf(q: Request, leg: Leg): Tier {
    match leg
    case VenueLeg => Venue
    case PrimaryLeg => Primary(q)
    case RetryLeg => Primary(q)
    case FallbackLeg => q.tiers.fallback
  }

  /** Which leg, if any, is asked after this reply. */
  function NextLeg(q: Request, leg: Leg, r: Reply): Option<Leg> {
    var distinct := Primary(q) != q.tiers.fallback;
    match leg
    case VenueLeg => if r.Raised? || r.Empty? then Some(PrimaryLeg) else None
    case PrimaryLeg =>
      if r == Raised(ParseFailure) && distinct then Some(RetryLeg)
      else if r.Raised? || (r.Empty? && distinct) then Some(FallbackLeg) else None
    case RetryLeg => if r.Raised? then Some(FallbackLeg) else None
    case FallbackLeg => None
  }

  datatype Asked = Asked(leg: Leg, reply: Reply)

  datatype Trail = Trail(asked: seq<Asked>, w: World)

  /** Ask a leg, counting an attempt on the venue. */
  function AskLeg(w: World, q: Request, leg: Leg): Step {
    Ask(if leg == VenueLeg then w.(venueAttempts := w.venueAttempts + 1) else w, TierOf(q, leg))
  }

  /** Move on from a leg, counting a fall-through from the venue. */
  function MoveOn(w: World, leg: Leg): World {
    if leg == VenueLeg then w.(venueFallbacks := w.venueFallbacks + 1) else w
  }

  /** Ask one leg after another until the policy says stop. */
  function Follow(w: World, q: Request, leg: Leg): (t: Trail)
    ensures |t.asked| >= 1
    decreases 3 - Rank(leg)
  {
    var step := AskLeg(w, q, leg);
    var next := NextLeg(q, leg, step.reply);
    if next.None? then Trail([Asked(leg, step.reply)], step.w)
    else
      var rest := Follow(MoveOn(step.w, leg), q, next.value);
      Trail([Asked(leg, step.reply)] + rest.asked, rest.w)
  }

  function FirstEmpty(asked: seq<Asked>): Option<Reply> {
    if asked == [] then None
    else if asked[0].reply.Empty? then Some(asked[0].reply)
    else FirstEmpty(asked[1..])
  }

  /** The last reply counts, unless it has no items and an earlier leg already gave an empty answer: that one is kept. */
  function Verdict(asked: seq<Asked>): Reply
    requires |asked| >= 1
  {
    var last := asked[|asked| - 1].reply;
    if NoItems(last) && FirstEmpty(asked).Some? then FirstEmpty(asked).value else last
  }

  function StartLeg(q: Request): Leg {
    if q.venueEnabled && ShouldUseVenue(q) then VenueLeg else PrimaryLeg
  }

  predicate OverLimit(q: Request) {
    EstimatedTokens(q.words) > q.maxInputTokens
  }

  lemma FollowOnce(w: World, q: Request, leg: Leg)
    requires leg != VenueLeg
    ensures var step := Ask(w, TierOf(q, leg));
            var next := NextLeg(q, leg, step.reply);
            Follow(w, q, leg) ==
            if next.None? then Trail([Asked(leg, step.reply)], step.w)
            else
              (var rest := Follow(step.w, q, next.value);
               Trail([Asked(leg, step.reply)] + rest.asked, rest.w))
  {
  }

  lemma VerdictCons(a: Asked, rest: seq<Asked>)
    requires |rest| >= 1
    ensures Verdict([a] + rest) == if a.reply.Empty? && NoItems(Verdict(rest)) then a.reply else Verdict(rest)
  {
    var asked := [a] + rest;
    assert asked[1..] == rest;
    assert asked[|asked| - 1] == rest[|rest| - 1];
    FirstEmptyIsEmpty(rest);
    var last := rest[|rest| - 1].reply;
    assert FirstEmpty(asked) == if a.reply.Empty? then Some(a.reply) else FirstEmpty(rest);
    assert Verdict(rest) == if NoItems(last) && FirstEmpty(rest).Some? then FirstEmpty(rest).value else last;
    assert Verdict(asked) == if NoItems(last) && FirstEmpty(asked).Some? then FirstEmpty(asked).value else last;
    assert NoItems(Verdict(rest)) <==> NoItems(last);
  }

  lemma {:induction false} FirstEmptyIsEmpty(asked: seq<Asked>)
    ensures FirstEmpty(asked).Some? ==> FirstEmpty(asked).value.Empty?
    ensures FirstEmpty(asked).None? ==> forall i :: 0 <= i < |asked| ==> !asked[i].reply.Empty?
  {
    if asked != [] {
      FirstEmptyIsEmpty(asked[1..]);
      assert asked == [asked[0]] + asked[1..];
    }
  }

  lemma VerdictOne(a: Asked)
    ensures Verdict([a]) == a.reply
  {
    assert [a][1..] == [];
    assert FirstEmpty([]) == None;
    assert FirstEmpty([a]) == if a.reply.Empty? then Some(a.reply) else FirstEmpty([]);
  }

  /** A tail of the policy that is just the fallback. */
  lemma FallbackAlone(w: World, q: Request)
    ensures var step := Ask(w, q.tiers.fallback);
            var t := Follow(w, q, FallbackLeg);
            t == Trail([Asked(FallbackLeg, step.reply)], step.w) && Verdict(t.asked) == step.reply
  {
    VerdictOne(Asked(FallbackLeg, Ask(w, q.tiers.fallback).reply));
  }

  lemma RetryThenFallback(w: World, q: Request)
    ensures var retry := Ask(w, Primary(q));
            var t := Follow(w, q, RetryLeg);
            Step(Verdict(t.asked), t.w) == if retry.reply.Raised? then Ask(retry.w, q.tiers.fallback) else retry
  {
    hide Ask, Verdict, Follow;
    var retry := Ask(w, Primary(q));
    FollowOnce(w, q, RetryLeg);
    VerdictOne(Asked(RetryLeg, retry.reply));
    FallbackAlone(retry.w, q);
    VerdictCons(Asked(RetryLeg, retry.reply), Follow(retry.w, q, FallbackLeg).asked);
  }

  lemma TieredIsFlat(w: World, q: Request)
    ensures var t := Follow(w, q, PrimaryLeg); Tiered(w, q) == Step(Verdict(t.asked), t.w)
  {
    hide Ask, Verdict, Follow;
    var first := Ask(w, Primary(q));
    var a := Asked(PrimaryLeg, first.reply);
    FollowOnce(w, q, PrimaryLeg);
    VerdictOne(a);
    FallbackAlone(first.w, q);
    VerdictCons(a, Follow(first.w, q, FallbackLeg).asked);
    RetryThenFallback(first.w, q);
    VerdictCons(a, Follow(first.w, q, RetryLeg).asked);
  }

  lemma VenueIsFlat(w: World, q: Request)
    requires ShouldUseVenue(q)
    ensures var t := Follow(w, q, VenueLeg); VenueRouted(w, q) == Step(Verdict(t.asked), t.w)
  {
    hide Ask, Verdict, Tiered, FirstEmpty;
    var first := Ask(w.(venueAttempts := w.venueAttempts + 1), Venue);
    var w1 := first.w.(venueFallbacks := first.w.venueFallbacks + 1);
    var a := Asked(VenueLeg, first.reply);
    VerdictOne(a);
    TieredIsFlat(w1, q);
    VerdictCons(a, Follow(w1, q, PrimaryLeg).asked);
  }

  /** The nested stack refines the flat policy: same reply, same provider calls, same breakers, clock and counters. */
  lemma StackIsFlat(w: World, q: Request)
    ensures var t := Follow(w, q, StartLeg(q));
            Recommend(w, q) == if OverLimit(q) then Step(Raised(OverBudget), w) else Step(Verdict(t.asked), t.w)
  {
    hide Ask, Verdict, Follow, Tiered, VenueRouted;
    if q.venueEnabled && ShouldUseVenue(q) {
      VenueIsFlat(w, q);
    } else {
      TieredIsFlat(w, q);
      if q.venueEnabled {
        VenueUnused(w, q);
      }
    }
  }

  lemma VenueUnused(w: World, q: Request)
    requires !ShouldUseVenue(q)
    ensures VenueRouted(w, q) == Tiered(w, q)
  {
  }

  // ---------------------------------------------------------------- consequences

  lemma AskCalls(w: World, q: Request, leg: Leg)
    ensures var step := AskLeg(w, q, leg);
            && (step.w.calls == w.calls || step.w.calls == w.calls + [TierOf(q, leg)])
            && step.w.venueAttempts == w.venueAttempts + (if leg == VenueLeg then 1 else 0)
            && step.w.venueFallbacks == w.venueFallbacks
  {
  }

  ghost predicate Extends(calls: seq<Tier>, before: seq<Tier>, more: nat) {
    |before| <= |calls| <= |before| + more && calls[..|before|] == before
  }

  lemma ExtendsOn(a: seq<Tier>, b: seq<Tier>, c: seq<Tier>, n: nat)
    requires Extends(b, a, 1) && Extends(c, b, n)
    ensures Extends(c, a, n + 1)
  {
    assert c[..|a|] == c[..|b|][..|a|];
  }

  /** Provider calls a trail stands for: at most one a leg, after those already made. */
  lemma {:induction false} CallsOfTrail(w: World, q: Request, leg: Leg)
    ensures var t := Follow(w, q, leg);
            |t.asked| <= 4 - Rank(leg) && Extends(t.w.calls, w.calls, |t.asked|) && t.asked[0].leg == leg
    decreases 3 - Rank(leg)
  {
    hide AskLeg, TierOf;
    var step := AskLeg(w, q, leg);
    var next := NextLeg(q, leg, step.reply);
    AskCalls(w, q, leg);
    assert Extends(step.w.calls, w.calls, 1);
    if next.Some? {
      CallsOfTrail(MoveOn(step.w, leg), q, next.value);
      var rest := Follow(MoveOn(step.w, leg), q, next.value);
      ExtendsOn(w.calls, step.w.calls, rest.w.calls, |rest.asked|);
    }
  }

  /** Each leg of a trail is the one the policy names after the reply before it, and the last is the one it stops at. */
  lemma {:induction false} TrailFollowsPolicy(w: World, q: Request, leg: Leg)
    ensures var asked := Follow(w, q, leg).asked;
            && (forall i :: 0 < i < |asked| ==> NextLeg(q, asked[i - 1].leg, asked[i - 1].reply) == Some(asked[i].leg))
            && NextLeg(q, asked[|asked| - 1].leg, asked[|asked| - 1].reply) == None
            && asked[0].leg == leg
    decreases 3 - Rank(leg)
  {
    hide AskLeg;
    var step := AskLeg(w, q, leg);
    var next := NextLeg(q, leg, step.reply);
    if next.Some? {
      TrailFollowsPolicy(MoveOn(step.w, leg), q, next.value);
      var rest := Follow(MoveOn(step.w, leg), q, next.value).asked;
      var asked := Follow(w, q, leg).asked;
      assert asked == [Asked(leg, step.reply)] + rest;
      forall i | 0 < i < |asked| ensures NextLeg(q, asked[i - 1].leg, asked[i - 1].reply) == Some(asked[i].leg) {
        assert asked[i] == rest[i - 1];
        if i > 1 {
          assert asked[i - 1] == rest[i - 2];
        }
      }
    }
  }

  /** Where a request goes first: to the venue if it is enabled and retrieval was confident enough, else by difficulty. */
  lemma FirstLegExactly(q: Request)
    ensures StartLeg(q) == VenueLeg <==>
            q.venueEnabled && q.confidence != None && q.confidence.value >= q.venueThreshold
    ensures StartLeg(q) != VenueLeg ==> StartLeg(q) == PrimaryLeg
    ensures TierOf(q, VenueLeg) == Venue && TierOf(q, FallbackLeg) == q.tiers.fallback
    ensures TierOf(q, PrimaryLeg) == TierOf(q, RetryLeg) == if q.escalate then q.tiers.escalation else q.tiers.default
    ensures OverLimit(q) <==> (q.words as real * 1.5).Floor > q.maxInputTokens
  {
    HalfMore(q.words);
  }

  lemma HalfMore(words: nat)
    ensures (words as real * 1.5).Floor == words * 3 / 2
  {
    var n := words * 3 / 2;
    assert n as real <= words as real * 1.5 < n as real + 1.0;
  }

  /** Which leg follows which: an error or an empty answer moves on, a parse failure of the primary asks it once more. */
  lemma NextLegExactly(q: Request, r: Reply)
    ensures NextLeg(q, VenueLeg, r) == if r.Raised? || r.Empty? then Some(PrimaryLeg) else None
    ensures TierOf(q, PrimaryLeg) != q.tiers.fallback ==>
              NextLeg(q, PrimaryLeg, r) ==
              if r.Raised? && r.error == ParseFailure then Some(RetryLeg)
              else if r.Raised? || r.Empty? then Some(FallbackLeg) else None
    ensures TierOf(q, PrimaryLeg) == q.tiers.fallback ==>
              NextLeg(q, PrimaryLeg, r) == if r.Raised? then Some(FallbackLeg) else None
    ensures NextLeg(q, RetryLeg, r) == if r.Raised? then Some(FallbackLeg) else None
    ensures NextLeg(q, FallbackLeg, r) == None
  {
  }

  /** At most four provider calls a request, three without the venue, none over budget. */
  lemma CallBound(w: World, q: Request)
    ensures var calls := Recommend(w, q).w.calls;
            Extends(calls, w.calls, if OverLimit(q) then 0 else if StartLeg(q) == VenueLeg then 4 else 3)
  {
    hide Ask, Follow, Verdict, NextLeg, Recommend;
    StackIsFlat(w, q);
    CallsOfTrail(w, q, StartLeg(q));
  }

  /** An answer or a refusal from the first leg asked is returned as it is, and nothing else is called. */
  lemma FirstReplyStands(w: World, q: Request)
    requires !OverLimit(q)
    ensures var first := Follow(w, q, StartLeg(q)).asked[0].reply;
            first.Answer? || first.Refusal? ==>
              Recommend(w, q).reply == first && |Recommend(w, q).w.calls| <= |w.calls| + 1
  {
    StackIsFlat(w, q);
    CallsOfTrail(w, q, StartLeg(q));
    VerdictOne(Follow(w, q, StartLeg(q)).asked[0]);
  }

  /** An exception escapes exactly when the budget guard fires or the last leg asked raises; then it is that exception. */
  lemma EscapesExactly(w: World, q: Request)
    ensures var asked := Follow(w, q, StartLeg(q)).asked;
            var last := asked[|asked| - 1].reply;
            && (Recommend(w, q).reply.Raised? <==> OverLimit(q) || last.Raised?)
            && (!OverLimit(q) && last.Raised? ==> Recommend(w, q).reply == last)
  {
    hide Ask, Follow, Recommend;
    StackIsFlat(w, q);
    FirstEmptyIsEmpty(Follow(w, q, StartLeg(q)).asked);
  }

  /** A refusal from any leg but the first survives exactly when no earlier leg answered empty. */
  lemma RefusalSurvivesExactly(w: World, q: Request)
    requires !OverLimit(q)
    ensures var asked := Follow(w, q, StartLeg(q)).asked;
            var last := asked[|asked| - 1].reply;
            last.Refusal? ==>
              (Recommend(w, q).reply == last <==>
                forall i :: 0 <= i < |asked| ==> !asked[i].reply.Empty?)
  {
    hide Ask, Follow, Recommend;
    StackIsFlat(w, q);
    var asked := Follow(w, q, StartLeg(q)).asked;
    FirstEmptyIsEmpty(asked);
    FirstEmptyIsThere(asked);
  }

  lemma {:induction false} FirstEmptyIsThere(asked: seq<Asked>)
    ensures FirstEmpty(asked).Some? ==> exists i :: 0 <= i < |asked| && asked[i].reply.Empty?
  {
    if asked != [] && !asked[0].reply.Empty? && FirstEmpty(asked).Some? {
      FirstEmptyIsThere(asked[1..]);
      var i :| 0 <= i < |asked[1..]| && asked[1..][i].reply.Empty?;
      assert asked[i + 1].reply.Empty?;
    }
  }

  // ---------------------------------------------------------------- what a request does to the breakers

  /**
   Asking a tier polls its breaker. If that is open, nothing else happens; otherwise the provider is invoked, other requests
   act on all breakers meanwhile, and the tier's own is told of a failure if the provider raised, of a cancellation if it
   was cancelled, and else of a success.
   */
  lemma AskExactly(w: World, t: Tier)
    ensures var polled := Run(w.breakers.Of(t), [Polled(w.clock)]);
            var n := |w.calls|;
            var answer := w.oracle(t, n);
            var end := w.clock + answer.took;
            var e := if answer.reply.Raised? then Failure(end) else if answer.reply.Cancelled? then Cancellation else Success;
            var next := Ask(w, t);
            if polled.state == OPEN then
              && next.reply == Raised(BreakerOpen) && next.w.calls == w.calls && next.w.clock == w.clock
              && next.w.breakers.Of(t) == polled
              && forall t' :: t' != t ==> next.w.breakers.Of(t') == w.breakers.Of(t')
            else
              && next.reply == answer.reply && next.w.calls == w.calls + [t] && next.w.clock == end
              && next.w.breakers.Of(t) == Run(w.breakers.Of(t), [Polled(w.clock)] + w.others(n)(t) + [e])
              && forall t' :: t' != t ==> next.w.breakers.Of(t') == Run(w.breakers.Of(t'), w.others(n)(t'))
  {
    hide Poll, OnFailure, OnSuccess;
    var b := w.breakers.Of(t);
    var n := |w.calls|;
    var end := w.clock + w.oracle(t, n).took;
    RunOne(b, Polled(w.clock));
    var others := w.others(n)(t);
    RunAppend(b, [Polled(w.clock)], others);
    var r := w.oracle(t, n).reply;
    var e := if r.Raised? then Failure(end) else if r.Cancelled? then Cancellation else Success;
    RunAppend(b, [Polled(w.clock)] + others, [e]);
    RunOne(Run(b, [Polled(w.clock)] + others), e);
  }

  /** What asking a tier does to the breaker of `t`. */
  ghost function AskEvents(w: World, asked: Tier, t: Tier): seq<Event> {
    var n := |w.calls|;
    var answer := w.oracle(asked, n);
    var end := w.clock + answer.took;
    var e := if answer.reply.Raised? then Failure(end) else if answer.reply.Cancelled? then Cancellation else Success;
    if Run(w.breakers.Of(asked), [Polled(w.clock)]).state == OPEN then if asked == t then [Polled(w.clock)] else []
    else if asked == t then [Polled(w.clock)] + w.others(n)(t) + [e]
    else w.others(n)(t)
  }

  ghost function TrailEvents(w: World, q: Request, leg: Leg, t: Tier): seq<Event>
    decreases 3 - Rank(leg)
  {
    var step := AskLeg(w, q, leg);
    var next := NextLeg(q, leg, step.reply);
    AskEvents(w, TierOf(q, leg), t) + (if next.None? then [] else TrailEvents(MoveOn(step.w, leg), q, next.value, t))
  }

  /** What a request does to the breaker of `t`. */
  ghost function RequestEvents(w: World, q: Request, t: Tier): seq<Event> {
    if OverLimit(q) then [] else TrailEvents(w, q, StartLeg(q), t)
  }

  lemma AskHistory(w: World, q: Request, leg: Leg, t: Tier)
    ensures AskLeg(w, q, leg).w.breakers.Of(t) == Run(w.breakers.Of(t), AskEvents(w, TierOf(q, leg), t))
  {
    hide Ask, TierOf;
    AskExactly(if leg == VenueLeg then w.(venueAttempts := w.venueAttempts + 1) else w, TierOf(q, leg));
  }

  lemma {:induction false} TrailHistory(w: World, q: Request, leg: Leg, t: Tier)
    ensures Follow(w, q, leg).w.breakers.Of(t) == Run(w.breakers.Of(t), TrailEvents(w, q, leg, t))
    decreases 3 - Rank(leg)
  {
    hide AskLeg, AskEvents, NextLeg, TierOf;
    var step := AskLeg(w, q, leg);
    var next := NextLeg(q, leg, step.reply);
    var events := AskEvents(w, TierOf(q, leg), t);
    AskHistory(w, q, leg, t);
    if next.None? {
      assert events + [] == events;
    } else {
      NextIsLater(q, leg, step.reply);
      var moved := MoveOn(step.w, leg);
      TrailHistory(moved, q, next.value, t);
      RunAppend(w.breakers.Of(t), events, TrailEvents(moved, q, next.value, t));
    }
  }

  lemma NextIsLater(q: Request, leg: Leg, r: Reply)
    ensures NextLeg(q, leg, r).Some? ==> Rank(NextLeg(q, leg, r).value) > Rank(leg)
  {
  }

  /** Requests one after another. */
  function Serve(w: World, qs: seq<Request>): World
    decreases |qs|
  {
    if qs == [] then w else Serve(Recommend(w, qs[0]).w, qs[1..])
  }

  ghost function ServeEvents(w: World, qs: seq<Request>, t: Tier): seq<Event>
    decreases |qs|
  {
    if qs == [] then [] else RequestEvents(w, qs[0], t) + ServeEvents(Recommend(w, qs[0]).w, qs[1..], t)
  }

  /** Each breaker has exactly the history of the replies its tier gave, and of what other requests did to it. */
  lemma {:induction false} ServeHistory(w: World, qs: seq<Request>, t: Tier)
    ensures Serve(w, qs).breakers.Of(t) == Run(w.breakers.Of(t), ServeEvents(w, qs, t))
    decreases |qs|
  {
    hide Recommend, Follow, TrailEvents;
    if qs != [] {
      var q := qs[0];
      StackIsFlat(w, q);
      TrailHistory(w, q, StartLeg(q), t);
      ServeHistory(Recommend(w, q).w, qs[1..], t);
      RunAppend(w.breakers.Of(t), RequestEvents(w, q, t), ServeEvents(Recommend(w, q).w, qs[1..], t));
    }
  }

  // ---------------------------------------------------------------- open breakers

  /** The tier's breaker has been open since `since` or later, and its timeout does not elapse by `until`. */
  predicate Shut(b: Breaker, since: real, until: real) {
    b.state == OPEN && b.openedAt >= since && until - since < b.resetTimeout
  }

  /** Other requests neither see a breaker's dependency succeed, nor poll it after `until`, nor fail it before `since`. */
  predicate Quiet(events: seq<Event>, since: real, until: real) {
    forall i :: 0 <= i < |events| ==>
      match events[i]
      case Polled(now) => now <= until
      case Failure(now) => now >= since
      case Success => false
      case Cancellation => true
  }

  lemma {:induction false} QuietKeepsShut(b: Breaker, events: seq<Event>, since: real, until: real)
    requires Shut(b, since, until) && Quiet(events, since, until)
    ensures Shut(Run(b, events), since, until)
    decreases |events|
  {
    if events != [] {
      var n := |events| - 1;
      QuietKeepsShut(b, events[..n], since, until);
      assert events[n] == events[|events| - 1];
    }
  }

  /** Time does not run backwards, and the other requests leave this tier's breaker shut. */
  ghost predicate Undisturbed(w: World, t: Tier, since: real, until: real) {
    && (forall t': Tier, n: nat :: w.oracle(t', n).took >= 0.0)
    && (forall n: nat :: Quiet(w.others(n)(t), since, until))
  }

  lemma AskWhileShut(w: World, t: Tier, asked: Tier, since: real, until: real)
    requires Shut(w.breakers.Of(t), since, until) && Undisturbed(w, t, since, until)
    ensures var v := Ask(w, asked).w;
            && v.clock >= w.clock
            && v.oracle == w.oracle && v.others == w.others
            && (w.clock <= until ==>
                  && Shut(v.breakers.Of(t), since, until)
                  && v.calls == (if asked == t || v.calls == w.calls then w.calls else w.calls + [asked]))
  {
    hide Quiet, Run;
    QuietKeepsShut(w.breakers.Of(t), w.others(|w.calls|)(t), since, until);
  }

  /** No entry of the log from `from` on is this tier. */
  ghost predicate NotCalled(calls: seq<Tier>, from: nat, t: Tier) {
    forall i :: from <= i < |calls| ==> calls[i] != t
  }

  lemma {:induction false} TrailClock(w: World, q: Request, leg: Leg)
    requires forall t: Tier, n: nat :: w.oracle(t, n).took >= 0.0
    ensures Follow(w, q, leg).w.clock >= w.clock
    decreases 3 - Rank(leg)
  {
    var step := AskLeg(w, q, leg);
    var next := NextLeg(q, leg, step.reply);
    if next.Some? {
      TrailClock(MoveOn(step.w, leg), q, next.value);
    }
  }

  lemma {:induction false} TrailWhileShut(w: World, q: Request, leg: Leg, t: Tier, since: real, until: real)
    requires Shut(w.breakers.Of(t), since, until) && Undisturbed(w, t, since, until)
    requires Follow(w, q, leg).w.clock <= until
    ensures NotCalled(Follow(w, q, leg).w.calls, |w.calls|, t)
    decreases 3 - Rank(leg)
  {
    hide Ask, Shut, TierOf, Quiet;
    var start := if leg == VenueLeg then w.(venueAttempts := w.venueAttempts + 1) else w;
    var step := AskLeg(w, q, leg);
    var next := NextLeg(q, leg, step.reply);
    AskWhileShut(start, t, TierOf(q, leg), since, until);
    AskCalls(w, q, leg);
    TrailClock(w, q, leg);
    if next.Some? {
      var moved := MoveOn(step.w, leg);
      TrailClock(moved, q, next.value);
      TrailWhileShut(moved, q, next.value, t, since, until);
      CallsOfTrail(moved, q, next.value);
      CallsJoin(w.calls, step.w.calls, Follow(moved, q, next.value).w.calls, t);
    }
  }

  lemma CallsJoin(a: seq<Tier>, b: seq<Tier>, c: seq<Tier>, t: Tier)
    requires |a| <= |b| <= |c| && c[..|b|] == b
    requires NotCalled(b, |a|, t) && NotCalled(c, |b|, t)
    ensures NotCalled(c, |a|, t)
  {
    assert forall i :: 0 <= i < |b| ==> c[i] == b[i];
  }

  /**
   Through a breaker that stays open no call is made: a tier whose breaker is open when the request starts, with its
   timeout not elapsed when the request ends, is not invoked by the whole stack, whatever the other tiers do. Other
   requests may poll and fail that breaker meanwhile; a success of theirs would close it.
   */
  lemma NoCallThroughOpenBreaker(w: World, q: Request, t: Tier)
    requires w.breakers.Of(t).state == OPEN
    requires var since, until := w.breakers.Of(t).openedAt, Recommend(w, q).w.clock;
             until - since < w.breakers.Of(t).resetTimeout && Undisturbed(w, t, since, until)
    ensures NotCalled(Recommend(w, q).w.calls, |w.calls|, t)
  {
    hide Follow, Recommend;
    StackIsFlat(w, q);
    if !OverLimit(q) {
      TrailWhileShut(w, q, StartLeg(q), t, w.breakers.Of(t).openedAt, Recommend(w, q).w.clock);
    }
  }

  /**
   So a tier that keeps raising is left alone: after any requests in which it failed `fail_max` times or more since its last
   success, most recently at `at`, no further request that ends within the timeout invokes it.
   */
  lemma FailingTierLeftAlone(
    start: World, qs: seq<Request>, q: Request, t: Tier, failMax: int, reset: real, history: seq<Event>, at: real,
    since: seq<Event>)
    requires start.breakers.Of(t) == New(failMax, reset)
    requires ServeEvents(start, qs, t) == history + [Failure(at)] + since
    requires FailuresSinceSuccess(history + [Failure(at)]) >= failMax
    requires var w := Serve(start, qs);
             var until := Recommend(w, q).w.clock;
             until - at < reset && Quiet(since, at, until) && Undisturbed(w, t, at, until)
    ensures NotCalled(Recommend(Serve(start, qs), q).w.calls, |Serve(start, qs).calls|, t)
  {
    hide Recommend, Follow, ServeEvents, Serve, Quiet, FailuresSinceSuccess;
    var w := Serve(start, qs);
    var until := Recommend(w, q).w.clock;
    ServeHistory(start, qs, t);
    FailureOpens(failMax, reset, history, at);
    RunAppend(New(failMax, reset), history + [Failure(at)], since);
    QuietKeepsShut(Run(New(failMax, reset), history + [Failure(at)]), since, at, until);
    StackIsFlat(w, q);
    if !OverLimit(q) {
      TrailWhileShut(w, q, StartLeg(q), t, at, until);
    }
  }

  function Failures(events: seq<Event>): nat {
    if events == [] then 0
    else Failures(events[..|events| - 1]) + (if events[|events| - 1].Failure? then 1 else 0)
  }

  /** Failures with no success among them all count, whatever polls and cancellations stand between. */
  lemma {:induction false} FailuresCount(older: seq<Event>, recent: seq<Event>)
    requires forall i :: 0 <= i < |recent| ==> recent[i] != Success
    ensures FailuresSinceSuccess(older + recent) >= Failures(recent)
    decreases |recent|
  {
    if recent != [] {
      var n := |recent| - 1;
      assert (older + recent)[..|older| + n] == older + recent[..n];
      FailuresCount(older, recent[..n]);
    }
  }

  lemma {:induction false} AllShutTrail(w: World, q: Request, leg: Leg)
    requires forall t: Tier :: Shut(w.breakers.Of(t), w.breakers.Of(t).openedAt, w.clock)
    ensures var t := Follow(w, q, leg);
            t.w.calls == w.calls && t.asked[|t.asked| - 1].reply == Raised(BreakerOpen)
    decreases 3 - Rank(leg)
  {
    var tier := TierOf(q, leg);
    assert Shut(w.breakers.Of(tier), w.breakers.Of(tier).openedAt, w.clock);
    var step := AskLeg(w, q, leg);
    assert w.breakers.With(tier, w.breakers.Of(tier)) == w.breakers;
    assert step.reply == Raised(BreakerOpen) && step.w.breakers == w.breakers && step.w.clock == w.clock;
    var next := NextLeg(q, leg, step.reply);
    if next.Some? {
      AllShutTrail(MoveOn(step.w, leg), q, next.value);
    }
  }

  /** With every breaker open, no call is made at all and the request ends at once in the breaker's error. */
  lemma NoCallWithAllOpen(w: World, q: Request)
    requires !OverLimit(q) && forall t: Tier :: Shut(w.breakers.Of(t), w.breakers.Of(t).openedAt, w.clock)
    ensures Recommend(w, q).w.calls == w.calls && Recommend(w, q).reply == Raised(BreakerOpen)
  {
    hide Follow, Recommend;
    StackIsFlat(w, q);
    AllShutTrail(w, q, StartLeg(q));
  }

  /** The venue's counters stay in step: a fall-through is always an attempt. */
  lemma {:induction false} VenueCounters(w: World, q: Request, leg: Leg)
    ensures var t := Follow(w, q, leg);
            && t.w.venueAttempts == w.venueAttempts + (if leg == VenueLeg then 1 else 0)
            && t.w.venueFallbacks == w.venueFallbacks + (if leg == VenueLeg && |t.asked| > 1 then 1 else 0)
    decreases 3 - Rank(leg)
  {
    hide AskLeg, TierOf;
    var step := AskLeg(w, q, leg);
    AskCalls(w, q, leg);
    var next := NextLeg(q, leg, step.reply);
    if next.Some? {
      VenueCounters(MoveOn(step.w, leg), q, next.value);
    }
  }
}
