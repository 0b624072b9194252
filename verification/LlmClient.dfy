/** The client that `build_default_llm_client` builds, as the objects that hold its state: breakers, counters, clock. */
module LlmClient {
  import opened Wrappers
  import opened CircuitBreaker
  import opened LlmStack

  class Client {
    const venue: AsyncCircuitBreaker
    const groqDefault: AsyncCircuitBreaker
    const groqEscalation: AsyncCircuitBreaker
    const openAI: AsyncCircuitBreaker
    const oracle: (Tier, nat) -> Timed
    const others: nat -> Tier -> seq<Event>
    var calls: seq<Tier>
    var clock: real
    var venueAttempts: nat
    var venueFallbacks: nat

    /** One breaker a tier, each with the default settings. */
    constructor (oracle: (Tier, nat) -> Timed, others: nat -> Tier -> seq<Event>, clock: real)
      ensures Valid() && fresh(Objects())
      ensures this.oracle == oracle && this.others == others && this.clock == clock && calls == [] && venueAttempts == venueFallbacks == 0
      ensures forall t: Tier :: BreakerFor(t).Value() == New(5, 30.0)
    {
      venue := new AsyncCircuitBreaker(5, 30.0);
      groqDefault := new AsyncCircuitBreaker(5, 30.0);
      groqEscalation := new AsyncCircuitBreaker(5, 30.0);
      openAI := new AsyncCircuitBreaker(5, 30.0);
      this.oracle, this.others, this.clock := oracle, others, clock;
      calls, venueAttempts, venueFallbacks := [], 0, 0;
    }

    ghost function Objects(): set<AsyncCircuitBreaker> {
      {venue, groqDefault, groqEscalation, openAI}
    }

    ghost predicate Valid() {
      && venue != groqDefault && venue != groqEscalation && venue != openAI
      && groqDefault != groqEscalation && groqDefault != openAI && groqEscalation != openAI
    }

    function BreakerFor(t: Tier): AsyncCircuitBreaker {
      match t
      case Venue => venue
      case GroqDefault => groqDefault
      case GroqEscalation => groqEscalation
      case OpenAI => openAI
    }

    ghost function Values(): Breakers
      reads Objects()
    {
      Breakers(venue.Value(), groqDefault.Value(), groqEscalation.Value(), openAI.Value())
    }

    ghost function Snapshot(): World
      reads this, Objects()
    {
      World(oracle, others, calls, Values(), clock, venueAttempts, venueFallbacks)
    }

    /** What other requests do to the breakers while this one awaits a provider. */
    method Meanwhile(n: nat)
      requires Valid()
      modifies Objects()
      ensures Values() == old(Values()).Overlapped(others(n))
    {
      venue.Overlap(others(n)(Venue));
      groqDefault.Overlap(others(n)(GroqDefault));
      groqEscalation.Overlap(others(n)(GroqEscalation));
      openAI.Overlap(others(n)(OpenAI));
    }

    /** A breaker of the client told how its call ended. */
    method Settle(t: Tier, r: Reply)
      requires Valid()
      modifies Objects()
      ensures Values() == old(Values()).With(t, Settled(old(Values()).Of(t), r, clock))
    {
      var breaker := BreakerFor(t);
      match r {
        case Raised(_) => breaker.Failed(clock);
        case Cancelled =>
        case Answer(_) => breaker.Succeeded();
        case Empty(_) => breaker.Succeeded();
        case Refusal(_) => breaker.Succeeded();
      }
    }

    /** A breaker's state as a caller sees it. */
    method Look(t: Tier) returns (s: CircuitState)
      requires Valid()
      modifies Objects()
      ensures var polled := Poll(old(Values()).Of(t), clock);
              s == polled.state && Values() == old(Values()).With(t, polled)
    {
      s := BreakerFor(t).State(clock);
    }

    /** `ResilientLLMClient.recommend` of one tier: `guarded`, with other requests at work on the same breakers. */
    method Guarded(t: Tier) returns (r: Reply)
      requires Valid()
      modifies this, Objects()
      ensures Step(r, Snapshot()) == Ask(old(Snapshot()), t)
    {
      hide Poll, Settled, Values;
      var s := Look(t);
      if s == OPEN {
        return Raised(BreakerOpen);
      }
      var n := |calls|;
      var timed := oracle(t, n);
      calls := calls + [t];
      Meanwhile(n);
      clock := clock + timed.took;
      Settle(t, timed.reply);
      r := timed.reply;
    }

    /** `TieredLLMClient.recommend`. */
    method TieredRecommend(q: Request) returns (r: Reply)
      requires Valid()
      modifies this, Objects()
      ensures Step(r, Snapshot()) == Tiered(old(Snapshot()), q)
    {
      hide Ask;
      var primary, fallback := Primary(q), q.tiers.fallback;
      var result := Guarded(primary);
      match result {
        case Cancelled => return result;
        case Raised(error) =>
          if error == ParseFailure && primary != fallback {
            var retry := Guarded(primary);
            if !retry.Raised? {
              return retry;
            }
          }
          r := Guarded(fallback);
          return;
        case Refusal(_) => return result;
        case Answer(_) => return result;
        case Empty(_) =>
          if primary != fallback {
            var second := Guarded(fallback);
            return if NoItems(second) then result else second;
          }
          return result;
      }
    }

    /** `VenueRoutedClient.recommend`. */
    method VenueRecommend(q: Request) returns (r: Reply)
      requires Valid()
      modifies this, Objects()
      ensures Step(r, Snapshot()) == VenueRouted(old(Snapshot()), q)
    {
      hide Ask, Tiered;
      if !ShouldUseVenue(q) {
        r := TieredRecommend(q);
        return;
      }
      venueAttempts := venueAttempts + 1;
      var result := Guarded(Venue);
      match result {
        case Cancelled => return result;
        case Raised(_) =>
          venueFallbacks := venueFallbacks + 1;
          r := TieredRecommend(q);
          return;
        case Refusal(_) => return result;
        case Answer(_) => return result;
        case Empty(_) =>
          venueFallbacks := venueFallbacks + 1;
          var hosted := TieredRecommend(q);
          return if NoItems(hosted) then result else hosted;
      }
    }

    /** `BudgetedLLMClient.recommend`, over the venue when it is enabled. */
    method BudgetedRecommend(q: Request) returns (r: Reply)
      requires Valid()
      modifies this, Objects()
      ensures Step(r, Snapshot()) == Recommend(old(Snapshot()), q)
    {
      hide Tiered, VenueRouted;
      if EstimatedTokens(q.words) > q.maxInputTokens {
        return Raised(OverBudget);
      }
      if q.venueEnabled {
        r := VenueRecommend(q);
      } else {
        r := TieredRecommend(q);
      }
    }
  }
}
