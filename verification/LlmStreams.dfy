/** The streaming paths of `llm_client.py`, `venue.py` and `service.py`: which model's tokens a reader sees. */
module LlmStreams {
  import opened LlmStack

  /** A stream ends normally, raises, is cancelled, or is closed because its reader went away. */
  datatype Ending = Exhausted | Broke | Stopped | Closed

  datatype Stream = Stream(tokens: seq<string>, end: Ending)

  /** What the n-th stream opened for a request delivers, given the tier it was opened on. */
  type Provider = (Tier, nat) -> Stream

  /** A leg that raises before its first token. */
  predicate Silent(s: Stream) {
    s.tokens == [] && s.end == Broke
  }

  /** What a reader that takes at most `room` items sees of a stream. */
  function Cut(s: Stream, room: nat): Stream {
    if |s.tokens| < room then s else Stream(s.tokens[..room], Closed)
  }

  datatype Opened = Opened(stream: Stream, tiers: seq<Tier>)

  // ---------------------------------------------------------------- the nested generators

  function TieredStream(p: Provider, n: nat, q: Request): Opened {
    var primary := p(Primary(q), n);
    if Silent(primary) then Opened(p(q.tiers.fallback, n + 1), [Primary(q), q.tiers.fallback])
    else Opened(primary, [Primary(q)])
  }

  function VenueStream(p: Provider, q: Request): Opened {
    if !ShouldUseVenue(q) then TieredStream(p, 0, q)
    else
      var venue := p(Venue, 0);
      if Silent(venue) then
        var hosted := TieredStream(p, 1, q);
        Opened(hosted.stream, [Venue] + hosted.tiers)
      else Opened(venue, [Venue])
  }

  function BudgetStream(p: Provider, q: Request): Opened {
    if OverLimit(q) then Opened(Stream([], Broke), [])
    else if q.venueEnabled then VenueStream(p, q)
    else TieredStream(p, 0, q)
  }

  /** Re-yield up to `room` tokens of an inner stream. */
  method Relay(inner: Stream, room: nat) returns (out: Stream)
    ensures out == Cut(inner, room)
  {
    var sent: seq<string> := [];
    while |sent| < room && |sent| < |inner.tokens|
      invariant |sent| <= room && |sent| <= |inner.tokens|
      invariant sent == inner.tokens[..|sent|]
      decreases |inner.tokens| - |sent|
    {
      sent := sent + [inner.tokens[|sent|]];
    }
    out := Stream(sent, if |sent| == room then Closed else inner.end);
  }

  /** `TieredLLMClient.astream`: fall back only while nothing has been yielded. A reader asks for one item at least. */
  method TieredAstream(p: Provider, n: nat, q: Request, room: nat) returns (out: Stream, tiers: seq<Tier>)
    requires room >= 1
    ensures var spec := TieredStream(p, n, q); out == Cut(spec.stream, room) && tiers == spec.tiers
  {
    var primary := p(Primary(q), n);
    tiers := [Primary(q)];
    if primary.tokens == [] {
      if primary.end == Broke {
        tiers := tiers + [q.tiers.fallback];
        out := Relay(p(q.tiers.fallback, n + 1), room);
      } else {
        out := Stream([], primary.end);
      }
      return;
    }
    var first := primary.tokens[0];
    var rest := Relay(Stream(primary.tokens[1..], primary.end), room - 1);
    out := Stream([first] + rest.tokens, rest.end);
  }

  /** `VenueRoutedClient.astream`. */
  method VenueAstream(p: Provider, q: Request, room: nat) returns (out: Stream, tiers: seq<Tier>)
    requires room >= 1
    ensures var spec := VenueStream(p, q); out == Cut(spec.stream, room) && tiers == spec.tiers
  {
    if !ShouldUseVenue(q) {
      out, tiers := TieredAstream(p, 0, q, room);
      return;
    }
    var venue := p(Venue, 0);
    tiers := [Venue];
    if venue.tokens == [] {
      if venue.end == Broke {
        var hosted;
        out, hosted := TieredAstream(p, 1, q, room);
        tiers := tiers + hosted;
      } else {
        out := Stream([], venue.end);
      }
      return;
    }
    var rest := Relay(Stream(venue.tokens[1..], venue.end), room - 1);
    out := Stream([venue.tokens[0]] + rest.tokens, rest.end);
  }

  /** What the reader of `RecommendationService.astream` receives once the model is asked. */
  datatype Seen = Seen(text: seq<string>, notices: nat, end: Ending)

  function Received(s: Stream, room: nat): Seen {
    var cut := Cut(s, room);
    if cut.end == Broke then Seen(cut.tokens, 1, Exhausted) else Seen(cut.tokens, 0, cut.end)
  }

  /** The last part of `RecommendationService.astream`: pass on the model's tokens, and add a notice if it raises. */
  method WithNotice(model: Stream, room: nat) returns (seen: Seen)
    ensures seen == Received(model, room)
  {
    var out := Relay(model, room);
    seen := Seen(out.tokens, 0, out.end);
    if out.end == Broke {
      seen := Seen(out.tokens, 1, Exhausted);
    }
  }

  /** That part over the whole stack of clients. */
  method ServiceAstream(p: Provider, q: Request, room: nat) returns (seen: Seen, tiers: seq<Tier>)
    requires room >= 1
    ensures tiers == BudgetStream(p, q).tiers
    ensures seen == Received(BudgetStream(p, q).stream, room)
  {
    var out;
    if OverLimit(q) {
      out, tiers := Stream([], Broke), [];
    } else if q.venueEnabled {
      out, tiers := VenueAstream(p, q, room);
    } else {
      out, tiers := TieredAstream(p, 0, q, room);
    }
    seen := WithNotice(out, room);
  }

  // ---------------------------------------------------------------- the flat policy

  /** The legs in the order they may be opened. */
  function Order(q: Request): (legs: seq<Tier>)
    ensures |legs| >= 2
  {
    (if StartLeg(q) == VenueLeg then [Venue] else []) + [Primary(q), q.tiers.fallback]
  }

  /** Open legs in order until one does not fail before its first token; the last one stands whatever it does. */
  function OpenInOrder(p: Provider, legs: seq<Tier>, n: nat): Opened
    requires legs != []
  {
    var s := p(legs[0], n);
    if Silent(s) && |legs| > 1 then
      var rest := OpenInOrder(p, legs[1..], n + 1);
      Opened(rest.stream, [legs[0]] + rest.tiers)
    else Opened(s, [legs[0]])
  }

  /** The nested generators amount to opening the legs in order. */
  lemma StreamsAreFlat(p: Provider, q: Request)
    ensures BudgetStream(p, q) == if OverLimit(q) then Opened(Stream([], Broke), []) else OpenInOrder(p, Order(q), 0)
  {
    hide OpenInOrder;
    if !OverLimit(q) {
      var hosted := [Primary(q), q.tiers.fallback];
      if StartLeg(q) == VenueLeg {
        OpenNext(p, Order(q), 0);
        assert Order(q)[1..] == hosted;
        OpenHosted(p, q, 1);
      } else {
        assert Order(q) == hosted;
        OpenHosted(p, q, 0);
      }
    }
  }

  lemma OpenNext(p: Provider, legs: seq<Tier>, n: nat)
    requires |legs| > 1
    ensures var s := p(legs[0], n);
            OpenInOrder(p, legs, n) ==
            if Silent(s)
            then Opened(OpenInOrder(p, legs[1..], n + 1).stream, [legs[0]] + OpenInOrder(p, legs[1..], n + 1).tiers)
            else Opened(s, [legs[0]])
  {
  }

  lemma OpenHosted(p: Provider, q: Request, n: nat)
    ensures OpenInOrder(p, [Primary(q), q.tiers.fallback], n) == TieredStream(p, n, q)
  {
    var legs := [Primary(q), q.tiers.fallback];
    OpenNext(p, legs, n);
    assert legs[1..] == [q.tiers.fallback];
    assert [Primary(q)] + [q.tiers.fallback] == [Primary(q), q.tiers.fallback];
  }

  /** Of the legs opened, all but the last were silent, and the last one's stream is the one that is passed on. */
  ghost predicate OneVoice(p: Provider, o: Opened, n: nat) {
    && o.tiers != []
    && (forall i: nat :: i < |o.tiers| - 1 ==> Silent(p(o.tiers[i], n + i)))
    && o.stream == p(o.tiers[|o.tiers| - 1], n + |o.tiers| - 1)
  }

  lemma {:induction false} OneVoiceInOrder(p: Provider, legs: seq<Tier>, n: nat)
    requires legs != []
    ensures var o := OpenInOrder(p, legs, n);
            && OneVoice(p, o, n)
            && o.tiers <= legs
            && (|o.tiers| < |legs| ==> !Silent(o.stream))
  {
    hide OneVoice;
    if |legs| > 1 && Silent(p(legs[0], n)) {
      OneVoiceInOrder(p, legs[1..], n + 1);
      HeardAfter(p, OpenInOrder(p, legs[1..], n + 1), legs[0], n);
    } else {
      HeardFirst(p, legs[0], n);
    }
  }

  lemma HeardFirst(p: Provider, leg: Tier, n: nat)
    ensures OneVoice(p, Opened(p(leg, n), [leg]), n)
  {
  }

  lemma HeardAfter(p: Provider, rest: Opened, leg: Tier, n: nat)
    requires Silent(p(leg, n)) && OneVoice(p, rest, n + 1)
    ensures OneVoice(p, Opened(rest.stream, [leg] + rest.tiers), n)
  {
    var tiers := [leg] + rest.tiers;
    forall i: nat | i < |tiers| - 1
      ensures Silent(p(tiers[i], n + i))
    {
      if i > 0 {
        assert Silent(p(rest.tiers[i - 1], n + 1 + (i - 1)));
      }
    }
  }

  /**
   What a reader sees never splices two models. The text is a prefix of one leg's stream, the last leg opened, and every
   earlier leg yielded nothing; it is all of it unless the reader left. A notice follows exactly when that leg raised,
   or no leg could be opened, with the reader still there.
   */
  lemma NeverSplices(p: Provider, q: Request, room: nat, seen: Seen, tiers: seq<Tier>)
    requires room >= 1
    requires seen == Received(BudgetStream(p, q).stream, room) && tiers == BudgetStream(p, q).tiers
    ensures |tiers| <= 3 && tiers <= Order(q)
    ensures tiers == [] <==> OverLimit(q)
    ensures tiers == [] ==> seen == Seen([], 1, Exhausted)
    ensures forall i :: 0 <= i < |tiers| - 1 ==> Silent(p(tiers[i], i))
    ensures tiers != [] ==>
              var voice := p(tiers[|tiers| - 1], |tiers| - 1);
              && seen.text <= voice.tokens
              && (|voice.tokens| < room ==> seen.text == voice.tokens)
              && (room <= |voice.tokens| ==> |seen.text| == room && seen.notices == 0 && seen.end == Closed)
              && (seen.notices == 1 <==> voice.end == Broke && |voice.tokens| < room)
              && (voice.end == Exhausted && |voice.tokens| < room ==> seen.end == Exhausted && seen.notices == 0)
              && (voice.end == Stopped && |voice.tokens| < room ==> seen.end == Stopped)
    ensures seen.notices <= 1
  {
    StreamsAreFlat(p, q);
    if !OverLimit(q) {
      OneVoiceInOrder(p, Order(q), 0);
    }
  }
}
