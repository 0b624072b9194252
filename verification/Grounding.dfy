/** Grounding of the model's answer in the retrieved candidates, from `service.py`. */
module Grounding {
  import opened Wrappers
  import opened AsciiText
  import opened Schemas
  import Chunker
  import Fusion

  type Candidate = Fusion.Candidate

  function Anime(c: Candidate): int {
    c.key.0
  }

  function Ids(cs: seq<Candidate>): set<int> {
    set i | 0 <= i < |cs| :: Anime(cs[i])
  }

  function FirstLine(text: string): string {
    if text == "" || text[0] == '\n' then "" else [text[0]] + FirstLine(text[1..])
  }

  /** `_candidate_title`, in lower case. */
  function TitleOf(c: Candidate): string {
    var line := FirstLine(c.text);
    if "Title: " <= line then Lower(Strip(line[7..])) else ""
  }

  predicate Contains(hay: string, needle: string) {
    exists i :: 0 <= i <= |hay| && needle <= hay[i..]
  }

  predicate Similar(needle: string, title: string) {
    Contains(title, needle) || Contains(needle, title)
  }

  /** Similar means that one is part of the other: with something before it and something after it. */
  lemma SimilarExactly(needle: string, title: string)
    ensures Similar(needle, title) <==>
            (exists a, b :: PartOf(title, a, needle, b)) || (exists a, b :: PartOf(needle, a, title, b))
  {
    ContainsExactly(title, needle);
    ContainsExactly(needle, title);
  }

  ghost predicate PartOf(whole: string, before: string, part: string, rest: string) {
    whole == before + part + rest
  }

  lemma ContainsExactly(hay: string, needle: string)
    ensures Contains(hay, needle) <==> exists a, b :: PartOf(hay, a, needle, b)
  {
    if Contains(hay, needle) {
      var i :| 0 <= i <= |hay| && needle <= hay[i..];
      assert PartOf(hay, hay[..i], needle, hay[i..][|needle|..]);
    }
    forall a, b | PartOf(hay, a, needle, b)
      ensures Contains(hay, needle)
    {
      assert hay[|a|..] == needle + b;
    }
  }

  // ---------------------------------------------------------------- what a title is matched to

  /** The anime of the last candidate with this title. */
  function LastTitled(cs: seq<Candidate>, title: string): Option<int> {
    if cs == [] then None
    else if TitleOf(cs[|cs| - 1]) == title then Some(Anime(cs[|cs| - 1]))
    else LastTitled(cs[..|cs| - 1], title)
  }

  /** The title of the first candidate whose title contains the needle, or is contained in it. */
  function FirstSimilar(cs: seq<Candidate>, needle: string): Option<string> {
    if cs == [] then None
    else
      var before := FirstSimilar(cs[..|cs| - 1], needle);
      var title := TitleOf(cs[|cs| - 1]);
      if before.Some? then before
      else if title != "" && Similar(needle, title) then Some(title)
      else None
  }

  /** An exact title first, else the first similar one; either way the last candidate that bears it. */
  function Matched(cs: seq<Candidate>, title: string): Option<int> {
    var needle := Lower(Strip(title));
    if needle == "" then None
    else if LastTitled(cs, needle).Some? then LastTitled(cs, needle)
    else
      match FirstSimilar(cs, needle)
      case None => None
      case Some(similar) => LastTitled(cs, similar)
  }

  /** A recommendation with a retrieved id is kept, one with a matching title gets that id, and any other is dropped. */
  function GroundOne(r: Recommendation, cs: seq<Candidate>): Option<Recommendation> {
    if r.malId in Ids(cs) then Some(r)
    else
      match Matched(cs, r.title)
      case None => None
      case Some(id) => Some(r.(malId := id))
  }

  function Kept(items: seq<Recommendation>, cs: seq<Candidate>): seq<Recommendation> {
    if items == [] then []
    else
      var front := Kept(items[..|items| - 1], cs);
      var last := GroundOne(items[|items| - 1], cs);
      if last.Some? then front + [last.value] else front
  }

  function Ground(recs: Recommendations, cs: seq<Candidate>): Recommendations {
    Validated(Kept(recs.items, cs), None)
  }

  /** The last candidate with this title. */
  ghost predicate IsLast(cs: seq<Candidate>, title: string, j: nat) {
    j < |cs| && TitleOf(cs[j]) == title && forall k :: j < k < |cs| ==> TitleOf(cs[k]) != title
  }

  ghost predicate Like(c: Candidate, needle: string) {
    TitleOf(c) != "" && Similar(needle, TitleOf(c))
  }

  /** The first candidate with a title like this. */
  ghost predicate IsFirstLike(cs: seq<Candidate>, needle: string, i: nat) {
    i < |cs| && Like(cs[i], needle) && forall k :: 0 <= k < i ==> !Like(cs[k], needle)
  }

  lemma {:induction false} LastTitledExactly(cs: seq<Candidate>, title: string, j: nat)
    ensures IsLast(cs, title, j) ==> LastTitled(cs, title) == Some(Anime(cs[j]))
    ensures (forall k :: 0 <= k < |cs| ==> TitleOf(cs[k]) != title) ==> LastTitled(cs, title).None?
  {
    hide TitleOf;
    if cs != [] {
      LastTitledExactly(cs[..|cs| - 1], title, j);
    }
  }

  lemma {:induction false} FirstSimilarExactly(cs: seq<Candidate>, needle: string, i: nat)
    ensures IsFirstLike(cs, needle, i) ==> FirstSimilar(cs, needle) == Some(TitleOf(cs[i]))
    ensures (forall k :: 0 <= k < |cs| ==> !Like(cs[k], needle)) ==> FirstSimilar(cs, needle).None?
  {
    hide TitleOf, Similar;
    if cs != [] {
      FirstSimilarExactly(cs[..|cs| - 1], needle, i);
    }
  }

  /**
   A title is matched to the last candidate that bears it; if none does, to the last bearer of the title of the first
   candidate whose title is like it; and to nothing if it is blank or nothing is like it.
   */
  lemma MatchedExactly(cs: seq<Candidate>, title: string, i: nat, j: nat)
    ensures var needle := Lower(Strip(title));
            && (needle == "" ==> Matched(cs, title).None?)
            && (needle != "" && IsLast(cs, needle, j) ==> Matched(cs, title) == Some(Anime(cs[j])))
            && (needle != "" && (forall k :: 0 <= k < |cs| ==> TitleOf(cs[k]) != needle) ==>
                  && (IsFirstLike(cs, needle, i) && IsLast(cs, TitleOf(cs[i]), j) ==>
                        Matched(cs, title) == Some(Anime(cs[j])))
                  && ((forall k :: 0 <= k < |cs| ==> !Like(cs[k], needle)) ==> Matched(cs, title).None?))
  {
    hide TitleOf, Similar, LastTitled, FirstSimilar, Lower, Strip;
    var needle := Lower(Strip(title));
    LastTitledExactly(cs, needle, j);
    FirstSimilarExactly(cs, needle, i);
    if i < |cs| {
      LastTitledExactly(cs, TitleOf(cs[i]), j);
    }
  }

  // ---------------------------------------------------------------- the title dictionary

  /** `title_to_id`: a dict keeps the place of a key's first insertion and the value of its last. */
  datatype TitleIndex = TitleIndex(order: seq<string>, ids: map<string, int>)

  function Titles(cs: seq<Candidate>): seq<string> {
    if cs == [] then []
    else
      var front, title := Titles(cs[..|cs| - 1]), TitleOf(cs[|cs| - 1]);
      if title == "" || title in front then front else front + [title]
  }

  ghost predicate Indexes(index: TitleIndex, cs: seq<Candidate>) {
    && index.order == Titles(cs)
    && (forall t :: t in index.ids <==> t in index.order)
    && (forall t :: t in index.ids <==> t != "" && LastTitled(cs, t).Some?)
    && (forall t :: t in index.ids ==> LastTitled(cs, t) == Some(index.ids[t]))
  }

  function Entered(index: TitleIndex, title: string, id: int): TitleIndex {
    if title == "" then index
    else TitleIndex(if title in index.ids then index.order else index.order + [title], index.ids[title := id])
  }

  lemma IndexStep(index: TitleIndex, cs: seq<Candidate>, c: Candidate)
    requires Indexes(index, cs)
    ensures Indexes(Entered(index, TitleOf(c), Anime(c)), cs + [c])
  {
    hide TitleOf, Titles, LastTitled, Anime;
    Lengthened(cs, c);
    var title := TitleOf(c);
    var next := Entered(index, title, Anime(c));
    assert forall t :: t in next.order <==> t in index.order || (t == title && title != "");
  }

  lemma Lengthened(cs: seq<Candidate>, c: Candidate)
    ensures var title := TitleOf(c);
            Titles(cs + [c]) == if title == "" || title in Titles(cs) then Titles(cs) else Titles(cs) + [title]
    ensures forall t :: LastTitled(cs + [c], t) == if TitleOf(c) == t then Some(Anime(c)) else LastTitled(cs, t)
  {
    hide TitleOf;
    var more := cs + [c];
    assert more[..|more| - 1] == cs && more[|more| - 1] == c;
  }

  method BuildIndex(cs: seq<Candidate>) returns (index: TitleIndex)
    ensures Indexes(index, cs)
  {
    hide TitleOf, Indexes;
    index := TitleIndex([], map[]);
    IndexNothing();
    for i := 0 to |cs|
      invariant Indexes(index, cs[..i])
    {
      assert cs[..i + 1] == cs[..i] + [cs[i]];
      IndexStep(index, cs[..i], cs[i]);
      index := Entered(index, TitleOf(cs[i]), Anime(cs[i]));
    }
    assert cs[..|cs|] == cs;
  }

  lemma IndexNothing()
    ensures Indexes(TitleIndex([], map[]), [])
  {
  }

  /** The first similar key in the dict's order. */
  function FirstKey(order: seq<string>, needle: string): Option<string> {
    if order == [] then None
    else
      var before := FirstKey(order[..|order| - 1], needle);
      if before.Some? then before
      else if Similar(needle, order[|order| - 1]) then Some(order[|order| - 1])
      else None
  }

  lemma {:induction false} FirstKeyNone(order: seq<string>, needle: string, title: string)
    requires FirstKey(order, needle).None? && title in order
    ensures !Similar(needle, title)
  {
    if title != order[|order| - 1] {
      assert title in order[..|order| - 1];
      FirstKeyNone(order[..|order| - 1], needle, title);
    }
  }

  /** Going through the dict's keys finds the title of the first similar candidate. */
  lemma {:induction false} FirstKeyIsFirstSimilar(cs: seq<Candidate>, needle: string)
    ensures FirstKey(Titles(cs), needle) == FirstSimilar(cs, needle)
  {
    hide TitleOf, Similar;
    if cs != [] {
      var front, title := cs[..|cs| - 1], TitleOf(cs[|cs| - 1]);
      FirstKeyIsFirstSimilar(front, needle);
      if title != "" {
        if title in Titles(front) {
          if FirstKey(Titles(front), needle).None? {
            FirstKeyNone(Titles(front), needle, title);
          }
        } else {
          assert (Titles(front) + [title])[..|Titles(front)|] == Titles(front);
        }
      }
    }
  }

  lemma {:induction false} FirstSimilarIsTitle(cs: seq<Candidate>, needle: string)
    requires FirstSimilar(cs, needle).Some?
    ensures var title := FirstSimilar(cs, needle).value;
            title != "" && Similar(needle, title) && LastTitled(cs, title).Some?
  {
    hide TitleOf, Similar;
    var front := cs[..|cs| - 1];
    if FirstSimilar(front, needle).Some? {
      FirstSimilarIsTitle(front, needle);
    }
  }

  /** `_match_title`. */
  method MatchTitle(title: string, index: TitleIndex, ghost cs: seq<Candidate>) returns (r: Option<int>)
    requires Indexes(index, cs)
    ensures r == Matched(cs, title)
  {
    hide TitleOf, Similar, LastTitled, FirstSimilar;
    var needle := Lower(Strip(title));
    if needle == "" {
      return None;
    }
    if needle in index.ids {
      return Some(index.ids[needle]);
    }
    FirstKeyIsFirstSimilar(cs, needle);
    for i := 0 to |index.order|
      invariant FirstKey(index.order[..i], needle) == None
    {
      var candidate := index.order[i];
      assert index.order[..i + 1][..i] == index.order[..i];
      if Similar(needle, candidate) {
        FirstKeyStays(index.order, i + 1, needle);
        FirstSimilarIsTitle(cs, needle);
        assert candidate in index.order;
        return Some(index.ids[candidate]);
      }
    }
    assert index.order[..|index.order|] == index.order;
    return None;
  }

  lemma {:induction false} FirstKeyStays(order: seq<string>, i: nat, needle: string)
    requires i <= |order| && FirstKey(order[..i], needle).Some?
    ensures FirstKey(order, needle) == FirstKey(order[..i], needle)
  {
    if i < |order| {
      assert order[..|order| - 1][..i] == order[..i];
      FirstKeyStays(order[..|order| - 1], i, needle);
    } else {
      assert order[..i] == order;
    }
  }

  /** `ground_recommendations`. */
  method GroundRecommendations(recs: Recommendations, cs: seq<Candidate>) returns (out: Recommendations)
    ensures out == Ground(recs, cs)
  {
    hide Matched, Indexes, Ids;
    var validIds := Ids(cs);
    var index := BuildIndex(cs);
    var grounded := [];
    for i := 0 to |recs.items|
      invariant grounded == Kept(recs.items[..i], cs)
    {
      var r := recs.items[i];
      assert recs.items[..i + 1][..i] == recs.items[..i];
      if r.malId in validIds {
        grounded := grounded + [r];
      } else {
        var canonical := MatchTitle(r.title, index, cs);
        if canonical.Some? {
          grounded := grounded + [r.(malId := canonical.value)];
        }
      }
    }
    assert recs.items[..|recs.items|] == recs.items;
    out := Validated(grounded, None);
  }

  // ---------------------------------------------------------------- what grounding guarantees

  lemma {:induction false} LastTitledInSet(cs: seq<Candidate>, title: string)
    requires LastTitled(cs, title).Some?
    ensures LastTitled(cs, title).value in Ids(cs)
  {
    hide TitleOf;
    var front := cs[..|cs| - 1];
    if TitleOf(cs[|cs| - 1]) != title {
      LastTitledInSet(front, title);
      assert Ids(front) <= Ids(cs) by {
        assert forall i :: 0 <= i < |front| ==> front[i] == cs[i];
      }
    } else {
      assert Anime(cs[|cs| - 1]) in Ids(cs);
    }
  }

  /** Grounding one item keeps everything but the id, and the id only if it was retrieved; the new id is a retrieved one. */
  lemma GroundOneExactly(r: Recommendation, cs: seq<Candidate>)
    ensures GroundOne(r, cs).Some? <==> r.malId in Ids(cs) || Matched(cs, r.title).Some?
    ensures GroundOne(r, cs).Some? ==>
              var g := GroundOne(r, cs).value;
              g.malId in Ids(cs) && g.(malId := r.malId) == r && (r.malId in Ids(cs) ==> g == r)
  {
    hide LastTitled, FirstSimilar, Ids;
    if Matched(cs, r.title).Some? {
      var needle := Lower(Strip(r.title));
      if LastTitled(cs, needle).Some? {
        LastTitledInSet(cs, needle);
      } else {
        LastTitledInSet(cs, FirstSimilar(cs, needle).value);
      }
    }
  }

  ghost predicate Ascending(s: seq<nat>) {
    forall i, j :: 0 <= i < j < |s| ==> s[i] < s[j]
  }

  /** `out` is what the items at these places, in this order, are grounded to, and nothing else can be grounded. */
  ghost predicate KeptAt(out: seq<Recommendation>, items: seq<Recommendation>, cs: seq<Candidate>, places: seq<nat>) {
    && |places| == |out| && Ascending(places)
    && (forall j :: 0 <= j < |places| ==> places[j] < |items| && GroundOne(items[places[j]], cs) == Some(out[j]))
    && (forall i: nat :: i < |items| && i !in places ==> GroundOne(items[i], cs).None?)
  }

  /** Order is kept, and only hallucinations are dropped. */
  lemma {:induction false} KeptInOrder(items: seq<Recommendation>, cs: seq<Candidate>) returns (places: seq<nat>)
    ensures KeptAt(Kept(items, cs), items, cs, places)
  {
    hide GroundOne, KeptAt;
    if items == [] {
      places := [];
      KeptNothing(cs);
    } else {
      var front, last := items[..|items| - 1], items[|items| - 1];
      assert items == front + [last];
      places := KeptInOrder(front, cs);
      KeptNext(Kept(front, cs), front, cs, places, last);
      if GroundOne(last, cs).Some? {
        places := places + [|front|];
      }
    }
  }

  lemma KeptNothing(cs: seq<Candidate>)
    ensures KeptAt([], [], cs, [])
  {
  }

  lemma KeptNext(
    out: seq<Recommendation>, items: seq<Recommendation>, cs: seq<Candidate>, places: seq<nat>, last: Recommendation)
    requires KeptAt(out, items, cs, places)
    ensures var g := GroundOne(last, cs);
            if g.Some? then KeptAt(out + [g.value], items + [last], cs, places + [|items|])
            else KeptAt(out, items + [last], cs, places)
  {
    hide GroundOne;
    var more := items + [last];
    assert more[|items|] == last && forall i :: 0 <= i < |items| ==> more[i] == items[i];
    var next := places + [|items|];
    assert |items| in next && forall i: nat :: i in places ==> i in next;
  }

  ghost predicate AllRetrieved(items: seq<Recommendation>, cs: seq<Candidate>) {
    forall i :: 0 <= i < |items| ==> items[i].malId in Ids(cs)
  }

  lemma {:induction false} KeptRetrieved(items: seq<Recommendation>, cs: seq<Candidate>)
    ensures AllRetrieved(Kept(items, cs), cs)
    ensures AllRetrieved(items, cs) ==> Kept(items, cs) == items
  {
    hide GroundOne, Ids;
    if items != [] {
      var front, last := items[..|items| - 1], items[|items| - 1];
      KeptRetrieved(front, cs);
      GroundOneExactly(last, cs);
      assert items == front + [last];
    }
  }

  /** Every grounded item has a retrieved id, there are at most five, and grounding again changes nothing. */
  lemma GroundingIdempotent(recs: Recommendations, cs: seq<Candidate>)
    ensures var g := Ground(recs, cs);
            && AllRetrieved(g.items, cs)
            && |g.items| <= MAX_RECOMMENDATIONS
            && Ground(g, cs) == g
  {
    hide Kept, Ids;
    var g := Ground(recs, cs);
    KeptRetrieved(recs.items, cs);
    KeptRetrieved(g.items, cs);
  }

  // ---------------------------------------------------------------- titles written by the chunker

  lemma {:induction false} FirstLineStops(s: string, rest: string)
    ensures FirstLine(s + "\n" + rest) == FirstLine(s)
  {
    var text := s + "\n" + rest;
    if s != "" {
      assert text[1..] == s[1..] + "\n" + rest;
      FirstLineStops(s[1..], rest);
    }
  }

  lemma {:induction false} FirstLineAfter(head: string, s: string)
    requires '\n' !in head
    ensures FirstLine(head + s) == head + FirstLine(s)
  {
    if head == "" {
      assert head + s == s;
    } else {
      assert head[0] in head;
      assert (head + s)[1..] == head[1..] + s;
      FirstLineAfter(head[1..], s);
      assert [head[0]] + (head[1..] + FirstLine(s)) == head + FirstLine(s);
    }
  }

  /** The title read from a chunk is the first line of the name the chunker wrote into its header, trimmed, in lower case. */
  lemma TitleRoundTrip(a: Chunker.Anime, piece: string, c: Candidate)
    requires c.text == Chunker.Header(a) + piece
    ensures TitleOf(c) == Lower(Strip(FirstLine(a.name)))
  {
    hide Strip, Lower, Chunker.CommaJoined;
    var genres := if a.genres == [] then "unknown" else Chunker.CommaJoined(a.genres);
    var rest := "Genres: " + genres + "\n\n" + piece;
    assert c.text == "Title: " + (a.name + "\n" + rest);
    FirstLineAfter("Title: ", a.name + "\n" + rest);
    FirstLineStops(a.name, rest);
    var line := FirstLine(c.text);
    assert line == "Title: " + FirstLine(a.name);
    assert line[7..] == FirstLine(a.name);
  }

  /** Some candidate with this id bears this title. */
  ghost predicate Bears(cs: seq<Candidate>, id: int, title: string) {
    exists j :: 0 <= j < |cs| && TitleOf(cs[j]) == title && Anime(cs[j]) == id
  }

  /**
   So a recommendation that names a retrieved anime is never dropped, whatever id the model gave. The id it ends with bears
   the title if and only if the model's id was not retrieved, and is then that of the last candidate with the title, or
   bears the title itself.
   */
  lemma RightTitleIsGrounded(r: Recommendation, cs: seq<Candidate>, i: nat, a: Chunker.Anime, piece: string)
    requires i < |cs| && cs[i].text == Chunker.Header(a) + piece
    requires Lower(Strip(r.title)) == Lower(Strip(FirstLine(a.name))) != ""
    ensures GroundOne(r, cs).Some?
    ensures Bears(cs, GroundOne(r, cs).value.malId, TitleOf(cs[i])) <==>
            r.malId !in Ids(cs) || Bears(cs, r.malId, TitleOf(cs[i]))
    ensures r.malId !in Ids(cs) ==>
              exists j :: i <= j < |cs| && TitleOf(cs[j]) == TitleOf(cs[i]) && GroundOne(r, cs).value.malId == Anime(cs[j])
  {
    hide TitleOf, Lower, Strip, FirstSimilar;
    TitleRoundTrip(a, piece, cs[i]);
    LastBearer(cs, i);
  }

  function OneChunk(a: Chunker.Anime): Candidate {
    Fusion.Candidate((a.malId, 0), Chunker.Header(a) + "", None, None, None, None, None, None)
  }

  lemma LetterTitles()
    ensures Lower(Strip(FirstLine("x"))) == "x" && Lower(Strip(FirstLine("y"))) == "y"
  {
    assert FirstLine("x") == "x" && FirstLine("y") == "y";
    assert Strip("x") == "x" && Strip("y") == "y";
    assert Lower("x") == "x" && Lower("y") == "y";
  }

  /** The right title with another retrieved anime's id: the wrong id stands. */
  lemma WrongIdStands()
    ensures var x, y := Chunker.Anime(1, "x", [], ""), Chunker.Anime(2, "y", [], "");
            var cs := [OneChunk(x), OneChunk(y)];
            var r := Recommendation(2, "x", 0);
            GroundOne(r, cs) == Some(r) && TitleOf(cs[0]) == "x" && !Bears(cs, 2, "x")
  {
    hide TitleOf, Lower, Strip, FirstLine, Chunker.Header, Matched;
    var x, y := Chunker.Anime(1, "x", [], ""), Chunker.Anime(2, "y", [], "");
    var cs := [OneChunk(x), OneChunk(y)];
    TitleRoundTrip(x, "", cs[0]);
    TitleRoundTrip(y, "", cs[1]);
    LetterTitles();
    assert Anime(cs[1]) in Ids(cs);
  }

  lemma {:induction false} LastBearer(cs: seq<Candidate>, i: nat)
    requires i < |cs|
    ensures LastTitled(cs, TitleOf(cs[i])).Some?
    ensures exists j :: i <= j < |cs| && TitleOf(cs[j]) == TitleOf(cs[i])
                        && LastTitled(cs, TitleOf(cs[i])) == Some(Anime(cs[j]))
  {
    hide TitleOf;
    var n := |cs| - 1;
    if TitleOf(cs[n]) != TitleOf(cs[i]) {
      LastBearer(cs[..n], i);
      var j :| i <= j < n && TitleOf(cs[..n][j]) == TitleOf(cs[i]) && LastTitled(cs[..n], TitleOf(cs[i])) == Some(Anime(cs[..n][j]));
      assert cs[..n][j] == cs[j];
    }
  }
}
