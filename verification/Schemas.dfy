/** The answers of `schemas.py` and the popular floor of `fallback.py`. */
module Schemas {
  import opened Wrappers

  const MAX_RECOMMENDATIONS: nat := 5

  /** `prose` stands for the summary and the reason given, which nothing here looks into. */
  datatype Recommendation = Recommendation(malId: int, title: string, prose: nat)

  /** What the model is asked for: recommendations, or a refusal. */
  datatype Recommendations = Recommendations(items: seq<Recommendation>, refusal: Option<string>) {
    predicate IsRefusal() {
      items == [] && refusal.Some? && refusal.value != ""
    }
  }

  /** Validation keeps the first `MAX_RECOMMENDATIONS` items. */
  function Validated(items: seq<Recommendation>, refusal: Option<string>): Recommendations {
    Recommendations(if |items| > MAX_RECOMMENDATIONS then items[..MAX_RECOMMENDATIONS] else items, refusal)
  }

  /** At most five items, the first of those given, all of them if there are no more. */
  lemma ValidatedExactly(items: seq<Recommendation>, refusal: Option<string>)
    ensures var v := Validated(items, refusal);
            && v.items <= items && (|items| <= 5 ==> v.items == items) && (|items| > 5 ==> |v.items| == 5)
            && v.refusal == refusal
  {
  }

  /** Text shown to the user: the model's own, or one of the system's fixed messages, none of which is blank. */
  datatype Message =
    | Said(text: string)
    | DegradedNotice
    | NoMatchNotice
    | OutOfScopeRefusal
    | NotInCatalogue(titles: seq<string>)

  predicate Blank(m: Message) {
    m == Said("")
  }

  datatype RecommendationResult = RecommendationResult(
    items: seq<Recommendation>,
    refusal: Option<Message>,
    degraded: bool,
    notice: Option<Message>)

  function Refused(m: Message): RecommendationResult {
    RecommendationResult([], Some(m), false, None)
  }

  /** `RecommendationResult.of`. */
  function Of(recs: Recommendations): RecommendationResult {
    RecommendationResult(recs.items, if recs.IsRefusal() then Some(Said(recs.refusal.value)) else None, false, None)
  }

  /** A wrapped answer keeps its items, and its refusal exactly if it has no items and one that is not blank. */
  lemma OfExactly(recs: Recommendations)
    ensures var r := Of(recs);
            && r.items == recs.items && !r.degraded && r.notice == None
            && (recs.items == [] && recs.refusal.Some? && recs.refusal.value != "" ==>
                  r.refusal == Some(Said(recs.refusal.value)))
            && (recs.items != [] || recs.refusal.None? || recs.refusal.value == "" ==> r.refusal == None)
  {
  }

  function Popular(): seq<Recommendation> {
    [Recommendation(1, "Cowboy Bebop", 0), Recommendation(19, "Monster", 1), Recommendation(21, "One Piece", 2)]
  }

  /** `popular_fallback`. */
  function PopularFallback(notice: Message): RecommendationResult {
    RecommendationResult(Popular(), None, true, Some(notice))
  }
}
