/** The sentence packer and chunker of `chunker.py`. */
module Chunker {
  import opened AsciiText
  import opened Text

  const TARGET_CHARS: nat := 2000
  const OVERLAP_CHARS: nat := 300

  // ---------------------------------------------------------------- sentences

  predicate EndsSentence(c: char) {
    c == '.' || c == '!' || c == '?'
  }

  /** The regular-expression split at every run of white space right after `.`, `!` or `?`. */
  function SplitAtEnds(s: string, current: string): seq<string>
    decreases |s|
  {
    if s == "" then [current]
    else if current != "" && EndsSentence(current[|current| - 1]) && IsBlank(s[0]) then
      [current] + SplitAtEnds(StripStart(s), "")
    else SplitAtEnds(s[1..], current + [s[0]])
  }

  function StrippedNonEmpty(parts: seq<string>): seq<string> {
    if parts == [] then []
    else (if Strip(parts[0]) != "" then [Strip(parts[0])] else []) + StrippedNonEmpty(parts[1..])
  }

  function SplitSentences(text: string): seq<string> {
    StrippedNonEmpty(SplitAtEnds(text, ""))
  }

  /** The visible characters of a text, in order. */
  function Visible(s: string): string {
    if s == "" then ""
    else if IsBlank(s[0]) then Visible(s[1..]) else [s[0]] + Visible(s[1..])
  }

  lemma {:induction false} VisibleAppend(a: string, b: string)
    ensures Visible(a + b) == Visible(a) + Visible(b)
  {
    if a == "" {
      assert a + b == b;
    } else {
      assert (a + b)[1..] == a[1..] + b;
      VisibleAppend(a[1..], b);
    }
  }

  lemma {:induction false} VisibleStripStart(s: string)
    ensures Visible(StripStart(s)) == Visible(s)
  {
    if s != "" && IsBlank(s[0]) {
      VisibleStripStart(s[1..]);
    }
  }

  lemma {:induction false} VisibleStripEnd(s: string)
    ensures Visible(StripEnd(s)) == Visible(s)
  {
    if s != "" && IsBlank(s[|s| - 1]) {
      var front := s[..|s| - 1];
      assert s == front + [s[|s| - 1]];
      VisibleAppend(front, [s[|s| - 1]]);
      VisibleStripEnd(front);
    }
  }

  lemma {:induction false} SplitKeepsVisible(s: string, current: string)
    ensures Visible(Flat(SplitAtEnds(s, current))) == Visible(current + s)
    decreases |s|
  {
    hide Visible;
    if s == "" {
      assert Flat([current]) == current + Flat([]);
      assert current + s == current + "";
    } else if current != "" && EndsSentence(current[|current| - 1]) && IsBlank(s[0]) {
      var rest := SplitAtEnds(StripStart(s), "");
      SplitKeepsVisible(StripStart(s), "");
      assert "" + StripStart(s) == StripStart(s);
      VisibleStripStart(s);
      VisibleAppend(current, Flat(rest));
      VisibleAppend(current, s);
      assert ([current] + rest)[1..] == rest;
    } else {
      SplitKeepsVisible(s[1..], current + [s[0]]);
      assert current + [s[0]] + s[1..] == current + s;
    }
  }

  lemma {:induction false} StrippedKeepsVisible(parts: seq<string>)
    ensures Visible(Flat(StrippedNonEmpty(parts))) == Visible(Flat(parts))
  {
    hide Visible;
    if parts != [] {
      var t := Strip(parts[0]);
      var rest := StrippedNonEmpty(parts[1..]);
      StrippedKeepsVisible(parts[1..]);
      VisibleStripStart(parts[0]);
      VisibleStripEnd(StripStart(parts[0]));
      VisibleAppend(parts[0], Flat(parts[1..]));
      VisibleAppend(t, Flat(rest));
      assert ([t] + rest)[1..] == rest;
      if t == "" {
        assert [] + rest == rest;
        assert t + Flat(rest) == Flat(rest);
      }
    }
  }

  /** Sentence splitting drops white space only. */
  lemma SentencesKeepText(text: string)
    ensures Visible(Flat(SplitSentences(text))) == Visible(text)
  {
    StrippedKeepsVisible(SplitAtEnds(text, ""));
    SplitKeepsVisible(text, "");
    assert "" + text == text;
  }

  /** No sentence end followed by white space inside. */
  ghost predicate Whole(s: string) {
    forall i, j :: 0 <= i < |s| && j == i + 1 < |s| && EndsSentence(s[i]) ==> !IsBlank(s[j])
  }

  predicate Ended(s: string) {
    s != "" && EndsSentence(s[|s| - 1])
  }

  /** Split at every place a sentence ends, and at no other. */
  ghost predicate SplitRight(parts: seq<string>) {
    && (forall i :: 0 <= i < |parts| ==> Whole(parts[i]))
    && (forall i :: 0 <= i < |parts| - 1 ==> Ended(parts[i]))
  }

  lemma SplitRightCons(p: string, rest: seq<string>)
    requires Whole(p) && SplitRight(rest) && (rest != [] ==> Ended(p))
    ensures SplitRight([p] + rest)
  {
    hide Whole, Ended;
    var parts := [p] + rest;
    assert forall i :: 0 < i < |parts| ==> parts[i] == rest[i - 1];
  }

  lemma {:induction false} SplitIsRight(s: string, current: string)
    requires Whole(current)
    ensures SplitRight(SplitAtEnds(s, current))
    decreases |s|
  {
    hide SplitRight, Ended;
    if s == "" {
      NothingSplit();
      SplitRightCons(current, []);
      assert [current] + [] == [current];
    } else if current != "" && EndsSentence(current[|current| - 1]) && IsBlank(s[0]) {
      SplitIsRight(StripStart(s), "");
      assert Ended(current) by { EndedHere(current); }
      SplitRightCons(current, SplitAtEnds(StripStart(s), ""));
    } else {
      SplitIsRight(s[1..], current + [s[0]]);
    }
  }

  lemma NothingSplit()
    ensures SplitRight([])
  {
  }

  lemma EndedHere(s: string)
    requires s != "" && EndsSentence(s[|s| - 1])
    ensures Ended(s)
  {
  }

  lemma {:induction false} StripStartWhole(s: string)
    requires Whole(s)
    ensures Whole(StripStart(s)) && (StripStart(s) != "" ==> !IsBlank(StripStart(s)[0]))
    ensures Ended(s) ==> Ended(StripStart(s))
  {
    if s != "" && IsBlank(s[0]) {
      StripStartWhole(s[1..]);
    }
  }

  lemma {:induction false} StripEndWhole(s: string)
    requires Whole(s) && (s != "" ==> !IsBlank(s[0]))
    ensures Whole(StripEnd(s))
    ensures StripEnd(s) != "" ==> !IsBlank(StripEnd(s)[0]) && !IsBlank(StripEnd(s)[|StripEnd(s)| - 1])
    ensures Ended(s) ==> StripEnd(s) == s
  {
    if s != "" && IsBlank(s[|s| - 1]) {
      StripEndWhole(s[..|s| - 1]);
    }
  }

  /** Nothing to strip any more. */
  ghost predicate Tidy(s: string) {
    s != "" && !IsBlank(s[0]) && !IsBlank(s[|s| - 1])
  }

  ghost predicate AllTidy(parts: seq<string>) {
    forall i :: 0 <= i < |parts| ==> Tidy(parts[i])
  }

  lemma StripOne(p: string)
    requires Whole(p)
    ensures Whole(Strip(p)) && (Strip(p) != "" ==> Tidy(Strip(p))) && (Ended(p) ==> Ended(Strip(p)))
  {
    hide Whole, StripStart, StripEnd;
    StripStartWhole(p);
    StripEndWhole(StripStart(p));
  }

  lemma SplitRightParts(parts: seq<string>)
    requires parts != [] && SplitRight(parts)
    ensures Whole(parts[0]) && SplitRight(parts[1..]) && (|parts| > 1 ==> Ended(parts[0]))
  {
  }

  lemma TidyCons(p: string, rest: seq<string>)
    requires Tidy(p) && AllTidy(rest)
    ensures AllTidy([p] + rest)
  {
  }

  lemma {:induction false} StrippedRight(parts: seq<string>)
    requires SplitRight(parts)
    ensures SplitRight(StrippedNonEmpty(parts)) && AllTidy(StrippedNonEmpty(parts))
  {
    hide Whole, Ended, SplitRight, Tidy, Strip;
    if parts == [] {
      NothingSplit();
    } else {
      var p, rest := parts[0], StrippedNonEmpty(parts[1..]);
      SplitRightParts(parts);
      StrippedRight(parts[1..]);
      StripOne(p);
      if Strip(p) != "" {
        SplitRightCons(Strip(p), rest);
        TidyCons(Strip(p), rest);
      } else {
        assert [] + rest == rest;
      }
    }
  }

  // ---------------------------------------------------------------- what stands between sentences

  /** The parts with a gap before each and one after the last. */
  ghost function Woven(parts: seq<string>, gaps: seq<string>): string
    requires |gaps| == |parts| + 1
  {
    if parts == [] then gaps[0] else gaps[0] + parts[0] + Woven(parts[1..], gaps[1..])
  }

  /** Gaps hold white space only, and some between any two parts. */
  ghost predicate Gaps(gaps: seq<string>, parts: seq<string>) {
    && |gaps| == |parts| + 1
    && (forall i :: 0 <= i < |gaps| ==> AllBlank(gaps[i]))
    && (forall i :: 0 < i < |parts| ==> gaps[i] != "")
  }

  lemma GapsCons(gap: string, p: string, gaps: seq<string>, parts: seq<string>)
    requires AllBlank(gap) && Gaps(gaps, parts) && (parts != [] ==> gaps[0] != "")
    ensures Gaps([gap] + gaps, [p] + parts)
    ensures Woven([p] + parts, [gap] + gaps) == gap + p + Woven(parts, gaps)
  {
    hide AllBlank;
    assert ([gap] + gaps)[1..] == gaps && ([p] + parts)[1..] == parts;
    assert forall i :: 0 < i < |[gap] + gaps| ==> ([gap] + gaps)[i] == gaps[i - 1];
  }

  lemma GapsTail(gaps: seq<string>, parts: seq<string>)
    requires parts != [] && Gaps(gaps, parts)
    ensures AllBlank(gaps[0]) && Gaps(gaps[1..], parts[1..]) && (|parts| > 1 ==> gaps[1] != "")
  {
    hide AllBlank;
  }

  /** More white space in front. */
  lemma GapsLead(lead: string, gaps: seq<string>, parts: seq<string>)
    requires AllBlank(lead) && Gaps(gaps, parts)
    ensures Gaps([lead + gaps[0]] + gaps[1..], parts)
    ensures Woven(parts, [lead + gaps[0]] + gaps[1..]) == lead + Woven(parts, gaps)
  {
    var more := [lead + gaps[0]] + gaps[1..];
    assert more[1..] == gaps[1..];
    assert forall i :: 0 < i < |more| ==> more[i] == gaps[i];
    if parts != [] {
      assert lead + gaps[0] + parts[0] + Woven(parts[1..], gaps[1..])
          == lead + (gaps[0] + parts[0] + Woven(parts[1..], gaps[1..]));
    }
  }

  /** Splitting takes out white space, and some between any two parts. */
  lemma {:induction false} SplitGaps(s: string, current: string) returns (gaps: seq<string>)
    ensures Gaps(gaps, SplitAtEnds(s, current)) && gaps[0] == ""
    ensures Woven(SplitAtEnds(s, current), gaps) == current + s
    decreases |s|
  {
    hide Gaps, AllBlank, Woven;
    NoGap();
    if s == "" {
      GapsCons("", current, [""], []);
      gaps := [""] + [""];
      assert [current] + [] == [current];
    } else if current != "" && EndsSentence(current[|current| - 1]) && IsBlank(s[0]) {
      var lead := StartOff(s);
      assert lead != "" by { StripStartShrinks(s); }
      var parts := SplitAtEnds(StripStart(s), "");
      var rest := SplitGaps(StripStart(s), "");
      GapsLength(rest, parts);
      GapsLead(lead, rest, parts);
      var more := [lead + rest[0]] + rest[1..];
      GapsCons("", current, more, parts);
      gaps := [""] + more;
      assert "" + current + (lead + ("" + StripStart(s))) == current + s;
    } else {
      gaps := SplitGaps(s[1..], current + [s[0]]);
      assert current + [s[0]] + s[1..] == current + s;
    }
  }

  lemma StripStartShrinks(s: string)
    requires s != "" && IsBlank(s[0])
    ensures |StripStart(s)| < |s|
  {
  }

  lemma NoGap()
    ensures AllBlank("") && Gaps([""], []) && Woven([], [""]) == ""
  {
  }

  lemma GapsLength(gaps: seq<string>, parts: seq<string>)
    requires Gaps(gaps, parts)
    ensures |gaps| == |parts| + 1
  {
  }

  /** Stripping the parts moves white space into the gaps. */
  lemma {:induction false} StrippedGaps(parts: seq<string>, gaps: seq<string>) returns (wider: seq<string>)
    requires Gaps(gaps, parts)
    ensures |gaps| == |parts| + 1 && Gaps(wider, StrippedNonEmpty(parts))
    ensures |wider| >= 1 && |wider[0]| >= |gaps[0]|
    ensures |wider| == |StrippedNonEmpty(parts)| + 1
            && Woven(StrippedNonEmpty(parts), wider) == Woven(parts, gaps)
  {
    hide Gaps, AllBlank, StripStart, StripEnd;
    GapsLength(gaps, parts);
    if parts == [] {
      wider := gaps;
    } else {
      var p := parts[0];
      GapsTail(gaps, parts);
      var rest := StrippedGaps(parts[1..], gaps[1..]);
      var kept := StrippedNonEmpty(parts[1..]);
      var lead := StartOff(p);
      var trail := EndOff(StripStart(p));
      var q := Strip(p);
      assert p == lead + (q + trail);
      BlankJoin(gaps[0], lead);
      GapsLead(trail, rest, kept);
      var after := [trail + rest[0]] + rest[1..];
      if q != "" {
        GapsCons(gaps[0] + lead, q, after, kept);
        wider := [gaps[0] + lead] + after;
        assert gaps[0] + lead + q + (trail + Woven(kept, rest)) == gaps[0] + p + Woven(kept, rest);
      } else {
        assert [] + kept == kept;
        GapsLead(gaps[0] + lead, after, kept);
        wider := [gaps[0] + lead + after[0]] + after[1..];
        assert gaps[0] + lead + (trail + Woven(kept, rest)) == gaps[0] + p + Woven(kept, rest);
      }
    }
  }

  lemma BlankJoin(a: string, b: string)
    requires AllBlank(a) && AllBlank(b)
    ensures AllBlank(a + b)
  {
  }

  /**
   The text is split at every end mark followed by white space and nowhere else: no sentence has such a place inside, every
   sentence but the last ends with an end mark, and the text is the sentences with white space around them, some between
   any two. None is blank or has white space at its ends.
   */
  lemma SentencesSplitRight(text: string)
    ensures SplitRight(SplitSentences(text)) && AllTidy(SplitSentences(text))
    ensures exists gaps :: Gaps(gaps, SplitSentences(text)) && Woven(SplitSentences(text), gaps) == text
  {
    hide SplitRight, AllTidy, Gaps, Woven;
    SplitIsRight(text, "");
    StrippedRight(SplitAtEnds(text, ""));
    var raw := SplitGaps(text, "");
    var gaps := StrippedGaps(SplitAtEnds(text, ""), raw);
    assert "" + text == text;
    assert Gaps(gaps, SplitSentences(text)) && Woven(SplitSentences(text), gaps) == text;
  }

  // ---------------------------------------------------------------- packing

  /** Characters a list of sentences takes, each with one separator: the packer's running size. */
  function Size(sentences: seq<string>): nat {
    if sentences == [] then 0 else |sentences[0]| + 1 + Size(sentences[1..])
  }

  /** `" ".join(sentences)`. */
  function JoinSpace(sentences: seq<string>): string {
    if sentences == [] then ""
    else if |sentences| == 1 then sentences[0]
    else sentences[0] + " " + JoinSpace(sentences[1..])
  }

  lemma {:induction false} SizeAppend(a: seq<string>, b: seq<string>)
    ensures Size(a + b) == Size(a) + Size(b)
  {
    if a == [] {
      assert a + b == b;
    } else {
      assert (a + b)[1..] == a[1..] + b;
      SizeAppend(a[1..], b);
    }
  }

  lemma {:induction false} JoinLength(sentences: seq<string>)
    requires sentences != []
    ensures |JoinSpace(sentences)| == Size(sentences) - 1
  {
    if |sentences| > 1 {
      JoinLength(sentences[1..]);
    } else {
      assert sentences[1..] == [];
    }
  }

  lemma JoinSpaceOne(s: string)
    ensures JoinSpace([s]) == s
  {
  }

  /** Joining keeps the order, with one space between. */
  lemma {:induction false} JoinSpaceAppend(a: seq<string>, b: seq<string>)
    requires a != [] && b != []
    ensures JoinSpace(a + b) == JoinSpace(a) + " " + JoinSpace(b)
  {
    assert (a + b)[1..] == a[1..] + b;
    if |a| == 1 {
      assert a[1..] + b == b;
    } else {
      JoinSpaceAppend(a[1..], b);
      assert a[0] + " " + (JoinSpace(a[1..]) + " " + JoinSpace(b)) == a[0] + " " + JoinSpace(a[1..]) + " " + JoinSpace(b);
    }
  }

  lemma {:induction false} VisibleJoined(sentences: seq<string>)
    ensures Visible(JoinSpace(sentences)) == Visible(Flat(sentences))
  {
    hide Visible;
    if |sentences| == 1 {
      assert sentences[1..] == [] && sentences[0] + "" == sentences[0];
    } else if sentences != [] {
      var head, tail := sentences[0], sentences[1..];
      VisibleJoined(tail);
      VisibleAppend(head + " ", JoinSpace(tail));
      VisibleAppend(head, " ");
      VisibleAppend(head, Flat(tail));
      OneSpace();
      assert Visible(head) + "" == Visible(head);
    }
  }

  lemma OneSpace()
    ensures Visible(" ") == ""
  {
  }

  /** The sentences the backwards loop re-includes: from the end, while they fit the budget. */
  function TailWithin(sentences: seq<string>, budget: int): seq<string> {
    if sentences == [] then []
    else
      var last := sentences[|sentences| - 1];
      if |last| + 1 > budget then []
      else TailWithin(sentences[..|sentences| - 1], budget - |last| - 1) + [last]
  }

  lemma SuffixSize(sentences: seq<string>, k: nat)
    requires k < |sentences|
    ensures var n := |sentences|;
            Size(sentences[k..]) == Size(sentences[..n - 1][k..]) + |sentences[n - 1]| + 1
  {
    var n := |sentences|;
    var last := [sentences[n - 1]];
    assert sentences[k..] == sentences[..n - 1][k..] + last;
    SizeAppend(sentences[..n - 1][k..], last);
    assert last[1..] == [];
  }

  /** The suffix from `cut` fits the budget, and no longer one does. */
  ghost predicate LongestFit(sentences: seq<string>, budget: int, cut: nat) {
    && cut <= |sentences|
    && Size(sentences[cut..]) <= budget
    && forall k :: 0 <= k < cut ==> Size(sentences[k..]) > budget
  }

  lemma FitWithLast(front: seq<string>, last: string, budget: int, cut: nat)
    requires LongestFit(front, budget - |last| - 1, cut)
    ensures LongestFit(front + [last], budget, cut)
  {
    hide Size;
    var all := front + [last];
    forall k | 0 <= k <= cut
      ensures Size(all[k..]) == Size(front[k..]) + |last| + 1
    {
      SuffixSize(all, k);
      assert all[..|front|] == front;
    }
  }

  lemma NothingFits(sentences: seq<string>, budget: nat)
    requires sentences != [] && |sentences[|sentences| - 1]| + 1 > budget
    ensures LongestFit(sentences, budget, |sentences|)
  {
    hide Size;
    var n := |sentences|;
    SizeEmpty();
    assert sentences[n..] == [];
    forall k | 0 <= k < n
      ensures Size(sentences[k..]) > budget
    {
      SuffixSize(sentences, k);
    }
  }

  /** The overlap is the longest suffix that fits. */
  lemma {:induction false} TailIsLongestFit(sentences: seq<string>, budget: nat)
    ensures var tail := TailWithin(sentences, budget);
            var cut := |sentences| - |tail|;
            cut >= 0 && tail == sentences[cut..] && LongestFit(sentences, budget, cut)
  {
    hide LongestFit, Size;
    if sentences == [] {
      NoneFit(budget);
    } else {
      var n := |sentences|;
      var front, last := sentences[..n - 1], sentences[n - 1];
      assert sentences == front + [last];
      if |last| + 1 <= budget {
        TailIsLongestFit(front, budget - |last| - 1);
        var cut := |front| - |TailWithin(front, budget - |last| - 1)|;
        assert front[cut..] + [last] == sentences[cut..];
        FitWithLast(front, last, budget, cut);
      } else {
        NothingFits(sentences, budget);
      }
    }
  }

  lemma NoneFit(budget: nat)
    ensures LongestFit([], budget, 0)
  {
  }

  lemma SizeEmpty()
    ensures Size([]) == 0
  {
  }

  /** One chunk: sentences repeated from the previous chunk, then new ones. */
  datatype Piece = Piece(overlap: seq<string>, added: seq<string>) {
    function Sentences(): seq<string> {
      overlap + added
    }

    function Text(): string {
      JoinSpace(Sentences())
    }
  }

  function Pack(sentences: seq<string>, buf: Piece): seq<Piece>
    decreases |sentences|
  {
    if sentences == [] then if buf.Sentences() == [] then [] else [buf]
    else
      var s := sentences[0];
      if Size(buf.Sentences()) + |s| + 1 > TARGET_CHARS && buf.Sentences() != [] then
        [buf] + Pack(sentences[1..], Piece(TailWithin(buf.Sentences(), OVERLAP_CHARS), [s]))
      else Pack(sentences[1..], Piece(buf.overlap, buf.added + [s]))
  }

  function Texts(pieces: seq<Piece>): seq<string> {
    seq(|pieces|, i requires 0 <= i < |pieces| => pieces[i].Text())
  }

  lemma PackFlush(sentences: seq<string>, buf: Piece)
    requires sentences != [] && buf.Sentences() != []
    requires Size(buf.Sentences()) + |sentences[0]| + 1 > TARGET_CHARS
    ensures Pack(sentences, buf)
         == [buf] + Pack(sentences[1..], Piece(TailWithin(buf.Sentences(), OVERLAP_CHARS), [sentences[0]]))
  {
  }

  lemma PackGrow(sentences: seq<string>, buf: Piece)
    requires sentences != []
    requires Size(buf.Sentences()) + |sentences[0]| + 1 <= TARGET_CHARS || buf.Sentences() == []
    ensures Pack(sentences, buf) == Pack(sentences[1..], Piece(buf.overlap, buf.added + [sentences[0]]))
  {
  }

  lemma SizeOne(s: string)
    ensures Size([s]) == |s| + 1
  {
    assert [s][1..] == [];
  }

  /** `_pack_sentences`: the greedy loop, with the backwards overlap loop inside. */
  method PackSentences(sentences: seq<string>) returns (chunks: seq<string>)
    ensures chunks == Texts(Pack(sentences, Piece([], [])))
  {
    hide Pack, Size, JoinSpace, TailWithin;
    chunks := [];
    var buf: seq<string> := [];
    var size := 0;
    ghost var piece := Piece([], []);
    ghost var packed: seq<Piece> := [];
    SizeEmpty();
    assert sentences[0..] == sentences;
    assert [] + Pack(sentences, piece) == Pack(sentences, piece);
    for i := 0 to |sentences|
      invariant buf == piece.Sentences() && size == Size(buf)
      invariant chunks == Texts(packed)
      invariant Pack(sentences, Piece([], [])) == packed + Pack(sentences[i..], piece)
    {
      var s := sentences[i];
      assert sentences[i..][1..] == sentences[i + 1..];
      SizeOne(s);
      if size + |s| + 1 > TARGET_CHARS && buf != [] {
        PackFlush(sentences[i..], piece);
        chunks := chunks + [JoinSpace(buf)];
        var overlap, osize := BuildOverlap(buf);
        packed := packed + [piece];
        piece := Piece(overlap, [s]);
        SizeAppend(overlap, [s]);
        buf := overlap + [s];
        size := osize + |s| + 1;
      } else {
        PackGrow(sentences[i..], piece);
        SizeAppend(buf, [s]);
        assert buf + [s] == piece.overlap + (piece.added + [s]);
        piece := Piece(piece.overlap, piece.added + [s]);
        buf := buf + [s];
        size := size + |s| + 1;
      }
    }
    PackEnd(piece);
    assert sentences[|sentences|..] == [];
    if buf != [] {
      chunks := chunks + [JoinSpace(buf)];
    }
  }

  lemma PackEnd(buf: Piece)
    ensures Pack([], buf) == if buf.Sentences() == [] then [] else [buf]
  {
  }

  lemma TailStep(sentences: seq<string>, budget: int)
    requires sentences != []
    ensures var last := sentences[|sentences| - 1];
            TailWithin(sentences, budget) ==
            if |last| + 1 > budget then [] else TailWithin(sentences[..|sentences| - 1], budget - |last| - 1) + [last]
  {
  }

  lemma TailNone(budget: int)
    ensures TailWithin([], budget) == []
  {
  }

  lemma SizeCons(s: string, rest: seq<string>)
    ensures Size([s] + rest) == |s| + 1 + Size(rest)
  {
    assert ([s] + rest)[1..] == rest;
  }

  /** `for t in reversed(buf)`: stop at the first sentence that does not fit the overlap budget. */
  method BuildOverlap(buf: seq<string>) returns (overlap: seq<string>, osize: nat)
    ensures overlap == TailWithin(buf, OVERLAP_CHARS) && osize == Size(overlap)
  {
    hide TailWithin, Size;
    overlap, osize := [], 0;
    SizeEmpty();
    var i := |buf|;
    assert buf[..i] == buf;
    assert TailWithin(buf, OVERLAP_CHARS) + [] == TailWithin(buf, OVERLAP_CHARS);
    while i > 0
      invariant 0 <= i <= |buf|
      invariant osize == Size(overlap)
      invariant TailWithin(buf, OVERLAP_CHARS) == TailWithin(buf[..i], OVERLAP_CHARS - osize) + overlap
    {
      var t := buf[i - 1];
      TailStep(buf[..i], OVERLAP_CHARS - osize);
      assert buf[..i][..i - 1] == buf[..i - 1];
      if osize + |t| + 1 > OVERLAP_CHARS {
        assert [] + overlap == overlap;
        return;
      }
      ghost var front := TailWithin(buf[..i - 1], OVERLAP_CHARS - osize - |t| - 1);
      assert front + [t] + overlap == front + ([t] + overlap);
      SizeCons(t, overlap);
      overlap := [t] + overlap;
      osize := osize + |t| + 1;
      i := i - 1;
    }
    TailNone(OVERLAP_CHARS - osize);
    assert buf[..0] == [] && [] + overlap == overlap;
  }

  // ---------------------------------------------------------------- what packing guarantees

  function Added(pieces: seq<Piece>): seq<string> {
    if pieces == [] then [] else pieces[0].added + Added(pieces[1..])
  }

  /** The new parts, in order, are exactly the sentences. */
  lemma {:induction false} PackLossless(sentences: seq<string>, buf: Piece)
    requires buf.added == [] ==> buf.overlap == []
    ensures Added(Pack(sentences, buf)) == buf.added + sentences
    decreases |sentences|
  {
    if sentences == [] {
      assert [buf][1..] == [];
      assert buf.added + Added([]) == buf.added + sentences;
    } else {
      var s := sentences[0];
      if Size(buf.Sentences()) + |s| + 1 > TARGET_CHARS && buf.Sentences() != [] {
        var next := Piece(TailWithin(buf.Sentences(), OVERLAP_CHARS), [s]);
        PackLossless(sentences[1..], next);
        var rest := Pack(sentences[1..], next);
        assert ([buf] + rest)[1..] == rest;
        assert [s] + sentences[1..] == sentences;
      } else {
        PackLossless(sentences[1..], Piece(buf.overlap, buf.added + [s]));
        assert buf.added + [s] + sentences[1..] == buf.added + sentences;
      }
    }
  }

  ghost predicate NoLonger(sentences: seq<string>, longest: nat) {
    forall i :: 0 <= i < |sentences| ==> |sentences[i]| <= longest
  }

  function Limit(longest: nat): nat {
    if TARGET_CHARS > OVERLAP_CHARS + longest + 1 then TARGET_CHARS else OVERLAP_CHARS + longest + 1
  }

  /** A piece that may be output: at least one new sentence, and within the size limit. */
  ghost predicate Sized(p: Piece, longest: nat) {
    p.added != [] && Size(p.Sentences()) <= Limit(longest)
  }

  /** A piece starts with the longest fitting suffix of the one before, and was opened only because it had to be. */
  ghost predicate Follows(before: Piece, p: Piece) {
    && p.added != []
    && p.overlap == TailWithin(before.Sentences(), OVERLAP_CHARS)
    && Size(before.Sentences()) + |p.added[0]| + 1 > TARGET_CHARS
  }

  ghost predicate Chained(pieces: seq<Piece>) {
    forall i :: 0 < i < |pieces| ==>
      Follows(pieces[i - 1], pieces[i])
  }

  lemma {:induction false} PackShape(sentences: seq<string>, buf: Piece, longest: nat)
    requires NoLonger(sentences, longest)
    requires buf == Piece([], []) || Sized(buf, longest)
    ensures var pieces := Pack(sentences, buf);
            && (forall i :: 0 <= i < |pieces| ==> Sized(pieces[i], longest))
            && Chained(pieces)
            && (if pieces == [] then sentences == [] && buf == Piece([], [])
                else pieces[0].overlap == buf.overlap && buf.added <= pieces[0].added)
    decreases |sentences|
  {
    if sentences != [] {
      var s := sentences[0];
      assert |s| <= longest;
      assert Size([s]) == |s| + 1 by {
        assert [s][1..] == [];
      }
      assert NoLonger(sentences[1..], longest) by {
        assert forall i :: 0 <= i < |sentences| - 1 ==> sentences[1..][i] == sentences[i + 1];
      }
      if Size(buf.Sentences()) + |s| + 1 > TARGET_CHARS && buf.Sentences() != [] {
        var tail := TailWithin(buf.Sentences(), OVERLAP_CHARS);
        TailIsLongestFit(buf.Sentences(), OVERLAP_CHARS);
        SizeAppend(tail, [s]);
        PackShape(sentences[1..], Piece(tail, [s]), longest);
      } else {
        var next := Piece(buf.overlap, buf.added + [s]);
        assert next.Sentences() == buf.Sentences() + [s];
        SizeAppend(buf.Sentences(), [s]);
        PackShape(sentences[1..], next, longest);
      }
    }
  }

  /** Chunk texts respect the target, except where one long sentence with its overlap cannot. */
  lemma ChunksBounded(sentences: seq<string>, longest: nat)
    requires NoLonger(sentences, longest)
    ensures var chunks := Texts(Pack(sentences, Piece([], [])));
            forall i :: 0 <= i < |chunks| ==> |chunks[i]| <= Limit(longest) - 1
  {
    PackShape(sentences, Piece([], []), longest);
    var pieces := Pack(sentences, Piece([], []));
    forall i | 0 <= i < |pieces| ensures |pieces[i].Text()| <= Limit(longest) - 1 {
      assert Sized(pieces[i], longest);
      JoinLength(pieces[i].Sentences());
    }
  }

  ghost predicate AllWithin(sentences: seq<string>, bound: int) {
    var chunks := Texts(Pack(sentences, Piece([], [])));
    forall i :: 0 <= i < |chunks| ==> |chunks[i]| <= bound
  }

  function Filler(n: nat): string {
    seq(n, _ => 'a')
  }

  /** A sentence that just fits the overlap, then a long one: the second chunk takes both, and reaches the bound. */
  lemma BoundReached(longest: nat)
    requires longest >= TARGET_CHARS - OVERLAP_CHARS
    ensures var sentences := [Filler(OVERLAP_CHARS - 1), Filler(longest)];
            && NoLonger(sentences, longest)
            && !AllWithin(sentences, Limit(longest) - 2)
  {
    hide Pack, JoinSpace;
    var y, s := Filler(OVERLAP_CHARS - 1), Filler(longest);
    TwoSentences(y, s);
    JoinLength([y, s]);
    SizeAppend([y], [s]);
    SizeOne(y);
    SizeOne(s);
    assert [y] + [s] == [y, s] == Piece([y], [s]).Sentences();
    var pieces := [Piece([], [y]), Piece([y], [s])];
    assert Texts(pieces)[1] == JoinSpace([y, s]);
  }

  lemma TwoSentences(y: string, s: string)
    requires |y| + 1 <= OVERLAP_CHARS && |y| + 1 + |s| + 1 > TARGET_CHARS
    ensures Pack([y, s], Piece([], [])) == [Piece([], [y]), Piece([y], [s])]
  {
    hide Pack, Size;
    var first, second := Piece([], [y]), Piece([y], [s]);
    assert [y, s][1..] == [s] && [s][1..] == [];
    assert first.Sentences() == [y];
    SizeOne(y);
    PackGrow([y, s], Piece([], []));
    assert [] + [y] == [y];
    PackFlush([s], first);
    assert [y][..0] == [] && TailWithin([], OVERLAP_CHARS - |y| - 1) == [] && TailWithin([y], OVERLAP_CHARS) == [] + [y];
    PackEnd(second);
  }

  /**
   The packer keeps every chunk within `TARGET_CHARS`, 2000, if and only if no sentence is longer than that less
   `OVERLAP_CHARS`, 300; beyond that, some list of sentences breaks it.
   */
  lemma TargetExactly(longest: nat)
    ensures (forall sentences :: NoLonger(sentences, longest) ==> AllWithin(sentences, 2000)) <==> longest <= 1700
  {
    if longest <= TARGET_CHARS - OVERLAP_CHARS {
      forall sentences | NoLonger(sentences, longest)
        ensures AllWithin(sentences, TARGET_CHARS)
      {
        ChunksBounded(sentences, longest);
        assert Limit(longest) - 1 <= TARGET_CHARS;
      }
    } else {
      BoundReached(longest);
    }
  }

  // ---------------------------------------------------------------- chunking an anime

  datatype Anime = Anime(malId: int, name: string, genres: seq<string>, synopsis: string)
  datatype Chunk = Chunk(malId: int, index: nat, text: string, numChunks: nat)

  function CommaJoined(parts: seq<string>): string {
    if parts == [] then "" else if |parts| == 1 then parts[0] else parts[0] + ", " + CommaJoined(parts[1..])
  }

  function Header(a: Anime): string {
    "Title: " + a.name + "\nGenres: " + (if a.genres == [] then "unknown" else CommaJoined(a.genres)) + "\n\n"
  }

  function Pieces(body: string): seq<Piece> {
    var sentences := SplitSentences(body);
    if sentences != [] then Pack(sentences, Piece([], []))
    else [Piece([], [if |body| <= TARGET_CHARS then body else body[..TARGET_CHARS]])]
  }

  /** `chunk_anime`: the header in front of every piece, numbered from zero. */
  method ChunkAnime(a: Anime) returns (chunks: seq<Chunk>)
    ensures |chunks| == |Pieces(a.synopsis)| >= 1
    ensures forall i :: 0 <= i < |chunks| ==>
              chunks[i] == Chunk(a.malId, i, Header(a) + Pieces(a.synopsis)[i].Text(), |chunks|)
    ensures forall i :: 0 <= i < |chunks| ==>
              var p := Pieces(a.synopsis)[i];
              Visible(chunks[i].text[|Header(a)|..]) == Visible(Flat(p.overlap)) + Visible(Flat(p.added))
    ensures |chunks| == 1 ==> Visible(chunks[0].text[|Header(a)|..]) == Visible(a.synopsis)
  {
    hide Visible, Flat, JoinSpace, Header, Pack, SplitSentences;
    var header := Header(a);
    var sentences := SplitSentences(a.synopsis);
    var pieces;
    if sentences != [] {
      pieces := PackSentences(sentences);
      PackLossless(sentences, Piece([], []));
    } else {
      pieces := [if |a.synopsis| <= TARGET_CHARS then a.synopsis else a.synopsis[..TARGET_CHARS]];
      LonePiece(pieces[0]);
    }
    assert pieces == Texts(Pieces(a.synopsis));
    chunks := [];
    for i := 0 to |pieces|
      invariant |chunks| == i
      invariant forall j :: 0 <= j < i ==> chunks[j] == Chunk(a.malId, j, header + pieces[j], |pieces|)
    {
      chunks := chunks + [Chunk(a.malId, i, header + pieces[i], |pieces|)];
    }
    forall i | 0 <= i < |chunks|
      ensures var p := Pieces(a.synopsis)[i];
              Visible(chunks[i].text[|Header(a)|..]) == Visible(Flat(p.overlap)) + Visible(Flat(p.added))
    {
      AfterHeader(a, Pieces(a.synopsis)[i]);
    }
    if |chunks| == 1 {
      OneChunkKeepsText(a.synopsis);
      AfterHeader(a, Pieces(a.synopsis)[0]);
    }
  }

  lemma LonePiece(s: string)
    ensures Piece([], [s]).Text() == s
  {
    assert [] + [s] == [s];
  }

  lemma AfterHeader(a: Anime, p: Piece)
    ensures var text := Header(a) + p.Text();
            && text[|Header(a)|..] == p.Text()
            && Visible(text[|Header(a)|..]) == Visible(Flat(p.overlap)) + Visible(Flat(p.added))
  {
    PieceText(p);
    assert (Header(a) + p.Text())[|Header(a)|..] == p.Text();
  }

  /** The visible characters of a chunk's text are those of its overlap and then of its new sentences, in order. */
  lemma PieceText(p: Piece)
    ensures Visible(p.Text()) == Visible(Flat(p.overlap)) + Visible(Flat(p.added))
    ensures p.overlap != [] && p.added != [] ==> p.Text() == JoinSpace(p.overlap) + " " + JoinSpace(p.added)
    ensures p.overlap == [] ==> p.Text() == JoinSpace(p.added)
  {
    hide Visible, Flat, JoinSpace;
    VisibleJoined(p.Sentences());
    FlatAppend(p.overlap, p.added);
    VisibleAppend(Flat(p.overlap), Flat(p.added));
    if p.overlap != [] && p.added != [] {
      JoinSpaceAppend(p.overlap, p.added);
    }
    if p.overlap == [] {
      assert p.Sentences() == p.added;
    }
  }

  lemma {:induction false} CommaJoinedAppend(a: seq<string>, b: seq<string>)
    requires a != [] && b != []
    ensures CommaJoined(a + b) == CommaJoined(a) + ", " + CommaJoined(b)
  {
    assert (a + b)[1..] == a[1..] + b;
    if |a| == 1 {
      assert a[1..] + b == b;
    } else {
      CommaJoinedAppend(a[1..], b);
      assert a[0] + ", " + (CommaJoined(a[1..]) + ", " + CommaJoined(b))
          == a[0] + ", " + CommaJoined(a[1..]) + ", " + CommaJoined(b);
    }
  }

  /** The header names the title, then the genres in order, or that they are unknown. */
  lemma HeaderLines(a: Anime, g: string, more: seq<string>)
    ensures a.genres == [] ==> Header(a) == "Title: " + a.name + "\nGenres: unknown\n\n"
    ensures a.genres == [g] ==> Header(a) == "Title: " + a.name + "\nGenres: " + g + "\n\n"
    ensures a.genres == [g] + more && more != [] ==>
              Header(a) == "Title: " + a.name + "\nGenres: " + g + ", " + CommaJoined(more) + "\n\n"
  {
    if a.genres == [g] + more && more != [] {
      CommaJoinedAppend([g], more);
    }
  }

  /** A synopsis without sentences makes one chunk of it, cut to the target. */
  lemma BlankSynopsis(body: string)
    requires SplitSentences(body) == []
    ensures Texts(Pieces(body)) == [if |body| > TARGET_CHARS then body[..TARGET_CHARS] else body]
  {
    LonePiece(if |body| > TARGET_CHARS then body[..TARGET_CHARS] else body);
  }

  ghost function NewTexts(pieces: seq<Piece>): (r: seq<string>)
    ensures |r| == |pieces| && forall i :: 0 <= i < |r| ==> r[i] == JoinSpace(pieces[i].added)
  {
    seq(|pieces|, i requires 0 <= i < |pieces| => JoinSpace(pieces[i].added))
  }

  /** Without their overlaps the chunks, joined by spaces, are all sentences joined by spaces. */
  lemma {:induction false} NewTextsJoin(pieces: seq<Piece>)
    requires forall i :: 0 <= i < |pieces| ==> pieces[i].added != []
    ensures JoinSpace(NewTexts(pieces)) == JoinSpace(Added(pieces)) && (pieces != [] ==> Added(pieces) != [])
  {
    hide JoinSpace;
    if |pieces| == 1 {
      assert pieces[1..] == [] && NewTexts(pieces) == [JoinSpace(pieces[0].added)];
      assert pieces[0].added + [] == pieces[0].added;
      JoinSpaceOne(JoinSpace(pieces[0].added));
    } else if pieces != [] {
      var tail := pieces[1..];
      NewTextsJoin(tail);
      assert NewTexts(pieces) == [JoinSpace(pieces[0].added)] + NewTexts(tail);
      JoinSpaceAppend([JoinSpace(pieces[0].added)], NewTexts(tail));
      JoinSpaceOne(JoinSpace(pieces[0].added));
      JoinSpaceAppend(pieces[0].added, Added(tail));
    } else {
      assert NewTexts(pieces) == [];
    }
  }

  /** What the packed texts amount to: the sentences, in order, each chunk repeating its overlap in front. */
  lemma PackedTexts(sentences: seq<string>)
    ensures var pieces := Pack(sentences, Piece([], []));
            && JoinSpace(NewTexts(pieces)) == JoinSpace(sentences)
            && |Texts(pieces)| == |pieces|
            && forall i :: 0 <= i < |pieces| ==>
                 Texts(pieces)[i] == (if pieces[i].overlap == [] then NewTexts(pieces)[i]
                                      else JoinSpace(pieces[i].overlap) + " " + NewTexts(pieces)[i])
  {
    hide JoinSpace, Pack;
    var pieces := Pack(sentences, Piece([], []));
    var longest := Longest(sentences);
    PackShape(sentences, Piece([], []), longest);
    PackLossless(sentences, Piece([], []));
    assert forall i :: 0 <= i < |pieces| ==> Sized(pieces[i], longest);
    assert [] + sentences == sentences;
    NewTextsJoin(pieces);
    forall i | 0 <= i < |pieces|
      ensures Texts(pieces)[i] == (if pieces[i].overlap == [] then NewTexts(pieces)[i]
                                   else JoinSpace(pieces[i].overlap) + " " + NewTexts(pieces)[i])
    {
      PieceText(pieces[i]);
    }
  }

  ghost function Longest(sentences: seq<string>): (n: nat)
    ensures NoLonger(sentences, n)
  {
    if sentences == [] then 0
    else
      var rest := Longest(sentences[1..]);
      assert forall i :: 0 < i < |sentences| ==> sentences[i] == sentences[1..][i - 1];
      if |sentences[0]| > rest then |sentences[0]| else rest
  }

  /** A synopsis that makes one chunk is all in its text. */
  lemma OneChunkKeepsText(body: string)
    requires |Pieces(body)| == 1
    ensures Visible(Pieces(body)[0].Text()) == Visible(body)
  {
    hide Visible, Flat, JoinSpace, Pack, SplitSentences;
    var p := Pieces(body)[0];
    ChunkingKeepsText(body);
    PieceText(p);
    FirstHasNoOverlap(body);
    AddedOne(p);
    assert Pieces(body) == [p];
    NoVisible();
    assert "" + Visible(Flat(p.added)) == Visible(Flat(p.added));
  }

  lemma AddedOne(p: Piece)
    ensures Added([p]) == p.added
  {
    assert [p][1..] == [] && p.added + [] == p.added;
  }

  lemma NoVisible()
    ensures Visible(Flat([])) == ""
  {
  }

  lemma FirstHasNoOverlap(body: string)
    ensures Pieces(body) != [] ==> Pieces(body)[0].overlap == []
  {
    var sentences := SplitSentences(body);
    PackShape(sentences, Piece([], []), Longest(sentences));
  }

  lemma {:induction false} VisiblePrefix(s: string, k: nat)
    requires k <= |s| && Visible(s) == ""
    ensures Visible(s[..k]) == ""
  {
    assert s == s[..k] + s[k..];
    VisibleAppend(s[..k], s[k..]);
  }

  /** No visible character of a synopsis is lost or reordered by chunking: overlaps repeat, new parts tell it all. */
  lemma ChunkingKeepsText(body: string)
    ensures Visible(Flat(Added(Pieces(body)))) == Visible(body)
  {
    hide Visible;
    var sentences := SplitSentences(body);
    SentencesKeepText(body);
    if sentences != [] {
      PackLossless(sentences, Piece([], []));
      assert [] + sentences == sentences;
    } else {
      var only := if |body| <= TARGET_CHARS then body else body[..TARGET_CHARS];
      VisibleAppend("", "");
      assert "" + "" == "";
      if |body| > TARGET_CHARS {
        VisiblePrefix(body, TARGET_CHARS);
      }
      var p := Piece([], [only]);
      assert [p][1..] == [] && [only][1..] == [];
      assert Added([p]) == [only] + [] == [only];
      assert Flat([only]) == only + "" == only;
    }
  }
}
