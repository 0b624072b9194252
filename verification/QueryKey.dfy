/** Cache keys from `caches.py`: query normalisation, and which requests come to share an entry. */
module QueryKey {
  import opened Wrappers
  import opened AsciiText

  /** `_PUNCT.sub(" ", ...)`: whatever is neither a word character nor white space becomes a space. */
  function Unpunctuated(s: string): string {
    if s == "" then "" else [if IsWord(s[0]) || IsBlank(s[0]) then s[0] else ' '] + Unpunctuated(s[1..])
  }

  /** `_WHITESPACE.sub(" ", ...)`: each run of white space becomes one space. */
  function Squeezed(s: string): string
    decreases |s|
  {
    if s == "" then ""
    else if IsBlank(s[0]) then [' '] + Squeezed(StripStart(s))
    else [s[0]] + Squeezed(s[1..])
  }

  /** `normalize_query`, within ASCII. */
  function NormalizeQuery(query: string): string {
    Strip(Squeezed(Unpunctuated(Strip(Lower(query)))))
  }

  // ---------------------------------------------------------------- the words of a query

  function TakeWord(s: string): (w: string)
    ensures w <= s && forall c :: c in w ==> IsWord(c)
  {
    if s != "" && IsWord(s[0]) then [s[0]] + TakeWord(s[1..]) else ""
  }

  function DropWord(s: string): (r: string)
    ensures |r| <= |s| && (s != "" && IsWord(s[0]) ==> |r| < |s|)
    ensures r != "" ==> !IsWord(r[0])
  {
    if s != "" && IsWord(s[0]) then DropWord(s[1..]) else s
  }

  /** The maximal runs of word characters, in order. */
  function Words(s: string): seq<string>
    decreases |s|
  {
    if s == "" then []
    else if IsWord(s[0]) then [TakeWord(s)] + Words(DropWord(s))
    else Words(s[1..])
  }

  function Spaced(words: seq<string>): string {
    if words == [] then ""
    else if |words| == 1 then words[0]
    else words[0] + [' '] + Spaced(words[1..])
  }

  /** Words of word characters in lower case. */
  ghost predicate Plain(words: seq<string>) {
    forall i :: 0 <= i < |words| ==> words[i] != "" && Low(words[i]) && forall c :: c in words[i] ==> IsWord(c)
  }

  ghost predicate Low(s: string) {
    forall i :: 0 <= i < |s| ==> LowerChar(s[i]) == s[i]
  }

  // ---------------------------------------------------------------- stripping and replacing keep the words

  lemma {:induction false} WordThenMore(w: string, rest: string)
    requires forall c :: c in w ==> IsWord(c)
    requires rest != "" ==> !IsWord(rest[0])
    ensures TakeWord(w + rest) == w && DropWord(w + rest) == rest
  {
    if w == "" {
      assert w + rest == rest;
    } else {
      assert (w + rest)[1..] == w[1..] + rest;
      WordThenMore(w[1..], rest);
    }
  }

  lemma {:induction false} TakeThenDrop(s: string)
    ensures TakeWord(s) + DropWord(s) == s
  {
    if s != "" && IsWord(s[0]) {
      TakeThenDrop(s[1..]);
    }
  }

  lemma {:induction false} WordsOfStripStart(s: string)
    ensures Words(StripStart(s)) == Words(s)
  {
    if s != "" && IsBlank(s[0]) {
      WordsOfStripStart(s[1..]);
    }
  }

  lemma {:induction false} WordsThenBlank(s: string, c: char)
    requires !IsWord(c)
    ensures Words(s + [c]) == Words(s)
    decreases |s|
  {
    if s == "" {
      assert s + [c] == [c];
      assert Words([c]) == Words([c][1..]);
    } else if IsWord(s[0]) {
      TakeThenDrop(s);
      var w, rest := TakeWord(s), DropWord(s);
      assert s + [c] == w + (rest + [c]);
      WordThenMore(w, rest + [c]);
      WordsThenBlank(rest, c);
    } else {
      assert (s + [c])[1..] == s[1..] + [c];
      WordsThenBlank(s[1..], c);
    }
  }

  lemma {:induction false} WordsOfStripEnd(s: string)
    ensures Words(StripEnd(s)) == Words(s)
    decreases |s|
  {
    if s != "" && IsBlank(s[|s| - 1]) {
      assert s == s[..|s| - 1] + [s[|s| - 1]];
      WordsThenBlank(s[..|s| - 1], s[|s| - 1]);
      WordsOfStripEnd(s[..|s| - 1]);
    }
  }

  lemma {:induction false} TakeUnpunctuated(s: string)
    ensures TakeWord(Unpunctuated(s)) == TakeWord(s) && DropWord(Unpunctuated(s)) == Unpunctuated(DropWord(s))
  {
    if s != "" && IsWord(s[0]) {
      TakeUnpunctuated(s[1..]);
    }
  }

  lemma {:induction false} WordsOfUnpunctuated(s: string)
    ensures Words(Unpunctuated(s)) == Words(s)
    decreases |s|
  {
    if s != "" {
      if IsWord(s[0]) {
        TakeUnpunctuated(s);
        WordsOfUnpunctuated(DropWord(s));
      } else {
        WordsOfUnpunctuated(s[1..]);
      }
    }
  }

  // ---------------------------------------------------------------- squeezing leaves the words, spaced

  /** Word characters and white space only. */
  ghost predicate Clean(s: string) {
    forall c :: c in s ==> IsWord(c) || IsBlank(c)
  }

  lemma {:induction false} UnpunctuatedClean(s: string)
    ensures Clean(Unpunctuated(s))
  {
    if s != "" {
      UnpunctuatedClean(s[1..]);
    }
  }

  lemma {:induction false} StripStartShape(s: string)
    ensures var r := StripStart(s);
            |r| <= |s| && (s != "" && IsBlank(s[0]) ==> |r| < |s|)
            && (r != "" ==> !IsBlank(r[0])) && (Clean(s) ==> Clean(r))
  {
    if s != "" && IsBlank(s[0]) {
      StripStartShape(s[1..]);
    }
  }

  lemma {:induction false} SqueezedWord(w: string, rest: string)
    requires forall c :: c in w ==> IsWord(c)
    ensures Squeezed(w + rest) == w + Squeezed(rest)
  {
    if w == "" {
      assert w + rest == rest;
    } else {
      assert (w + rest)[1..] == w[1..] + rest;
      assert w[0] in w;
      SqueezedWord(w[1..], rest);
    }
  }

  lemma {:induction false} StripEndAfter(front: string, back: string)
    requires StripEnd(back) != ""
    ensures StripEnd(front + back) == front + StripEnd(back)
    decreases |back|
  {
    var n := |back| - 1;
    if IsBlank(back[n]) {
      assert (front + back)[..|front + back| - 1] == front + back[..n];
      StripEndAfter(front, back[..n]);
    }
  }

  lemma SpacedCons(w: string, words: seq<string>)
    requires words != []
    ensures Spaced([w] + words) == w + " " + Spaced(words)
  {
    assert ([w] + words)[1..] == words;
  }

  lemma {:induction false} SpacedNotBlank(words: seq<string>)
    requires words != [] && words[0] != ""
    ensures Spaced(words) != ""
  {
  }

  /** A word at the end, or a word and white space. */
  lemma LastWord(w: string, rest: string)
    requires w != "" && (forall c :: c in w ==> IsWord(c)) && Clean(rest) && StripStart(rest) == ""
    ensures StripEnd(w + Squeezed(rest)) == w
  {
    assert w[|w| - 1] in w;
    if rest == "" {
      assert w + Squeezed(rest) == w;
    } else {
      assert IsBlank(rest[0]);
      assert Squeezed(rest) == [' '] + Squeezed("");
      assert (w + [' '])[..|w|] == w;
      assert w + Squeezed(rest) == w + [' '];
      assert StripEnd(w + [' ']) == StripEnd(w);
    }
  }

  /** Squeezing clean text that starts with a word, and stripping its end, leaves the words with one space between them. */
  lemma {:induction false} SqueezedIsSpaced(s: string)
    requires Clean(s) && (s != "" ==> IsWord(s[0]))
    ensures StripEnd(Squeezed(s)) == Spaced(Words(s))
    decreases |s|
  {
    hide StripEnd, Squeezed, Clean, Spaced;
    if s == "" {
      SqueezedNothing();
    } else {
      var w, rest := TakeWord(s), DropWord(s);
      var next := StripStart(rest);
      TakeThenDrop(s);
      SqueezedWord(w, rest);
      CleanParts(w, rest);
      StripStartShape(rest);
      WordsOfStripStart(rest);
      if next == "" {
        LastWord(w, rest);
        SpacedOne(w);
        assert Words(next) == [] && [w] + [] == [w];
      } else {
        CleanHead(next);
        SqueezedIsSpaced(next);
        SqueezedBlank(rest);
        SpacedNotBlank(Words(next));
        StripEndAfter(w + [' '], Squeezed(next));
        SpacedCons(w, Words(next));
        assert w + ([' '] + Squeezed(next)) == w + [' '] + Squeezed(next);
      }
    }
  }

  lemma SqueezedNothing()
    ensures StripEnd(Squeezed("")) == Spaced([]) == ""
  {
  }

  lemma SpacedOne(w: string)
    ensures Spaced([w]) == w
  {
  }

  lemma SqueezedBlank(s: string)
    requires s != "" && Clean(s) && !IsWord(s[0])
    ensures Squeezed(s) == [' '] + Squeezed(StripStart(s))
  {
    assert s[0] in s;
  }

  lemma CleanParts(a: string, b: string)
    requires Clean(a + b)
    ensures Clean(a) && Clean(b)
  {
    forall c | c in a ensures IsWord(c) || IsBlank(c) {
      assert c in a + b;
    }
    forall c | c in b ensures IsWord(c) || IsBlank(c) {
      assert c in a + b;
    }
  }

  lemma CleanHead(s: string)
    requires s != "" && Clean(s) && !IsBlank(s[0])
    ensures IsWord(s[0])
  {
    assert s[0] in s;
  }

  lemma SqueezedStart(s: string)
    requires Clean(s)
    ensures StripStart(Squeezed(s)) == Squeezed(StripStart(s))
  {
    StripStartShape(s);
    if s != "" && IsBlank(s[0]) {
      var next := StripStart(s);
      assert Squeezed(s)[1..] == Squeezed(next);
      assert StripStart(Squeezed(s)) == StripStart(Squeezed(next));
    }
  }

  /** The normal form of a query is its words in lower case, one space apart. */
  lemma NormalForm(query: string)
    ensures NormalizeQuery(query) == Spaced(Words(Lower(query)))
  {
    hide StripStart, StripEnd, Squeezed, Unpunctuated, Words, Spaced;
    var low := Lower(query);
    var clean := Unpunctuated(Strip(low));
    var start := StripStart(clean);
    UnpunctuatedClean(Strip(low));
    SqueezedStart(clean);
    StripStartShape(clean);
    if start != "" {
      CleanHead(start);
    }
    SqueezedIsSpaced(start);
    WordsOfStripStart(clean);
    WordsOfUnpunctuated(Strip(low));
    WordsOfStripEnd(StripStart(low));
    WordsOfStripStart(low);
  }

  // ---------------------------------------------------------------- the normal form has the same words

  lemma {:induction false} WordsOfSpaced(words: seq<string>)
    requires Plain(words)
    ensures Words(Spaced(words)) == words
  {
    if words != [] {
      var w := words[0];
      assert w[0] in w;
      if |words| == 1 {
        assert w == w + "";
        WordThenMore(w, "");
      } else {
        WordThenMore(w, [' '] + Spaced(words[1..]));
        assert w + [' '] + Spaced(words[1..]) == w + ([' '] + Spaced(words[1..]));
        assert ([' '] + Spaced(words[1..]))[1..] == Spaced(words[1..]);
        WordsOfSpaced(words[1..]);
        assert words == [w] + words[1..];
      }
    }
  }

  lemma {:induction false} LowWords(s: string)
    requires Low(s)
    ensures Plain(Words(s))
    decreases |s|
  {
    if s != "" {
      if IsWord(s[0]) {
        TakeThenDrop(s);
        var w, rest := TakeWord(s), DropWord(s);
        assert forall i :: 0 <= i < |w| ==> w[i] == s[i];
        assert forall i :: 0 <= i < |rest| ==> rest[i] == s[|w| + i];
        LowWords(rest);
      } else {
        LowWords(s[1..]);
      }
    }
  }

  lemma {:induction false} SpacedLow(words: seq<string>)
    requires Plain(words)
    ensures Low(Spaced(words))
  {
    if |words| > 1 {
      SpacedLow(words[1..]);
    }
  }

  lemma LowerLow(s: string)
    ensures Low(Lower(s)) && (Low(s) ==> Lower(s) == s)
  {
  }

  /** Normalising a normal form changes nothing. */
  lemma NormalizeIdempotent(query: string)
    ensures NormalizeQuery(NormalizeQuery(query)) == NormalizeQuery(query)
  {
    hide NormalizeQuery, Words, Spaced, Low, Plain, Lower;
    var words := Words(Lower(query));
    NormalForm(query);
    NormalForm(Spaced(words));
    LowerLow(query);
    LowWords(Lower(query));
    SpacedLow(words);
    LowerLow(Spaced(words));
    WordsOfSpaced(words);
  }

  /** Two queries have the same normal form if and only if they have the same words, in the same order, but for case. */
  lemma SameFormExactly(a: string, b: string)
    ensures NormalizeQuery(a) == NormalizeQuery(b) <==> Words(Lower(a)) == Words(Lower(b))
  {
    hide NormalizeQuery, Words, Spaced, Low, Plain, Lower;
    NormalForm(a);
    NormalForm(b);
    LowerLow(a);
    LowerLow(b);
    LowWords(Lower(a));
    LowWords(Lower(b));
    WordsOfSpaced(Words(Lower(a)));
    WordsOfSpaced(Words(Lower(b)));
  }

  // ---------------------------------------------------------------- keys

  /** SHA-256 in hexadecimal, taken to be injective. */
  type Hash = string -> string

  ghost predicate IsHash(h: Hash) {
    && (forall s :: |h(s)| == 64)
    && (forall s, t :: h(s) == h(t) ==> s == t)
  }

  /** `tenant or 'anon'`. */
  function Segment(tenant: Option<string>): string {
    if tenant.None? || tenant.value == "" then "anon" else tenant.value
  }

  /** `ResponseCache._key`. */
  function ResponseKey(h: Hash, version: string, tenant: Option<string>, query: string): string {
    "resp:" + version + ":" + Segment(tenant) + ":" + h(NormalizeQuery(query))
  }

  /** The key of `EmbeddingCache`. */
  function EmbeddingKey(h: Hash, text: string): string {
    "embed:" + h(text)
  }

  /**
   Two requests share a response entry if and only if they have the same tenant segment and the same words; the segment is
   not ambiguous whatever characters a tenant's name holds.
   */
  lemma SharedEntryExactly(
    h: Hash, version: string, tenantA: Option<string>, a: string, tenantB: Option<string>, b: string)
    requires IsHash(h)
    ensures ResponseKey(h, version, tenantA, a) == ResponseKey(h, version, tenantB, b)
       <==> Segment(tenantA) == Segment(tenantB) && Words(Lower(a)) == Words(Lower(b))
  {
    hide NormalizeQuery, Words, Lower;
    SameFormExactly(a, b);
    var head := "resp:" + version + ":";
    SplitKey(head, Segment(tenantA), h(NormalizeQuery(a)), Segment(tenantB), h(NormalizeQuery(b)));
  }

  lemma SplitKey(head: string, segA: string, hashA: string, segB: string, hashB: string)
    requires |hashA| == |hashB|
    ensures head + segA + ":" + hashA == head + segB + ":" + hashB <==> segA == segB && hashA == hashB
  {
    var a, b := head + segA + ":" + hashA, head + segB + ":" + hashB;
    if a == b {
      assert |segA| == |segB|;
      assert segA == a[|head|..|head| + |segA|] && segB == b[|head|..|head| + |segB|];
      assert hashA == a[|a| - |hashA|..] && hashB == b[|b| - |hashB|..];
    }
  }

  /** Requests without a tenant, with an empty one and with one named `anon` share a segment; any two others do not. */
  lemma SegmentExactly(a: Option<string>, b: Option<string>)
    ensures Segment(a) == Segment(b) <==> a == b || (Anonymous(a) && Anonymous(b))
  {
  }

  predicate Anonymous(tenant: Option<string>) {
    tenant == None || tenant == Some("") || tenant == Some("anon")
  }

  /** Embeddings and answers never share an entry, and each text has its own embedding entry. */
  lemma EmbeddingEntriesApart(h: Hash, version: string, tenant: Option<string>, query: string, s: string, t: string)
    requires IsHash(h)
    ensures EmbeddingKey(h, s) != ResponseKey(h, version, tenant, query)
    ensures EmbeddingKey(h, s) == EmbeddingKey(h, t) <==> s == t
  {
    hide NormalizeQuery;
    assert EmbeddingKey(h, s)[0] == 'e' && ResponseKey(h, version, tenant, query)[0] == 'r';
    assert h(s) == EmbeddingKey(h, s)[6..] && h(t) == EmbeddingKey(h, t)[6..];
  }
}
