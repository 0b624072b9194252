/** Python's `strip`, `lower` and the `\w` and `\s` classes within ASCII. Other characters count as letters without case. */
module AsciiText {

  predicate IsBlank(c: char) {
    c == ' ' || '\t' <= c <= '\r' || '\U{1c}' <= c <= '\U{1f}'
  }

  predicate IsWord(c: char) {
    'a' <= c <= 'z' || 'A' <= c <= 'Z' || '0' <= c <= '9' || c == '_' || c >= '\U{80}'
  }

  function LowerChar(c: char): char {
    if 'A' <= c <= 'Z' then c - 'A' + 'a' else c
  }

  function Lower(s: string): (r: string)
    ensures |r| == |s| && forall i :: 0 <= i < |s| ==> r[i] == LowerChar(s[i])
  {
    seq(|s|, i requires 0 <= i < |s| => LowerChar(s[i]))
  }

  function StripStart(s: string): (r: string)
    ensures |r| <= |s|
  {
    if s != "" && IsBlank(s[0]) then StripStart(s[1..]) else s
  }

  function StripEnd(s: string): string {
    if s != "" && IsBlank(s[|s| - 1]) then StripEnd(s[..|s| - 1]) else s
  }

  function Strip(s: string): string {
    StripEnd(StripStart(s))
  }

  /** By code: the digits, the capitals, the underscore, the small letters, and everything beyond ASCII. */
  lemma WordExactly(c: char)
    ensures var n := c as int;
            IsWord(c) <==> 48 <= n <= 57 || 65 <= n <= 90 || n == 95 || 97 <= n <= 122 || n >= 128
  {
  }

  /** By code: a capital becomes the letter 32 further on, and nothing else changes. */
  lemma LowerCharExactly(c: char)
    ensures var n := c as int;
            LowerChar(c) as int == if 65 <= n <= 90 then n + 32 else n
  {
  }

  /** By code: tab to carriage return, the four separators, and the space. */
  lemma BlankExactly(c: char)
    ensures var n := c as int;
            IsBlank(c) <==> 9 <= n <= 13 || 28 <= n <= 31 || n == 32
  {
  }

  // ---------------------------------------------------------------- what stripping leaves

  /** Stripping takes white space off both ends, and all of it. */
  lemma StripExactly(s: string)
    ensures exists a, b :: Stripped(s, a, Strip(s), b)
    ensures Strip(s) != "" ==> !IsBlank(Strip(s)[0]) && !IsBlank(Strip(s)[|Strip(s)| - 1])
  {
    var a := StartOff(s);
    var b := EndOff(StripStart(s));
    assert s == a + Strip(s) + b;
    assert Stripped(s, a, Strip(s), b);
    EndKeepsStart(StripStart(s));
  }

  ghost predicate Stripped(s: string, before: string, middle: string, rest: string) {
    s == before + middle + rest && AllBlank(before) && AllBlank(rest)
  }

  ghost predicate AllBlank(s: string) {
    forall i :: 0 <= i < |s| ==> IsBlank(s[i])
  }

  /** The white space taken off in front. */
  lemma {:induction false} StartOff(s: string) returns (lead: string)
    ensures AllBlank(lead) && s == lead + StripStart(s)
    ensures StripStart(s) != "" ==> !IsBlank(StripStart(s)[0])
  {
    lead := "";
    if s != "" && IsBlank(s[0]) {
      var rest := StartOff(s[1..]);
      lead := [s[0]] + rest;
      assert s == [s[0]] + s[1..];
    }
  }

  /** The white space taken off at the end. */
  lemma {:induction false} EndOff(s: string) returns (trail: string)
    ensures AllBlank(trail) && s == StripEnd(s) + trail
    ensures StripEnd(s) != "" ==> !IsBlank(StripEnd(s)[|StripEnd(s)| - 1])
  {
    trail := "";
    if s != "" && IsBlank(s[|s| - 1]) {
      var n := |s| - 1;
      var rest := EndOff(s[..n]);
      trail := rest + [s[n]];
      assert s == s[..n] + [s[n]];
      assert StripEnd(s) + (rest + [s[n]]) == StripEnd(s) + rest + [s[n]];
    }
  }

  lemma {:induction false} EndKeepsStart(s: string)
    requires s != "" ==> !IsBlank(s[0])
    ensures StripEnd(s) != "" ==> StripEnd(s)[0] == s[0]
  {
    if s != "" && IsBlank(s[|s| - 1]) {
      EndKeepsStart(s[..|s| - 1]);
    }
  }
}
