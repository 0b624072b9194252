/** The Server-Sent Events printer of `streaming.py` and the incremental parser of `sse.ts` and `use-recommend.ts`. */
module Sse {
  import opened Wrappers
  import opened Text

  // ---------------------------------------------------------------- lines

  /** Put one character in front of the first part. */
  function Prepend(c: char, parts: seq<string>): (r: seq<string>)
    requires |parts| >= 1
    ensures |r| == |parts| && r[0] == [c] + parts[0] && r[1..] == parts[1..]
  {
    [[c] + parts[0]] + parts[1..]
  }

  /** `s.split("\n")`. */
  function Split(s: string): (lines: seq<string>)
    ensures |lines| >= 1
  {
    if s == "" then [""]
    else
      var rest := Split(s[1..]);
      if s[0] == '\n' then [""] + rest else Prepend(s[0], rest)
  }

  /** `"\n".join(lines)`. */
  function Join(lines: seq<string>): string {
    if |lines| == 0 then ""
    else if |lines| == 1 then lines[0]
    else lines[0] + "\n" + Join(lines[1..])
  }

  lemma {:induction false} JoinSplit(s: string)
    ensures Join(Split(s)) == s
    ensures forall i :: 0 <= i < |Split(s)| ==> '\n' !in Split(s)[i]
  {
    if s != "" {
      var rest := Split(s[1..]);
      assert s == [s[0]] + s[1..];
      JoinSplit(s[1..]);
      if s[0] == '\n' {
        assert ([""] + rest)[1..] == rest;
      } else {
        var parts := Prepend(s[0], rest);
        forall i | 0 <= i < |parts| ensures '\n' !in parts[i] {
          if i > 0 {
            assert parts[i] == parts[1..][i - 1] == rest[i];
          }
        }
        assert Join(parts) == [s[0]] + Join(rest);
      }
    }
  }

  lemma {:induction false} SplitPrefixLine(line: string, tail: string)
    requires '\n' !in line
    ensures Split(line + "\n" + tail) == [line] + Split(tail)
  {
    var s := line + "\n" + tail;
    if line == "" {
      assert s[1..] == tail;
    } else {
      SplitPrefixLine(line[1..], tail);
      assert s[1..] == line[1..] + "\n" + tail;
      assert [s[0]] + line[1..] == line;
    }
  }

  lemma {:induction false} SplitOneLine(line: string)
    requires '\n' !in line
    ensures Split(line) == [line]
  {
    if line != "" {
      SplitOneLine(line[1..]);
      assert [line[0]] + line[1..] == line;
    }
  }

  lemma {:induction false} SplitJoin(lines: seq<string>)
    requires |lines| >= 1
    requires forall i :: 0 <= i < |lines| ==> '\n' !in lines[i]
    ensures Split(Join(lines)) == lines
  {
    if |lines| == 1 {
      SplitOneLine(lines[0]);
    } else {
      SplitPrefixLine(lines[0], Join(lines[1..]));
      SplitJoin(lines[1..]);
    }
  }

  // ---------------------------------------------------------------- printer

  function DataLines(chunks: seq<string>): (r: seq<string>)
    ensures |r| == |chunks| && forall i :: 0 <= i < |r| ==> r[i] == "data: " + chunks[i]
  {
    seq(|chunks|, i requires 0 <= i < |chunks| => "data: " + chunks[i])
  }

  function FrameLines(data: string, event: Option<string>): seq<string> {
    (if event.Some? then ["event: " + event.value] else []) + DataLines(Split(data))
  }

  /** The frame without its closing blank line. */
  function Body(data: string, event: Option<string>): string {
    Join(FrameLines(data, event))
  }

  /** `sse_event`: one `event:` line if named, one `data:` line per line of data, a blank line. */
  method SseEvent(data: string, event: Option<string>) returns (frame: string)
    ensures frame == Body(data, event) + "\n\n"
  {
    var lines: seq<string> := [];
    if event.Some? {
      lines := lines + ["event: " + event.value];
    }
    hide Split, Join;
    var head := lines;
    var chunks := Split(data);
    for i := 0 to |chunks|
      invariant lines == head + DataLines(chunks)[..i]
    {
      lines := lines + ["data: " + chunks[i]];
    }
    assert DataLines(chunks)[..|chunks|] == DataLines(chunks);
    frame := Join(lines) + "\n\n";
  }

  /** What the API route writes: one frame a token, then the done frame. */
  function Wire(tokens: seq<string>): string {
    if tokens == [] then Body("[DONE]", Some("done")) + "\n\n"
    else Body(tokens[0], Some("token")) + "\n\n" + Wire(tokens[1..])
  }

  // ---------------------------------------------------------------- parser

  /** `replace(/\r/g, "")`. */
  function StripCR(s: string): string {
    if s == "" then ""
    else if s[0] == '\r' then StripCR(s[1..])
    else [s[0]] + StripCR(s[1..])
  }

  /** `replace(/\r\n/g, "\n")`: one pass, so a `\r` left before a `\n` by the pass stays. */
  function NormalizeNewlines(s: string): string {
    if |s| < 2 then s
    else if s[0] == '\r' && s[1] == '\n' then "\n" + NormalizeNewlines(s[2..])
    else [s[0]] + NormalizeNewlines(s[1..])
  }

  /** `split("\n\n")`: leftmost, non-overlapping. */
  function SplitBlank(s: string): (parts: seq<string>)
    ensures |parts| >= 1
  {
    if |s| < 2 then [s]
    else if s[0] == '\n' && s[1] == '\n' then [""] + SplitBlank(s[2..])
    else Prepend(s[0], SplitBlank(s[1..]))
  }

  function NonBlank(parts: seq<string>): seq<string> {
    if parts == [] then []
    else (if Trim(parts[0]) != "" then [parts[0]] else []) + NonBlank(parts[1..])
  }

  datatype Frames = Frames(frames: seq<string>, rest: string)

  /** `splitFrames`: the complete frames of a buffer and the partial one to carry over. */
  function SplitFrames(buffer: string): Frames {
    var parts := SplitBlank(NormalizeNewlines(buffer));
    Frames(NonBlank(parts[..|parts| - 1]), parts[|parts| - 1])
  }

  datatype Frame = Frame(event: Option<string>, data: string)
  datatype Fields = Fields(event: Option<string>, dataLines: seq<string>)

  function DropOneSpace(s: string): string {
    if s != "" && s[0] == ' ' then s[1..] else s
  }

  function ParseLine(line: string, acc: Fields): Fields {
    if "event:" <= line then acc.(event := Some(Trim(line[6..])))
    else if "data:" <= line then acc.(dataLines := acc.dataLines + [DropOneSpace(line[5..])])
    else acc
  }

  function ParseLines(lines: seq<string>, acc: Fields): Fields {
    if lines == [] then acc else ParseLines(lines[1..], ParseLine(lines[0], acc))
  }

  function ParseFrame(block: string): Option<Frame> {
    var normalized := StripCR(block);
    if Trim(normalized) == "" then None
    else
      var f := ParseLines(Split(normalized), Fields(None, []));
      Some(Frame(f.event, Join(f.dataLines)))
  }

  /** `parseSSEFrame`, as the loop it is. */
  method ParseSSEFrame(block: string) returns (frame: Option<Frame>)
    ensures frame == ParseFrame(block)
  {
    var normalized := StripCR(block);
    if Trim(normalized) == "" {
      return None;
    }
    var event: Option<string> := None;
    var dataLines: seq<string> := [];
    var lines := Split(normalized);
    for i := 0 to |lines|
      invariant ParseLines(lines, Fields(None, [])) == ParseLines(lines[i..], Fields(event, dataLines))
    {
      var line := lines[i];
      assert lines[i..][1..] == lines[i + 1..];
      if "event:" <= line {
        event := Some(Trim(line[6..]));
      } else if "data:" <= line {
        dataLines := dataLines + [DropOneSpace(line[5..])];
      }
    }
    frame := Some(Frame(event, Join(dataLines)));
  }

  // ---------------------------------------------------------------- the read loop

  /** How the read loop ended: the accumulated text, and whether a done frame (rather than the end of the body) ended it. */
  datatype Reading = Reading(text: string, sawDone: bool)

  function OnFrames(frames: seq<string>, text: string): Reading {
    if frames == [] then Reading(text, false)
    else
      match ParseFrame(frames[0])
      case None => OnFrames(frames[1..], text)
      case Some(f) =>
        if f.event == Some("done") || f.data == "[DONE]" then Reading(text, true)
        else OnFrames(frames[1..], if f.event == Some("token") then text + f.data else text)
  }

  function ReadAll(cuts: seq<string>, buffer: string, text: string): Reading {
    if cuts == [] then Reading(text, false)
    else
      var split := SplitFrames(buffer + cuts[0]);
      var r := OnFrames(split.frames, text);
      if r.sawDone then r else ReadAll(cuts[1..], split.rest, r.text)
  }

  /** The loop of `start`: buffer, split, parse, append, stop at a done frame. The status ends `done` either way. */
  method ReadStream(cuts: seq<string>) returns (text: string, sawDone: bool)
    ensures Reading(text, sawDone) == ReadAll(cuts, "", "")
  {
    text, sawDone := "", false;
    var buffer := "";
    for n := 0 to |cuts|
      invariant !sawDone
      invariant ReadAll(cuts, "", "") == ReadAll(cuts[n..], buffer, text)
    {
      var split := SplitFrames(buffer + cuts[n]);
      buffer := split.rest;
      ghost var before := text;
      assert cuts[n..][1..] == cuts[n + 1..];
      for j := 0 to |split.frames|
        invariant !sawDone
        invariant OnFrames(split.frames, before) == OnFrames(split.frames[j..], text)
      {
        var frame := ParseSSEFrame(split.frames[j]);
        assert split.frames[j..][1..] == split.frames[j + 1..];
        if frame.Some? {
          if frame.value.event == Some("done") || frame.value.data == "[DONE]" {
            sawDone := true;
            return;
          }
          if frame.value.event == Some("token") {
            text := text + frame.value.data;
          }
        }
      }
    }
  }

  // ---------------------------------------------------------------- carriage returns

  /** No carriage return directly after a newline: true of every printed stream. */
  ghost predicate NoNlCr(s: string) {
    forall j :: 0 <= j < |s| - 1 ==> s[j] == '\n' ==> s[j + 1] != '\r'
  }

  lemma {:induction false} StripAppend(a: string, b: string)
    ensures StripCR(a + b) == StripCR(a) + StripCR(b)
  {
    if a == "" {
      assert a + b == b;
    } else {
      assert (a + b)[1..] == a[1..] + b;
      StripAppend(a[1..], b);
    }
  }

  lemma {:induction false} StripMembers(s: string)
    ensures forall c :: c in StripCR(s) <==> c in s && c != '\r'
  {
    if s != "" {
      assert s == [s[0]] + s[1..];
      StripMembers(s[1..]);
    }
  }

  lemma {:induction false} StripLength(s: string)
    ensures |StripCR(s)| <= |s|
    ensures '\r' !in s ==> StripCR(s) == s
    ensures |StripCR(s)| == |s| <==> '\r' !in s
  {
    if s != "" {
      assert s == [s[0]] + s[1..];
      StripLength(s[1..]);
    }
  }

  /** Strip every part. */
  function StripAll(parts: seq<string>): (r: seq<string>)
    ensures |r| == |parts| && forall i :: 0 <= i < |r| ==> r[i] == StripCR(parts[i])
  {
    if parts == [] then [] else [StripCR(parts[0])] + StripAll(parts[1..])
  }

  lemma StripPrepend(c: char, parts: seq<string>)
    requires |parts| >= 1
    ensures StripAll(Prepend(c, parts)) == if c == '\r' then StripAll(parts) else Prepend(c, StripAll(parts))
  {
    assert ([c] + parts[0])[1..] == parts[0];
    assert StripAll(parts)[1..] == StripAll(parts[1..]);
  }

  lemma {:induction false} NormalizeStrips(s: string)
    ensures StripCR(NormalizeNewlines(s)) == StripCR(s)
  {
    if |s| >= 2 {
      if s[0] == '\r' && s[1] == '\n' {
        assert s[1..][1..] == s[2..];
        assert ("\n" + NormalizeNewlines(s[2..]))[1..] == NormalizeNewlines(s[2..]);
        NormalizeStrips(s[2..]);
      } else {
        assert ([s[0]] + NormalizeNewlines(s[1..]))[1..] == NormalizeNewlines(s[1..]);
        NormalizeStrips(s[1..]);
      }
    }
  }

  lemma NoNlCrConcat(a: string, b: string)
    ensures NoNlCr(a + b) <==> NoNlCr(a) && NoNlCr(b) && !(a != "" && b != "" && a[|a| - 1] == '\n' && b[0] == '\r')
  {
    var s := a + b;
    if NoNlCr(s) {
      forall j | 0 <= j < |a| - 1 && a[j] == '\n' ensures a[j + 1] != '\r' {
        assert s[j] == a[j] && s[j + 1] == a[j + 1];
      }
      forall j | 0 <= j < |b| - 1 && b[j] == '\n' ensures b[j + 1] != '\r' {
        assert s[|a| + j] == b[j] && s[|a| + j + 1] == b[j + 1];
      }
      if a != "" && b != "" {
        assert s[|a| - 1] == a[|a| - 1] && s[|a| - 1 + 1] == b[0];
      }
    }
  }

  lemma {:induction false} NormalizeKeeps(s: string)
    requires NoNlCr(s)
    ensures var n := NormalizeNewlines(s);
            NoNlCr(n) && (s == "" <==> n == "")
            && (s != "" ==> n[|n| - 1] == s[|s| - 1] && (n[0] == s[0] || n[0] == '\n'))
  {
    if |s| >= 2 {
      if s[0] == '\r' && s[1] == '\n' {
        assert s == s[..2] + s[2..];
        NoNlCrConcat(s[..2], s[2..]);
        NormalizeKeeps(s[2..]);
        NoNlCrConcat("\n", NormalizeNewlines(s[2..]));
      } else {
        assert s == s[..1] + s[1..];
        NoNlCrConcat(s[..1], s[1..]);
        NormalizeKeeps(s[1..]);
        NoNlCrConcat([s[0]], NormalizeNewlines(s[1..]));
      }
    }
  }

  /** Removing carriage returns commutes with splitting at blank lines when none follows a newline. */
  lemma {:induction false} StripSplitsAlike(s: string)
    requires NoNlCr(s)
    ensures StripAll(SplitBlank(s)) == SplitBlank(StripCR(s))
    decreases |s|, 1
  {
    if |s| < 2 {
      if s != "" {
        assert s[1..] == "";
      }
    } else if s[0] == '\n' && s[1] == '\n' {
      StripSplitsBlank(s);
    } else {
      assert s == s[..1] + s[1..];
      NoNlCrConcat(s[..1], s[1..]);
      StripSplitsAlike(s[1..]);
      StripPrepend(s[0], SplitBlank(s[1..]));
      if s[0] != '\r' {
        var t := StripCR(s);
        assert t == [s[0]] + StripCR(s[1..]);
        assert t[1..] == StripCR(s[1..]);
        if s[0] == '\n' {
          assert s[1] != '\r';
        }
        if |t| < 2 {
          assert StripCR(s[1..]) == "";
        }
      }
    }
  }

  lemma {:induction false} StripSplitsBlank(s: string)
    requires NoNlCr(s) && |s| >= 2 && s[0] == '\n' && s[1] == '\n'
    ensures StripAll(SplitBlank(s)) == SplitBlank(StripCR(s))
    decreases |s|, 0
  {
    var later := s[2..];
    assert s == "\n\n" + later;
    NoNlCrConcat("\n\n", later);
    StripSplitsAlike(later);
    StripAppend("\n\n", later);
    StripLength("\n\n");
    SplitAfterBlank(later);
    SplitAfterBlank(StripCR(later));
    var rest := SplitBlank(later);
    assert ([""] + rest)[1..] == rest;
  }

  lemma SplitAfterBlank(later: string)
    ensures SplitBlank("\n\n" + later) == [""] + SplitBlank(later)
  {
    assert ("\n\n" + later)[2..] == later;
  }

  // ---------------------------------------------------------------- blank lines

  ghost predicate NoBlank(s: string) {
    forall j :: 0 <= j < |s| - 1 ==> s[j] == '\n' ==> s[j + 1] != '\n'
  }

  /** A frame body: not empty, no blank line inside, no newline at its end. */
  ghost predicate IsBody(f: string) {
    f != "" && NoBlank(f) && f[|f| - 1] != '\n'
  }

  ghost function Encoded(frames: seq<string>): string {
    if frames == [] then "" else frames[0] + "\n\n" + Encoded(frames[1..])
  }

  lemma NoBlankShort(s: string)
    requires |s| < 2
    ensures NoBlank(s)
  {
  }

  lemma NoBlankCons(c: char, t: string)
    ensures NoBlank([c] + t) <==> NoBlank(t) && !(c == '\n' && t != "" && t[0] == '\n')
  {
    var s := [c] + t;
    if NoBlank(s) {
      forall j | 0 <= j < |t| - 1 && t[j] == '\n' ensures t[j + 1] != '\n' {
        assert s[1 + j] == t[j] && s[1 + j + 1] == t[j + 1];
      }
      if t != "" {
        assert s[0] == c && s[0 + 1] == t[0];
      }
    }
  }

  lemma {:induction false} SplitNoBlank(s: string)
    requires NoBlank(s)
    ensures SplitBlank(s) == [s]
  {
    if |s| >= 2 {
      assert s == [s[0]] + s[1..];
      NoBlankCons(s[0], s[1..]);
      SplitNoBlank(s[1..]);
    }
  }

  lemma {:induction false} SplitFront(f: string, tail: string)
    requires NoBlank(f) && (f != "" ==> f[|f| - 1] != '\n')
    ensures SplitBlank(f + "\n\n" + tail) == [f] + SplitBlank(tail)
  {
    var s := f + "\n\n" + tail;
    if f == "" {
      assert s[2..] == tail;
    } else {
      assert f == [f[0]] + f[1..];
      NoBlankCons(f[0], f[1..]);
      SplitFront(f[1..], tail);
      assert s[1..] == f[1..] + "\n\n" + tail;
      assert !(s[0] == '\n' && s[1] == '\n') by {
        if |f| > 1 {
          assert s[1] == f[1];
        }
      }
      assert Prepend(f[0], [f[1..]] + SplitBlank(tail)) == [f] + SplitBlank(tail);
    }
  }

  /** The remainder is a suffix of the buffer with no blank line left in it. */
  lemma {:induction false} LastPart(s: string)
    ensures var parts := SplitBlank(s);
            var last := parts[|parts| - 1];
            NoBlank(last) && |last| <= |s| && s[|s| - |last|..] == last && (|parts| == 1 ==> last == s)
  {
    hide NoBlank;
    if |s| < 2 {
      NoBlankShort(s);
    } else if s[0] == '\n' && s[1] == '\n' {
      LastPart(s[2..]);
    } else {
      LastPart(s[1..]);
      var rest := SplitBlank(s[1..]);
      assert s == [s[0]] + s[1..];
      if |rest| == 1 {
        NoBlankCons(s[0], s[1..]);
      } else {
        assert SplitBlank(s)[|rest| - 1] == SplitBlank(s)[1..][|rest| - 2] == rest[|rest| - 1];
      }
    }
  }

  lemma EncodedCons(frames: seq<string>)
    ensures Encoded(frames) == if frames == [] then "" else frames[0] + "\n\n" + Encoded(frames[1..])
  {
  }

  lemma CutFront(f: string, later: string, buffer: string, unread: string)
    requires buffer + unread == f + "\n\n" + later && |buffer| >= |f| + 2
    ensures buffer == f + "\n\n" + buffer[|f| + 2..]
    ensures buffer[|f| + 2..] + unread == later
  {
    var whole := f + "\n\n" + later;
    assert whole[..|f| + 2] == f + "\n\n";
    assert (buffer + unread)[..|f| + 2] == buffer[..|f| + 2];
    assert whole[|f| + 2..] == later;
    assert (buffer + unread)[|f| + 2..] == buffer[|f| + 2..] + unread;
  }

  lemma PartialFrame(f: string, later: string, buffer: string, unread: string)
    requires buffer + unread == f + "\n\n" + later && |buffer| < |f| + 2 && IsBody(f)
    ensures NoBlank(buffer)
  {
    var whole := f + "\n\n" + later;
    forall j | 0 <= j < |buffer| - 1 && buffer[j] == '\n' ensures buffer[j + 1] != '\n' {
      assert buffer[j] == whole[j] == f[j];
      assert j + 1 < |f|;
      assert buffer[j + 1] == whole[j + 1] == f[j + 1];
    }
  }

  lemma ShiftParts(f: string, rest: seq<string>, frames: seq<string>)
    requires frames != [] && frames[0] == f && |rest| >= 1
    requires |rest| <= |frames| && rest[..|rest| - 1] == frames[1..][..|rest| - 1]
    ensures ([f] + rest)[..|rest|] == frames[..|rest|]
    ensures frames[1..][|rest| - 1..] == frames[|rest|..]
  {
    forall i | 0 < i < |rest| ensures ([f] + rest)[i] == frames[i] {
      assert rest[..|rest| - 1][i - 1] == frames[1..][..|rest| - 1][i - 1];
    }
  }

  /** Splitting any prefix of an encoded stream yields its complete frames and carries the rest. */
  lemma {:induction false} SplitStream(buffer: string, unread: string, frames: seq<string>)
    requires buffer + unread == Encoded(frames)
    requires forall i :: 0 <= i < |frames| ==> IsBody(frames[i])
    ensures var parts := SplitBlank(buffer);
            var m := |parts| - 1;
            m <= |frames| && parts[..m] == frames[..m] && parts[m] + unread == Encoded(frames[m..])
    decreases |frames|
  {
    hide Encoded, SplitBlank;
    if frames != [] {
      var f := frames[0];
      var later := Encoded(frames[1..]);
      EncodedCons(frames);
      if |buffer| >= |f| + 2 {
        var rest := buffer[|f| + 2..];
        CutFront(f, later, buffer, unread);
        SplitFront(f, rest);
        SplitStream(rest, unread, frames[1..]);
        ShiftParts(f, SplitBlank(rest), frames);
      } else {
        PartialFrame(f, later, buffer, unread);
        SplitNoBlank(buffer);
        assert frames[0..] == frames;
      }
    } else {
      EncodedCons(frames);
      SplitNoBlank(buffer);
    }
  }

  // ---------------------------------------------------------------- printed frames

  lemma {:induction false} JoinIsBody(lines: seq<string>)
    requires |lines| >= 1
    requires forall i :: 0 <= i < |lines| ==> lines[i] != "" && '\n' !in lines[i] && lines[i][0] != '\r'
    ensures IsBody(Join(lines)) && NoNlCr(Join(lines))
    ensures Join(lines)[0] == lines[0][0]
  {
    var first := lines[0];
    if |lines| > 1 {
      var rest := Join(lines[1..]);
      JoinIsBody(lines[1..]);
      assert lines[1..][0] == lines[1];
      LineThenBody(first, rest);
    }
  }

  lemma LineThenBody(line: string, rest: string)
    requires line != "" && '\n' !in line
    requires IsBody(rest) && NoNlCr(rest) && rest[0] != '\n' && rest[0] != '\r'
    ensures IsBody(line + "\n" + rest) && NoNlCr(line + "\n" + rest)
  {
    var s := line + "\n" + rest;
    assert s[|s| - 1] == rest[|rest| - 1];
    forall j | 0 <= j < |line| ensures s[j] != '\n' {
      assert line[j] in line;
    }
    forall j | |line| <= j < |s| - 1 && s[j] == '\n' ensures s[j + 1] != '\n' && s[j + 1] != '\r' {
      if j == |line| {
        assert s[j + 1] == rest[0];
      } else {
        assert rest[j - |line| - 1] == s[j] && rest[j - |line| - 1 + 1] == s[j + 1];
      }
    }
  }

  lemma BodyIsBody(data: string, event: string)
    requires '\n' !in event
    ensures IsBody(Body(data, Some(event))) && NoNlCr(Body(data, Some(event)))
    ensures Body(data, Some(event))[0] == 'e'
  {
    JoinSplit(data);
    var lines := FrameLines(data, Some(event));
    assert lines[0] == "event: " + event;
    JoinIsBody(lines);
  }

  lemma {:induction false} StripSplit(s: string)
    ensures Split(StripCR(s)) == StripAll(Split(s))
  {
    if s != "" {
      var rest := Split(s[1..]);
      StripSplit(s[1..]);
      if s[0] == '\n' {
        assert ([""] + rest)[1..] == rest;
        assert StripCR(s)[1..] == StripCR(s[1..]);
      } else {
        StripPrepend(s[0], rest);
        if s[0] != '\r' {
          assert StripCR(s)[1..] == StripCR(s[1..]);
        }
      }
    }
  }

  lemma {:induction false} StripJoin(lines: seq<string>)
    ensures StripCR(Join(lines)) == Join(StripAll(lines))
  {
    if |lines| > 1 {
      assert StripAll(lines)[1..] == StripAll(lines[1..]);
      StripJoin(lines[1..]);
      StripAppend(lines[0] + "\n", Join(lines[1..]));
      StripAppend(lines[0], "\n");
      StripLength("\n");
    }
  }

  lemma StripLine(field: string, value: string)
    requires '\r' !in field
    ensures StripCR(field + value) == field + StripCR(value)
  {
    StripAppend(field, value);
    StripLength(field);
  }

  /** Removing carriage returns from a printed frame prints the data without them. */
  lemma StripBody(data: string, event: string)
    requires '\r' !in event
    ensures StripCR(Body(data, Some(event))) == Body(StripCR(data), Some(event))
  {
    hide Split, Join, StripCR;
    var chunks := Split(data);
    var lines := ["event: " + event] + DataLines(chunks);
    assert FrameLines(data, Some(event)) == lines;
    StripJoin(lines);
    StripSplit(data);
    var stripped := ["event: " + event] + DataLines(StripAll(chunks));
    assert FrameLines(StripCR(data), Some(event)) == stripped;
    StripLine("event: ", event);
    StripLength(event);
    forall i | 0 < i < |lines| ensures StripCR(lines[i]) == stripped[i] {
      StripLine("data: ", chunks[i - 1]);
    }
    assert StripAll(lines) == stripped;
  }

  lemma {:induction false} ParseDataLines(chunks: seq<string>, acc: Fields)
    ensures ParseLines(DataLines(chunks), acc) == acc.(dataLines := acc.dataLines + chunks)
  {
    if chunks == [] {
      assert acc.dataLines + chunks == acc.dataLines;
    } else {
      var line := "data: " + chunks[0];
      assert line[5..] == " " + chunks[0];
      assert DropOneSpace(line[5..]) == chunks[0];
      var next := acc.(dataLines := acc.dataLines + [chunks[0]]);
      assert line[0] == 'd';
      assert ParseLine(line, acc) == next;
      assert DataLines(chunks)[1..] == DataLines(chunks[1..]);
      ParseDataLines(chunks[1..], next);
      assert acc.dataLines + [chunks[0]] + chunks[1..] == acc.dataLines + chunks;
    }
  }

  lemma TrimNames()
    ensures Trim(" token") == "token" && Trim(" done") == "done"
  {
    assert " token"[1..] == "token" && " done"[1..] == "done";
    assert TrimStart(" token") == TrimStart("token") == "token";
    assert TrimStart(" done") == TrimStart("done") == "done";
  }

  /** Parsing the lines of a printed frame gives back its event and its data lines. */
  lemma ParseBodyLines(data: string, event: string)
    requires event == "token" || event == "done"
    ensures ParseLines(FrameLines(data, Some(event)), Fields(None, [])) == Fields(Some(event), Split(data))
  {
    hide Split, Trim;
    var lines := FrameLines(data, Some(event));
    var start := Fields(Some(event), []);
    assert lines[0] == "event: " + event;
    TrimNames();
    assert lines[0][6..] == " " + event;
    assert " " + "token" == " token" && " " + "done" == " done";
    assert "event:" <= lines[0];
    assert lines[1..] == DataLines(Split(data));
    ParseDataLines(Split(data), start);
    assert [] + Split(data) == Split(data);
  }

  /** Parsing a printed frame gives back its event and its data, carriage returns removed. */
  lemma ParsePrinted(block: string, data: string, event: string)
    requires event == "token" || event == "done"
    requires StripCR(block) == Body(StripCR(data), Some(event))
    ensures ParseFrame(block) == Some(Frame(Some(event), StripCR(data)))
    ensures Trim(block) != ""
  {
    var d := StripCR(data);
    var lines := FrameLines(d, Some(event));
    JoinSplit(d);
    assert lines[0] == "event: " + event;
    SplitJoin(lines);
    BodyIsBody(d, event);
    assert 'e' in StripCR(block);
    VisibleNotBlank(StripCR(block), 'e');
    StripMembers(block);
    VisibleNotBlank(block, 'e');
    ParseBodyLines(d, event);
  }

  // ---------------------------------------------------------------- the theorem

  /** What the reader keeps: tokens without carriage returns, up to the first that cuts `[DONE]`. */
  function Kept(tokens: seq<string>): string {
    if tokens == [] || StripCR(tokens[0]) == "[DONE]" then ""
    else StripCR(tokens[0]) + Kept(tokens[1..])
  }

  ghost function Bodies(tokens: seq<string>): (r: seq<string>)
    ensures |r| == |tokens| + 1
  {
    if tokens == [] then [Body("[DONE]", Some("done"))]
    else [Body(StripCR(tokens[0]), Some("token"))] + Bodies(tokens[1..])
  }

  lemma {:induction false} BodiesAreBodies(tokens: seq<string>)
    ensures forall i :: 0 <= i < |Bodies(tokens)| ==> IsBody(Bodies(tokens)[i])
  {
    if tokens == [] {
      BodyIsBody("[DONE]", "done");
    } else {
      BodyIsBody(StripCR(tokens[0]), "token");
      BodiesAreBodies(tokens[1..]);
    }
  }

  /** The stream, without carriage returns, is the frames one after another, and no frame holds a blank line. */
  lemma {:induction false} WireShape(tokens: seq<string>)
    ensures StripCR(Wire(tokens)) == Encoded(Bodies(tokens))
    ensures NoNlCr(Wire(tokens)) && Wire(tokens) != "" && Wire(tokens)[0] == 'e'
    ensures forall i :: 0 <= i < |Bodies(tokens)| ==> IsBody(Bodies(tokens)[i])
  {
    BodiesAreBodies(tokens);
    if tokens == [] {
      FrameThenWire("[DONE]", "done", "");
      StripLength("[DONE]");
      var b := Body("[DONE]", Some("done"));
      assert Encoded([b]) == b + "\n\n" + Encoded([]);
      assert Wire(tokens) == b + "\n\n" + "";
    } else {
      WireShape(tokens[1..]);
      FrameThenWire(tokens[0], "token", Wire(tokens[1..]));
      assert Bodies(tokens)[1..] == Bodies(tokens[1..]);
    }
  }

  lemma FrameThenWire(data: string, event: string, tail: string)
    requires event == "token" || event == "done"
    requires NoNlCr(tail) && (tail != "" ==> tail[0] == 'e')
    ensures var wire := Body(data, Some(event)) + "\n\n" + tail;
            StripCR(wire) == Body(StripCR(data), Some(event)) + "\n\n" + StripCR(tail)
            && NoNlCr(wire) && wire != "" && wire[0] == 'e'
  {
    hide Body, StripCR;
    var body := Body(data, Some(event));
    StripBody(data, event);
    BodyIsBody(data, event);
    StripAppend(body + "\n\n", tail);
    StripAppend(body, "\n\n");
    StripLength("\n\n");
    NoNlCrConcat(body, "\n\n");
    NoNlCrConcat(body + "\n\n", tail);
  }

  lemma {:induction false} BodiesSuffix(tokens: seq<string>, m: nat)
    requires m <= |tokens|
    ensures Bodies(tokens)[m..] == Bodies(tokens[m..])
  {
    if m > 0 {
      assert Bodies(tokens)[1..] == Bodies(tokens[1..]);
      assert Bodies(tokens)[m..] == Bodies(tokens)[1..][m - 1..];
      assert tokens[1..][m - 1..] == tokens[m..];
      BodiesSuffix(tokens[1..], m - 1);
    }
  }

  lemma FirstPart(part: string, tokens: seq<string>)
    requires StripCR(part) == Bodies(tokens)[0]
    ensures Trim(part) != ""
    ensures ParseFrame(part) ==
            if tokens == [] then Some(Frame(Some("done"), "[DONE]")) else Some(Frame(Some("token"), StripCR(tokens[0])))
  {
    if tokens == [] {
      StripLength("[DONE]");
      ParsePrinted(part, "[DONE]", "done");
    } else {
      ParsePrinted(part, tokens[0], "token");
    }
  }

  /** The parts are, up to carriage returns, the first frames the tokens print. */
  ghost predicate Printed(parts: seq<string>, tokens: seq<string>) {
    parts != [] ==>
      && StripCR(parts[0]) == Bodies(tokens)[0]
      && (if tokens == [] then |parts| == 1 else Printed(parts[1..], tokens[1..]))
  }

  lemma {:induction false} PrintedParts(parts: seq<string>, tokens: seq<string>)
    requires |parts| <= |tokens| + 1
    requires forall i :: 0 <= i < |parts| ==> StripCR(parts[i]) == Bodies(tokens)[i]
    ensures Printed(parts, tokens)
  {
    if parts != [] && tokens != [] {
      assert Bodies(tokens)[1..] == Bodies(tokens[1..]);
      PrintedParts(parts[1..], tokens[1..]);
    }
  }

  /** The complete frames of a read are tokens, then the done frame; none is dropped as blank. */
  lemma {:induction false} HandleParts(parts: seq<string>, tokens: seq<string>, text: string)
    requires Printed(parts, tokens)
    ensures NonBlank(parts) == parts
    ensures var r := OnFrames(parts, text);
            if r.sawDone then r.text == text + Kept(tokens)
            else |parts| <= |tokens| && r.text + Kept(tokens[|parts|..]) == text + Kept(tokens)
  {
    hide Bodies, ParseFrame, Trim, StripCR;
    if parts == [] {
      assert tokens[0..] == tokens;
    } else {
      FirstPart(parts[0], tokens);
      assert parts == [parts[0]] + parts[1..];
      if tokens == [] {
        assert parts[1..] == [];
      } else {
        var t := StripCR(tokens[0]);
        HandleParts(parts[1..], tokens[1..], text + t);
        assert (text + t) + Kept(tokens[1..]) == text + (t + Kept(tokens[1..]));
        if |parts| <= |tokens| {
          assert tokens[1..][|parts| - 1..] == tokens[|parts|..];
        }
      }
    }
  }

  /** A read starts here: what is buffered and unread is the encoding of the tokens still to come. */
  ghost predicate OnTrack(buffer: string, unread: string, tokens: seq<string>) {
    NoNlCr(buffer + unread) && StripCR(buffer) + StripCR(unread) == Encoded(Bodies(tokens))
  }

  lemma OnTrackRead(buffer: string, read: string, unread: string, tokens: seq<string>)
    requires OnTrack(buffer, read + unread, tokens)
    ensures OnTrack(buffer + read, unread, tokens)
  {
    hide StripCR, Encoded, Bodies;
    assert buffer + (read + unread) == buffer + read + unread;
    StripAppend(read, unread);
    StripAppend(buffer, read);
    assert StripCR(buffer) + (StripCR(read) + StripCR(unread)) == StripCR(buffer) + StripCR(read) + StripCR(unread);
  }

  lemma OnTrackNormalized(raw: string, unread: string, tokens: seq<string>)
    requires OnTrack(raw, unread, tokens)
    ensures OnTrack(NormalizeNewlines(raw), unread, tokens)
  {
    hide StripCR, Encoded, Bodies, NormalizeNewlines;
    NoNlCrConcat(raw, unread);
    NormalizeKeeps(raw);
    NormalizeStrips(raw);
    NoNlCrConcat(NormalizeNewlines(raw), unread);
  }

  lemma RestNoNlCr(norm: string, unread: string)
    requires NoNlCr(norm + unread)
    ensures var parts := SplitBlank(norm); NoNlCr(parts[|parts| - 1] + unread)
  {
    hide SplitBlank;
    var parts := SplitBlank(norm);
    var last := parts[|parts| - 1];
    LastPart(norm);
    var front := norm[..|norm| - |last|];
    assert norm + unread == front + (last + unread);
    NoNlCrConcat(front, last + unread);
  }

  /** Cutting the buffer takes whole frames off the front and loses nothing across the cut. */
  lemma CutBuffer(norm: string, unread: string, tokens: seq<string>)
    requires OnTrack(norm, unread, tokens)
    ensures var parts := SplitBlank(norm);
            var m := |parts| - 1;
            Printed(parts[..m], tokens)
            && NoBlank(StripCR(parts[m]))
            && (m <= |tokens| ==> OnTrack(parts[m], unread, tokens[m..]))
  {
    hide SplitBlank, Bodies, Encoded, StripCR, Body, Printed, StripAll;
    NoNlCrConcat(norm, unread);
    StripSplitsAlike(norm);
    BodiesAreBodies(tokens);
    SplitStream(StripCR(norm), StripCR(unread), Bodies(tokens));
    LastPart(StripCR(norm));
    RestNoNlCr(norm, unread);
    var parts := SplitBlank(norm);
    var m := |parts| - 1;
    var plain := SplitBlank(StripCR(norm));
    forall i | 0 <= i < m ensures StripCR(parts[i]) == Bodies(tokens)[i] {
      assert plain[i] == plain[..m][i];
    }
    PrintedParts(parts[..m], tokens);
    if m <= |tokens| {
      BodiesSuffix(tokens, m);
    }
  }

  lemma EncodedHasBlank(tokens: seq<string>)
    ensures !NoBlank(Encoded(Bodies(tokens)))
  {
    var f := Bodies(tokens)[0];
    var s := f + "\n\n" + Encoded(Bodies(tokens)[1..]);
    assert s == Encoded(Bodies(tokens));
    assert s[|f|] == '\n' && s[|f| + 1] == '\n';
  }

  lemma {:induction false} ReadOn(cuts: seq<string>, buffer: string, text: string, tokens: seq<string>)
    requires OnTrack(buffer, Flat(cuts), tokens)
    requires NoBlank(StripCR(buffer))
    ensures ReadAll(cuts, buffer, text) == Reading(text + Kept(tokens), true)
  {
    hide Body, Encoded, Bodies, Kept, SplitBlank, NormalizeNewlines, OnFrames, NonBlank;
    if cuts == [] {
      assert StripCR(buffer) + StripCR("") == StripCR(buffer);
      EncodedHasBlank(tokens);
      assert false;
    } else {
      var unread := Flat(cuts[1..]);
      OnTrackRead(buffer, cuts[0], unread, tokens);
      OnTrackNormalized(buffer + cuts[0], unread, tokens);
      var norm := NormalizeNewlines(buffer + cuts[0]);
      CutBuffer(norm, unread, tokens);
      HandleRead(norm, text, tokens);
      var split := SplitFrames(buffer + cuts[0]);
      var r := OnFrames(split.frames, text);
      if !r.sawDone {
        var m := |SplitBlank(norm)| - 1;
        ReadOn(cuts[1..], split.rest, r.text, tokens[m..]);
      }
    }
  }

  lemma HandleRead(norm: string, text: string, tokens: seq<string>)
    requires Printed(SplitBlank(norm)[..|SplitBlank(norm)| - 1], tokens)
    ensures var parts := SplitBlank(norm);
            var m := |parts| - 1;
            var r := OnFrames(NonBlank(parts[..m]), text);
            if r.sawDone then r.text == text + Kept(tokens)
            else m <= |tokens| && r.text + Kept(tokens[m..]) == text + Kept(tokens)
  {
    hide SplitBlank, OnFrames, NonBlank, Kept, Printed;
    var parts := SplitBlank(norm);
    HandleParts(parts[..|parts| - 1], tokens, text);
  }

  /** However the printed stream is cut into reads, the loop stops at a done frame with the same text. */
  lemma ChunkIndependence(tokens: seq<string>, cuts: seq<string>)
    requires Flat(cuts) == Wire(tokens)
    ensures ReadAll(cuts, "", "") == Reading(Kept(tokens), true)
  {
    hide ReadAll, Encoded, Bodies, Wire, Flat, Kept;
    WireShape(tokens);
    assert "" + Flat(cuts) == Flat(cuts);
    assert "" + StripCR(Flat(cuts)) == StripCR(Flat(cuts));
    ReadOn(cuts, "", "", tokens);
    assert "" + Kept(tokens) == Kept(tokens);
  }

  lemma {:induction false} KeptLength(tokens: seq<string>)
    ensures |Kept(tokens)| <= |Flat(tokens)|
    ensures |Kept(tokens)| == |Flat(tokens)| <==> forall t :: t in tokens ==> '\r' !in t && t != "[DONE]"
    ensures (forall t :: t in tokens ==> '\r' !in t && t != "[DONE]") ==> Kept(tokens) == Flat(tokens)
  {
    if tokens != [] {
      var t := tokens[0];
      KeptLength(tokens[1..]);
      StripLength(t);
      assert tokens == [t] + tokens[1..];
      assert forall u :: u in tokens <==> u == t || u in tokens[1..];
      if StripCR(t) == "[DONE]" {
        assert |t| >= 6;
      }
    }
  }

  /** The round trip holds exactly for streams whose tokens carry no carriage return and are not the sentinel. */
  lemma RoundTrip(tokens: seq<string>, cuts: seq<string>)
    requires Flat(cuts) == Wire(tokens)
    ensures ReadAll(cuts, "", "") == Reading(Flat(tokens), true)
            <==> forall t :: t in tokens ==> '\r' !in t && t != "[DONE]"
  {
    ChunkIndependence(tokens, cuts);
    KeptLength(tokens);
  }
}
