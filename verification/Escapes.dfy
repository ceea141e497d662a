/**
 * Removing terminal styling from an escaped capture (`cyclops-manifest`
 * strip_csi): CSI sequences (section 5.4 of ECMA-48) and OSC strings.
 */
module Escapes {

  const ESC: char := '\U{1b}'
  const BEL: char := '\U{7}'

  // The final byte of a control sequence.
  predicate IsFinal(c: char) { '@' <= c <= '~' }

  // What follows a control sequence, from its parameters on.
  function AfterCsi(s: string): (rest: string)
    ensures |rest| <= |s|
  {
    if s == [] then [] else if IsFinal(s[0]) then s[1..] else AfterCsi(s[1..])
  }

  // What follows an operating system command, from its text on: it ends at BEL
  // or at the two-character string terminator.
  function AfterOsc(s: string): (rest: string)
    ensures |rest| <= |s|
  {
    if s == [] then []
    else if s[0] == BEL then s[1..]
    else if s[0] == ESC && |s| > 1 && s[1] == '\\' then s[2..]
    else AfterOsc(s[1..])
  }

  // What follows the sequence an ESC introduces: a bare ESC, or one that
  // introduces anything else, goes alone.
  function AfterEscape(s: string): (rest: string)
    requires s != []
    ensures |rest| < |s|
  {
    if |s| > 1 && s[1] == '[' then AfterCsi(s[2..])
    else if |s| > 1 && s[1] == ']' then AfterOsc(s[2..])
    else s[1..]
  }

  // The visible text.
  function Strip(s: string): (out: string)
    ensures ESC !in out
    decreases |s|
  {
    if s == [] then []
    else if s[0] == ESC then Strip(AfterEscape(s))
    else [s[0]] + Strip(s[1..])
  }

  method StripCsi(s: string) returns (out: string)
    ensures out == Strip(s)
  {
    out := "";
    var i := 0;
    assert s[0..] == s;
    while i < |s|
      invariant i <= |s|
      invariant out + Strip(s[i..]) == Strip(s)
    {
      var c := s[i];
      ghost var here := s[i..];
      i := i + 1;
      assert here[1..] == s[i..];
      if c == ESC {
        if i < |s| && s[i] == '[' {
          i := SkipCsi(s, i + 1);
          assert here[2..] == s[|s| - |here| + 2..];
        } else if i < |s| && s[i] == ']' {
          i := SkipOsc(s, i + 1);
          assert here[2..] == s[|s| - |here| + 2..];
        }
        continue;
      }
      out := out + [c];
    }
  }

  // Parameter and intermediate characters end at the final one.
  method SkipCsi(s: string, start: nat) returns (i: nat)
    requires start <= |s|
    ensures start <= i <= |s| && s[i..] == AfterCsi(s[start..])
  {
    i := start;
    while i < |s|
      invariant start <= i <= |s| && AfterCsi(s[start..]) == AfterCsi(s[i..])
    {
      var n := s[i];
      assert s[i..][1..] == s[i + 1..];
      i := i + 1;
      if IsFinal(n) { return; }
    }
  }

  method SkipOsc(s: string, start: nat) returns (i: nat)
    requires start <= |s|
    ensures start <= i <= |s| && s[i..] == AfterOsc(s[start..])
  {
    i := start;
    while i < |s|
      invariant start <= i <= |s| && AfterOsc(s[start..]) == AfterOsc(s[i..])
    {
      var n := s[i];
      assert s[i..][1..] == s[i + 1..];
      i := i + 1;
      if n == BEL { return; }
      if n == ESC && i < |s| && s[i] == '\\' {
        assert s[i - 1..][2..] == s[i + 1..];
        i := i + 1;
        return;
      }
    }
  }

  // ---------------------------------------------------------------------
  // Renderings
  // ---------------------------------------------------------------------

  datatype Terminator = Bel | StringTerminator

  datatype Segment =
    | Words(text: string)
    | Csi(parameters: string, final: char)
    | Osc(command: string, terminator: Terminator)
    | Bare
    | OpenCsi(parameters: string)
    | OpenOsc(command: string)

  ghost predicate NoFinal(parameters: string) {
    forall i :: 0 <= i < |parameters| ==> !('@' <= parameters[i] <= '~')
  }

  ghost predicate NoTerminator(command: string) {
    && BEL !in command
    && forall i :: 0 <= i < |command| - 1 ==> !(command[i] == ESC && command[i + 1] == '\\')
  }

  // What may stand in each segment, given what follows it: an ESC is bare when
  // it introduces neither sequence, and one left open runs to the end.
  ghost predicate Fits(seg: Segment, rest: string) {
    match seg
    case Words(text) => ESC !in text
    case Csi(parameters, final) => '@' <= final <= '~' && NoFinal(parameters)
    case Osc(command, _) => NoTerminator(command)
    case Bare => rest == [] || (rest[0] != '[' && rest[0] != ']')
    case OpenCsi(parameters) => rest == [] && NoFinal(parameters)
    case OpenOsc(command) => rest == [] && NoTerminator(command)
  }

  function RenderSegment(seg: Segment): string {
    match seg
    case Words(text) => text
    case Csi(parameters, final) => [ESC, '['] + parameters + [final]
    case Osc(command, terminator) => [ESC, ']'] + command + Ending(terminator)
    case Bare => [ESC]
    case OpenCsi(parameters) => [ESC, '['] + parameters
    case OpenOsc(command) => [ESC, ']'] + command
  }

  function Ending(terminator: Terminator): string {
    if terminator.Bel? then [BEL] else [ESC, '\\']
  }

  function Render(segments: seq<Segment>): string {
    if segments == [] then [] else RenderSegment(segments[0]) + Render(segments[1..])
  }

  // The text a reader sees.
  function TextOf(seg: Segment): string {
    if seg.Words? then seg.text else []
  }

  function Visible(segments: seq<Segment>): string {
    if segments == [] then [] else TextOf(segments[0]) + Visible(segments[1..])
  }

  lemma {:induction false} WordsKept(text: string, rest: string)
    requires ESC !in text
    ensures Strip(text + rest) == text + Strip(rest)
  {
    if text == [] {
      assert text + rest == rest;
    } else {
      assert (text + rest)[1..] == text[1..] + rest;
      WordsKept(text[1..], rest);
      assert text == [text[0]] + text[1..];
    }
  }

  lemma {:induction false} CsiSkipped(parameters: string, final: char, rest: string)
    requires IsFinal(final) && NoFinal(parameters)
    ensures AfterCsi(parameters + [final] + rest) == rest
  {
    var s := parameters + [final] + rest;
    if parameters == [] {
      assert s[1..] == rest;
    } else {
      assert s[1..] == parameters[1..] + [final] + rest;
      CsiSkipped(parameters[1..], final, rest);
    }
  }

  lemma {:induction false} OscSkipped(command: string, terminator: Terminator, rest: string)
    requires NoTerminator(command)
    ensures AfterOsc(command + Ending(terminator) + rest) == rest
  {
    var s := command + Ending(terminator) + rest;
    if command == [] {
      assert s == Ending(terminator) + rest;
      assert s[|Ending(terminator)|..] == rest;
    } else {
      assert s[1..] == command[1..] + Ending(terminator) + rest;
      assert s[0] == command[0] && (|command| > 1 ==> s[1] == command[1]);
      assert |command| == 1 ==> s[1] == Ending(terminator)[0];
      OscSkipped(command[1..], terminator, rest);
    }
  }

  lemma {:induction false} OpenRunsOut(s: string)
    ensures NoFinal(s) ==> AfterCsi(s) == []
    ensures NoTerminator(s) ==> AfterOsc(s) == []
    decreases |s|
  {
    if s != [] {
      OpenRunsOut(s[1..]);
    }
  }

  lemma IntroducedBy(body: string)
    ensures Strip([ESC, '['] + body) == Strip(AfterCsi(body))
    ensures Strip([ESC, ']'] + body) == Strip(AfterOsc(body))
  {
    assert ([ESC, '['] + body)[2..] == body && ([ESC, ']'] + body)[2..] == body;
  }

  // What a sequence holds after its introducer.
  ghost function Body(seg: Segment): string
    requires !seg.Words? && !seg.Bare?
  {
    match seg
    case Csi(parameters, final) => parameters + [final]
    case Osc(command, terminator) => command + Ending(terminator)
    case OpenCsi(parameters) => parameters
    case OpenOsc(command) => command
  }

  lemma RenderedBody(seg: Segment, rest: string)
    requires !seg.Words? && !seg.Bare?
    ensures RenderSegment(seg) + rest ==
      (if seg.Csi? || seg.OpenCsi? then [ESC, '['] else [ESC, ']']) + (Body(seg) + rest)
  {
  }

  lemma BodySkipped(seg: Segment, rest: string)
    requires Fits(seg, rest) && !seg.Words? && !seg.Bare?
    ensures (if seg.Csi? || seg.OpenCsi? then AfterCsi(Body(seg) + rest) else AfterOsc(Body(seg) + rest)) == rest
  {
    match seg
    case Csi(parameters, final) => CsiSkipped(parameters, final, rest);
    case Osc(command, terminator) => OscSkipped(command, terminator, rest);
    case OpenCsi(parameters) =>
      OpenRunsOut(parameters);
      assert parameters + rest == parameters;
    case OpenOsc(command) =>
      OpenRunsOut(command);
      assert command + rest == command;
  }

  // One segment that fits contributes its text and no more.
  lemma SegmentStripped(seg: Segment, rest: string)
    requires Fits(seg, rest)
    ensures Strip(RenderSegment(seg) + rest) == TextOf(seg) + Strip(rest)
  {
    if seg.Words? {
      WordsKept(seg.text, rest);
    } else {
      assert [] + Strip(rest) == Strip(rest);
      if seg.Bare? {
        assert ([ESC] + rest)[1..] == rest;
      } else {
        RenderedBody(seg, rest);
        IntroducedBy(Body(seg) + rest);
        BodySkipped(seg, rest);
      }
    }
  }

  ghost predicate AllFit(segments: seq<Segment>) {
    forall k :: 0 <= k < |segments| ==> Fits(segments[k], Render(segments[k + 1..]))
  }

  lemma AllFitRest(segments: seq<Segment>)
    requires AllFit(segments) && segments != []
    ensures AllFit(segments[1..])
  {
    var rest := segments[1..];
    forall k | 0 <= k < |rest|
      ensures Fits(rest[k], Render(rest[k + 1..]))
    {
      assert rest[k] == segments[k + 1] && rest[k + 1..] == segments[k + 2..];
    }
  }

  // THEOREM. Stripping a rendering of text, control sequences, operating system
  // commands, bare escapes and a sequence left open returns exactly its text.
  lemma {:induction false} StripShowsText(segments: seq<Segment>)
    requires AllFit(segments)
    ensures Strip(Render(segments)) == Visible(segments)
  {
    if segments != [] {
      AllFitRest(segments);
      StripShowsText(segments[1..]);
      SegmentStripped(segments[0], Render(segments[1..]));
    }
  }

  // Where a control sequence ends.
  lemma {:induction false} CutCsi(s: string) returns (seg: Segment, rest: string)
    ensures (seg.Csi? || seg.OpenCsi?) && Fits(seg, rest) && Body(seg) + rest == s
    decreases |s|
  {
    if s == [] {
      seg, rest := OpenCsi([]), [];
    } else if IsFinal(s[0]) {
      seg, rest := Csi([], s[0]), s[1..];
    } else {
      var tail;
      tail, rest := CutCsi(s[1..]);
      seg := tail.(parameters := [s[0]] + tail.parameters);
      assert Body(seg) == [s[0]] + Body(tail);
      assert Body(seg) + rest == [s[0]] + (Body(tail) + rest);
    }
  }

  // Where an operating system command ends.
  lemma {:induction false} CutOsc(s: string) returns (seg: Segment, rest: string)
    ensures (seg.Osc? || seg.OpenOsc?) && Fits(seg, rest) && Body(seg) + rest == s
    decreases |s|
  {
    if s == [] {
      seg, rest := OpenOsc([]), [];
    } else if s[0] == BEL {
      seg, rest := Osc([], Bel), s[1..];
    } else if s[0] == ESC && |s| > 1 && s[1] == '\\' {
      seg, rest := Osc([], StringTerminator), s[2..];
    } else {
      var tail;
      tail, rest := CutOsc(s[1..]);
      seg := tail.(command := [s[0]] + tail.command);
      ExtendOsc(s[0], tail, rest);
      assert s == [s[0]] + s[1..];
    }
  }

  lemma ExtendOsc(c: char, tail: Segment, rest: string)
    requires (tail.Osc? || tail.OpenOsc?) && Fits(tail, rest) && c != BEL
    requires c == ESC ==> Body(tail) + rest == [] || (Body(tail) + rest)[0] != '\\'
    ensures var seg := tail.(command := [c] + tail.command);
      Fits(seg, rest) && Body(seg) + rest == [c] + (Body(tail) + rest)
  {
    var seg := tail.(command := [c] + tail.command);
    assert Body(seg) == [c] + Body(tail);
    if tail.command != [] {
      assert (Body(tail) + rest)[0] == tail.command[0];
    }
  }

  // THEOREM. Every text is such a rendering, so that is what stripping does to
  // every input.
  lemma {:induction false} EveryTextReads(s: string) returns (segments: seq<Segment>)
    ensures AllFit(segments) && Render(segments) == s && Strip(s) == Visible(segments)
    decreases |s|
  {
    if s == [] {
      segments := [];
    } else {
      var seg, rest := CutFirst(s);
      var more := EveryTextReads(rest);
      segments := [seg] + more;
      assert segments[1..] == more;
      forall k | 0 <= k < |segments|
        ensures Fits(segments[k], Render(segments[k + 1..]))
      {
        if k > 0 { assert segments[k] == more[k - 1] && segments[k + 1..] == more[k..]; }
      }
    }
    StripShowsText(segments);
  }

  lemma CutFirst(s: string) returns (seg: Segment, rest: string)
    requires s != []
    ensures Fits(seg, rest) && RenderSegment(seg) + rest == s && |rest| < |s|
  {
    if s[0] != ESC {
      seg, rest := Words([s[0]]), s[1..];
    } else if |s| > 1 && s[1] == '[' {
      seg, rest := CutCsi(s[2..]);
      RenderedBody(seg, rest);
    } else if |s| > 1 && s[1] == ']' {
      seg, rest := CutOsc(s[2..]);
      RenderedBody(seg, rest);
    } else {
      seg, rest := Bare, s[1..];
    }
  }

  // THEOREM. Stripping is idempotent, on every input: nothing it returns is
  // read as an escape again.
  lemma StripIdempotent(s: string)
    ensures Strip(Strip(s)) == Strip(s)
  {
    WordsKept(Strip(s), []);
    assert Strip(s) + [] == Strip(s);
  }
}
