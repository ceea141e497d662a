/**
 * The bounded newline framing of the daemon socket (`cyclops-client`), over a
 * stream that arrives in arbitrary chunks and may fault between them.
 */
module Framing {
  import opened Wrappers
  import opened Delimited
  import opened Seqs

  // Largest JSON object accepted on the wire; the newline is not counted.
  const MAX_JSON_BYTES: nat := 1_048_576

  predicate TooLarge(bytes: nat) { bytes > MAX_JSON_BYTES }

  // ---------------------------------------------------------------------
  // The stream
  // ---------------------------------------------------------------------

  // What the next fills of the read buffer find; after the last, the peer has
  // closed.
  datatype Arrival = Data(bytes: Bytes) | TimesOut | Breaks

  datatype Stop = Eof | TimedOut | Broken

  // The bytes that arrive before the first fault, and what comes after them.
  function Lead(arrivals: seq<Arrival>): Bytes {
    if arrivals == [] || !arrivals[0].Data? then [] else arrivals[0].bytes + Lead(arrivals[1..])
  }

  function StopOf(arrivals: seq<Arrival>): Stop {
    if arrivals == [] then Eof
    else match arrivals[0]
      case Data(_) => StopOf(arrivals[1..])
      case TimesOut => TimedOut
      case Breaks => Broken
  }

  // What is left once the first fault, or the close, has been reported: the
  // bytes before it are gone, a frame in progress included.
  function AfterStop(arrivals: seq<Arrival>): seq<Arrival> {
    if arrivals == [] then [] else if arrivals[0].Data? then AfterStop(arrivals[1..]) else arrivals[1..]
  }

  // What an oversized frame leaves: the chunks that fit under the bound after
  // `taken` bytes are gone, and the one that shows the frame to be too large, or
  // holds its newline, is still there whole.
  function Unread(arrivals: seq<Arrival>, taken: nat): seq<Arrival> {
    if arrivals == [] || !arrivals[0].Data? then arrivals
    else if NEWLINE in arrivals[0].bytes || TooLarge(taken + |arrivals[0].bytes|) then arrivals
    else Unread(arrivals[1..], taken + |arrivals[0].bytes|)
  }

  // The arrivals are the chunks before the first fault, then that fault or the
  // close, then what is left.
  lemma {:induction false} ArrivalsSplit(arrivals: seq<Arrival>) returns (k: nat)
    ensures k <= |arrivals| && forall i :: 0 <= i < k ==> arrivals[i].Data?
    ensures Lead(arrivals) == Lead(arrivals[..k])
    ensures if k == |arrivals| then StopOf(arrivals) == Eof && AfterStop(arrivals) == []
            else && AfterStop(arrivals) == arrivals[k + 1..]
                 && match arrivals[k]
                    case Data(_) => false
                    case TimesOut => StopOf(arrivals) == TimedOut
                    case Breaks => StopOf(arrivals) == Broken
    decreases |arrivals|
  {
    if arrivals == [] || !arrivals[0].Data? {
      k := 0;
    } else {
      var rest := arrivals[1..];
      var n := ArrivalsSplit(rest);
      k := n + 1;
      assert arrivals[..k][1..] == rest[..n] && arrivals[..k][0] == arrivals[0];
      if n < |rest| {
        assert arrivals[k] == rest[n] && arrivals[k + 1..] == rest[n + 1..];
      }
    }
  }

  // An oversized frame leaves the chunk that showed it, and all after: what was
  // taken has no newline and fits, and the next chunk ends it or is too much.
  lemma {:induction false} UnreadSplit(arrivals: seq<Arrival>, taken: nat) returns (k: nat)
    requires taken <= 1_048_576
    ensures k <= |arrivals| && Unread(arrivals, taken) == arrivals[k..]
    ensures forall i :: 0 <= i < k ==> arrivals[i].Data? && NEWLINE !in arrivals[i].bytes
    ensures taken + |Lead(arrivals[..k])| <= 1_048_576
    ensures k < |arrivals| && arrivals[k].Data? ==>
      NEWLINE in arrivals[k].bytes || taken + |Lead(arrivals[..k])| + |arrivals[k].bytes| > 1_048_576
    decreases |arrivals|
  {
    if arrivals == [] || !arrivals[0].Data? || NEWLINE in arrivals[0].bytes || TooLarge(taken + |arrivals[0].bytes|) {
      k := 0;
    } else {
      k := UnreadSplit(arrivals[1..], taken + |arrivals[0].bytes|);
      assert arrivals[..k + 1][1..] == arrivals[1..][..k];
      k := k + 1;
    }
  }

  // A read that returns bytes returns at least one.
  ghost predicate NoEmptyReads(arrivals: seq<Arrival>) {
    forall i :: 0 <= i < |arrivals| && arrivals[i].Data? ==> arrivals[i].bytes != []
  }

  class BufReader {
    var arrivals: seq<Arrival>

    constructor (arrivals: seq<Arrival>)
      ensures this.arrivals == arrivals
    {
      this.arrivals := arrivals;
    }

    // Consume the whole buffer.
    method ConsumeAll()
      requires arrivals != [] && arrivals[0].Data? && NoEmptyReads(arrivals)
      modifies this
      ensures NoEmptyReads(arrivals) && arrivals == old(arrivals)[1..]
      ensures StopOf(arrivals) == StopOf(old(arrivals)) && AfterStop(arrivals) == AfterStop(old(arrivals))
    {
      arrivals := arrivals[1..];
    }

    method Consume(n: nat)
      requires arrivals != [] && arrivals[0].Data? && n <= |arrivals[0].bytes| && NoEmptyReads(arrivals)
      modifies this
      ensures NoEmptyReads(arrivals)
      ensures Lead(arrivals) == old(arrivals)[0].bytes[n..] + Lead(old(arrivals)[1..])
      ensures StopOf(arrivals) == StopOf(old(arrivals)) && AfterStop(arrivals) == AfterStop(old(arrivals))
    {
      var bytes := arrivals[0].bytes;
      if n == |bytes| {
        arrivals := arrivals[1..];
      } else {
        arrivals := [Data(bytes[n..])] + arrivals[1..];
      }
    }
  }

  // ---------------------------------------------------------------------
  // One frame
  // ---------------------------------------------------------------------

  datatype FrameResult = Frame(bytes: Bytes) | Finished | Cut | Oversized | Timeout | Failed

  // The reference: the first line of the bytes that arrive.
  function FirstFrame(bytes: Bytes, stop: Stop): FrameResult {
    var lines := Complete(bytes);
    if lines != [] then
      if TooLarge(|lines[0]|) then Oversized else Frame(StripCr(lines[0]))
    else if TooLarge(|bytes|) then Oversized
    else match stop
      case Eof => if bytes == [] then Finished else Cut
      case TimedOut => Timeout
      case Broken => Failed
  }

  // What is left after the first line.
  function Rest(bytes: Bytes): (rest: Bytes)
    requires Complete(bytes) != []
    ensures Complete(bytes)[0] + [NEWLINE] + rest == bytes
    ensures NEWLINE !in Complete(bytes)[0]
    ensures |rest| < |bytes|
  {
    FirstLineIsPrefix(bytes);
    bytes[|Complete(bytes)[0]| + 1..]
  }

  lemma {:induction false} FirstLineIsPrefix(bytes: Bytes)
    requires Complete(bytes) != []
    ensures Complete(bytes)[0] + [NEWLINE] <= bytes
    ensures NEWLINE !in Complete(bytes)[0]
    decreases |bytes|
  {
    var front := bytes[..|bytes| - 1];
    assert bytes == front + [bytes[|bytes| - 1]];
    if Complete(front) != [] {
      FirstLineIsPrefix(front);
    } else {
      NoLinesNoNewline(front);
    }
  }

  lemma {:induction false} NoLinesNoNewline(bytes: Bytes)
    requires Complete(bytes) == []
    ensures NEWLINE !in bytes && Tail(bytes) == bytes
  {
    if bytes != [] {
      NoLinesNoNewline(bytes[..|bytes| - 1]);
    }
  }

  // The newline is at `d` in the chunk after the bytes read so far.
  lemma NewlineDecides(frame: Bytes, chunk: Bytes, later: Bytes, d: nat, stop: Stop)
    requires NEWLINE !in frame && d < |chunk| && chunk[d] == NEWLINE && NEWLINE !in chunk[..d]
    ensures var bytes := frame + chunk + later;
      && FirstFrame(bytes, stop) == (if TooLarge(|frame| + d) then Oversized else Frame(StripCr(frame + chunk[..d])))
      && Complete(bytes) != [] && Rest(bytes) == chunk[d + 1..] + later
  {
    var line, rest := frame + chunk[..d], chunk[d + 1..] + later;
    assert frame + chunk + later == line + [NEWLINE] + rest;
    SplitCons(line, rest);
  }

  // The bytes read so far are already too many.
  lemma SizeDecides(frame: Bytes, later: Bytes, stop: Stop)
    requires NEWLINE !in frame && TooLarge(|frame|)
    ensures FirstFrame(frame + later, stop) == Oversized
  {
    var bytes := frame + later;
    if Complete(bytes) != [] {
      FirstLineIsPrefix(bytes);
      var line := Complete(bytes)[0];
      assert bytes[|line|] == (line + [NEWLINE])[|line|] == NEWLINE;
      assert forall i :: 0 <= i < |frame| ==> bytes[i] == frame[i];
    }
  }

  // No newline and no more bytes.
  lemma StopDecides(frame: Bytes, stop: Stop)
    requires NEWLINE !in frame && !TooLarge(|frame|)
    ensures FirstFrame(frame, stop) == match stop
      case Eof => if frame == [] then Finished else Cut
      case TimedOut => Timeout
      case Broken => Failed
  {
    SplitUnterminated(frame);
  }

  method FindNewline(bytes: Bytes) returns (at: Option<nat>)
    ensures at.Some? ==> at.value < |bytes| && bytes[at.value] == NEWLINE && NEWLINE !in bytes[..at.value]
    ensures at.None? ==> NEWLINE !in bytes
  {
    for i := 0 to |bytes|
      invariant NEWLINE !in bytes[..i]
    {
      if bytes[i] == NEWLINE { return Some(i); }
    }
    return None;
  }

  // Read one frame. The result is the first line of the arriving bytes however
  // they are chunked, and a frame leaves exactly the bytes after its newline.
  method ReadBlockingFrame(reader: BufReader) returns (r: FrameResult)
    requires NoEmptyReads(reader.arrivals)
    modifies reader
    ensures NoEmptyReads(reader.arrivals)
    ensures r == FirstFrame(Lead(old(reader.arrivals)), StopOf(old(reader.arrivals)))
    ensures r.Frame? ==>
      && Lead(reader.arrivals) == Rest(Lead(old(reader.arrivals)))
      && StopOf(reader.arrivals) == StopOf(old(reader.arrivals))
    ensures r.Oversized? ==> reader.arrivals == Unread(old(reader.arrivals), 0)
    ensures !r.Frame? && !r.Oversized? ==> reader.arrivals == AfterStop(old(reader.arrivals))
  {
    var frame: Bytes := [];
    ghost var all, stop := Lead(reader.arrivals), StopOf(reader.arrivals);
    assert all == frame + Lead(reader.arrivals);
    while reader.arrivals != [] && reader.arrivals[0].Data?
      invariant NoEmptyReads(reader.arrivals)
      invariant all == frame + Lead(reader.arrivals) && stop == StopOf(reader.arrivals)
      invariant AfterStop(reader.arrivals) == AfterStop(old(reader.arrivals))
      invariant Unread(reader.arrivals, |frame|) == Unread(old(reader.arrivals), 0)
      invariant NEWLINE !in frame && !TooLarge(|frame|)
      decreases |reader.arrivals|
    {
      var available := reader.arrivals[0].bytes;
      ghost var later := Lead(reader.arrivals[1..]);
      Assoc(frame, available, later);
      var delimiter := FindNewline(available);
      if delimiter.Some? {
        NewlineDecides(frame, available, later, delimiter.value, stop);
        if TooLarge(|frame| + delimiter.value) {
          return Oversized;
        }
        frame := frame + available[..delimiter.value];
        reader.Consume(delimiter.value + 1);
        return Frame(StripCr(frame));
      }
      if TooLarge(|frame| + |available|) {
        SizeDecides(frame + available, later, stop);
        return Oversized;
      }
      frame := frame + available;
      reader.ConsumeAll();
    }
    assert all == frame;
    StopDecides(frame, stop);
    if reader.arrivals == [] {
      return if frame == [] then Finished else Cut;
    }
    r := if reader.arrivals[0].TimesOut? then Timeout else Failed;
    reader.arrivals := reader.arrivals[1..];
  }

  // The async reader keeps its frame buffer between calls and clears it at the
  // start of each. It reads the same frames. A read cancelled at its await by a
  // deadline is a `TimesOut` arrival: what it had taken of a frame is lost.
  class AsyncFrameReader {
    const inner: BufReader
    var frame: Bytes

    constructor (inner: BufReader)
      ensures this.inner == inner && frame == []
    {
      this.inner, frame := inner, [];
    }

    method NextFrame() returns (r: FrameResult)
      requires NoEmptyReads(inner.arrivals)
      modifies this, inner
      ensures NoEmptyReads(inner.arrivals)
      ensures r == FirstFrame(Lead(old(inner.arrivals)), StopOf(old(inner.arrivals)))
      ensures r.Frame? ==>
        && Lead(inner.arrivals) == Rest(Lead(old(inner.arrivals)))
        && StopOf(inner.arrivals) == StopOf(old(inner.arrivals))
        && frame == []
      ensures r.Oversized? ==> inner.arrivals == Unread(old(inner.arrivals), 0)
      ensures !r.Frame? && !r.Oversized? ==> inner.arrivals == AfterStop(old(inner.arrivals))
    {
      frame := [];
      ghost var all, stop := Lead(inner.arrivals), StopOf(inner.arrivals);
      assert all == frame + Lead(inner.arrivals);
      while inner.arrivals != [] && inner.arrivals[0].Data?
        invariant NoEmptyReads(inner.arrivals)
        invariant all == frame + Lead(inner.arrivals) && stop == StopOf(inner.arrivals)
        invariant AfterStop(inner.arrivals) == AfterStop(old(inner.arrivals))
        invariant Unread(inner.arrivals, |frame|) == Unread(old(inner.arrivals), 0)
        invariant NEWLINE !in frame && !TooLarge(|frame|)
        decreases |inner.arrivals|
      {
        var available := inner.arrivals[0].bytes;
        ghost var later := Lead(inner.arrivals[1..]);
        Assoc(frame, available, later);
        var delimiter := FindNewline(available);
        if delimiter.Some? {
          NewlineDecides(frame, available, later, delimiter.value, stop);
          if TooLarge(|frame| + delimiter.value) {
            return Oversized;
          }
          frame := frame + available[..delimiter.value];
          inner.Consume(delimiter.value + 1);
          r := Frame(StripCr(frame));
          frame := [];
          return;
        }
        if TooLarge(|frame| + |available|) {
          SizeDecides(frame + available, later, stop);
          return Oversized;
        }
        frame := frame + available;
        inner.ConsumeAll();
      }
      assert all == frame;
      StopDecides(frame, stop);
      if inner.arrivals == [] {
        return if frame == [] then Finished else Cut;
      }
      r := if inner.arrivals[0].TimesOut? then Timeout else Failed;
      inner.arrivals := inner.arrivals[1..];
    }
  }

  // ---------------------------------------------------------------------
  // All frames
  // ---------------------------------------------------------------------

  // Reading frames until one is not a frame.
  function ReadAll(bytes: Bytes, stop: Stop): (seq<Bytes>, FrameResult)
    decreases |bytes|
  {
    match FirstFrame(bytes, stop)
    case Frame(frame) =>
      var (frames, last) := ReadAll(Rest(bytes), stop);
      ([frame] + frames, last)
    case other => ([], other)
  }

  // The frames are the lines up to the first one of more than a mebibyte, each
  // without one trailing carriage return. Past the last line the tail decides:
  // too many bytes already, or how the stream stopped.
  ghost predicate IsSplit(lines: seq<Bytes>, tail: Bytes, stop: Stop, frames: seq<Bytes>, last: FrameResult) {
    && |frames| <= |lines|
    && (forall i :: 0 <= i < |frames| ==> frames[i] == StripCr(lines[i]) && |lines[i]| <= 1_048_576)
    && (if |frames| < |lines| then |lines[|frames|]| > 1_048_576 && last == Oversized
        else if |tail| > 1_048_576 then last == Oversized
        else last == match stop
          case Eof => if tail == [] then Finished else Cut
          case TimedOut => Timeout
          case Broken => Failed)
  }

  lemma SplitOneMore(line: Bytes, lines: seq<Bytes>, tail: Bytes, stop: Stop, frames: seq<Bytes>, last: FrameResult)
    requires |line| <= 1_048_576 && IsSplit(lines, tail, stop, frames, last)
    ensures IsSplit([line] + lines, tail, stop, [StripCr(line)] + frames, last)
  {
  }

  // THEOREM. Repeated reads are one split of the whole stream at its newlines.
  // Chunking plays no part: only the bytes do.
  lemma {:induction false} ReadsAreTheSplit(bytes: Bytes, stop: Stop)
    ensures var (frames, last) := ReadAll(bytes, stop);
      IsSplit(Complete(bytes), Tail(bytes), stop, frames, last) && !last.Frame?
    decreases |bytes|
  {
    if Complete(bytes) == [] {
      NoLinesNoNewline(bytes);
    } else if !TooLarge(|Complete(bytes)[0]|) {
      var line, rest := Complete(bytes)[0], Rest(bytes);
      SplitCons(line, rest);
      ReadsAreTheSplit(rest, stop);
      var (frames, last) := ReadAll(rest, stop);
      SplitOneMore(line, Complete(rest), Tail(rest), stop, frames, last);
    }
  }

  // Having read `frames`, reading goes on at `rest`.
  ghost predicate Continues(bytes: Bytes, stop: Stop, frames: seq<Bytes>, rest: Bytes) {
    ReadAll(bytes, stop) == (frames + ReadAll(rest, stop).0, ReadAll(rest, stop).1)
  }

  lemma ContinuesStart(bytes: Bytes, stop: Stop)
    ensures Continues(bytes, stop, [], bytes)
  {
    assert [] + ReadAll(bytes, stop).0 == ReadAll(bytes, stop).0;
  }

  lemma ContinuesStep(bytes: Bytes, stop: Stop, frames: seq<Bytes>, rest: Bytes)
    requires Continues(bytes, stop, frames, rest) && FirstFrame(rest, stop).Frame?
    ensures Continues(bytes, stop, frames + [FirstFrame(rest, stop).bytes], Rest(rest))
  {
    Assoc(frames, [FirstFrame(rest, stop).bytes], ReadAll(Rest(rest), stop).0);
  }

  lemma ContinuesEnd(bytes: Bytes, stop: Stop, frames: seq<Bytes>, rest: Bytes)
    requires Continues(bytes, stop, frames, rest) && !FirstFrame(rest, stop).Frame?
    ensures ReadAll(bytes, stop) == (frames, FirstFrame(rest, stop))
  {
    assert frames + [] == frames;
  }

  // THEOREM. Either reader, called until it stops, gives that one split of all
  // the bytes that arrive: chunking plays no part, and the two readers agree.
  method ReadAllBlocking(reader: BufReader) returns (frames: seq<Bytes>, last: FrameResult)
    requires NoEmptyReads(reader.arrivals)
    modifies reader
    ensures (frames, last) == ReadAll(Lead(old(reader.arrivals)), StopOf(old(reader.arrivals)))
    ensures IsSplit(Complete(Lead(old(reader.arrivals))), Tail(Lead(old(reader.arrivals))),
                    StopOf(old(reader.arrivals)), frames, last)
  {
    ghost var bytes, stop := Lead(reader.arrivals), StopOf(reader.arrivals);
    frames := [];
    last := ReadBlockingFrame(reader);
    ghost var rest := bytes;
    ContinuesStart(bytes, stop);
    while last.Frame?
      invariant NoEmptyReads(reader.arrivals) && last == FirstFrame(rest, stop)
      invariant last.Frame? ==> Lead(reader.arrivals) == Rest(rest) && StopOf(reader.arrivals) == stop
      invariant Continues(bytes, stop, frames, rest)
      decreases |rest|
    {
      ContinuesStep(bytes, stop, frames, rest);
      frames := frames + [last.bytes];
      rest := Rest(rest);
      last := ReadBlockingFrame(reader);
    }
    ContinuesEnd(bytes, stop, frames, rest);
    ReadsAreTheSplit(bytes, stop);
  }

  method ReadAllAsync(reader: AsyncFrameReader) returns (frames: seq<Bytes>, last: FrameResult)
    requires NoEmptyReads(reader.inner.arrivals)
    modifies reader, reader.inner
    ensures (frames, last) == ReadAll(Lead(old(reader.inner.arrivals)), StopOf(old(reader.inner.arrivals)))
    ensures IsSplit(Complete(Lead(old(reader.inner.arrivals))), Tail(Lead(old(reader.inner.arrivals))),
                    StopOf(old(reader.inner.arrivals)), frames, last)
  {
    ghost var bytes, stop := Lead(reader.inner.arrivals), StopOf(reader.inner.arrivals);
    frames := [];
    last := reader.NextFrame();
    ghost var rest := bytes;
    ContinuesStart(bytes, stop);
    while last.Frame?
      invariant NoEmptyReads(reader.inner.arrivals) && last == FirstFrame(rest, stop)
      invariant last.Frame? ==> Lead(reader.inner.arrivals) == Rest(rest) && StopOf(reader.inner.arrivals) == stop
      invariant Continues(bytes, stop, frames, rest)
      decreases |rest|
    {
      ContinuesStep(bytes, stop, frames, rest);
      frames := frames + [last.bytes];
      rest := Rest(rest);
      last := reader.NextFrame();
    }
    ContinuesEnd(bytes, stop, frames, rest);
    ReadsAreTheSplit(bytes, stop);
  }

  // ---------------------------------------------------------------------
  // Requests
  // ---------------------------------------------------------------------

  function Flatten(pieces: seq<Bytes>): Bytes {
    if pieces == [] then [] else Flatten(pieces[..|pieces| - 1]) + pieces[|pieces| - 1]
  }

  lemma FlattenExactly(pieces: seq<Bytes>, piece: Bytes)
    ensures Flatten([]) == [] && Flatten(pieces + [piece]) == Flatten(pieces) + piece
  {
    assert (pieces + [piece])[..|pieces|] == pieces;
  }

  datatype EncodeError = RequestTooLarge | CannotEncode

  // The bounded buffer a request is serialized into.
  class BoundedJson {
    var bytes: Bytes
    var oversized: bool

    constructor ()
      ensures bytes == [] && !oversized
    {
      bytes, oversized := [], false;
    }

    method Write(piece: Bytes) returns (ok: bool)
      modifies this
      ensures ok == !TooLarge(|old(bytes)| + |piece|)
      ensures bytes == if ok then old(bytes) + piece else old(bytes)
      ensures oversized == (old(oversized) || !ok)
    {
      if TooLarge(|bytes| + |piece|) {
        oversized := true;
        return false;
      }
      bytes := bytes + piece;
      return true;
    }
  }

  // Encode a request the serializer writes in `pieces`, stopping after them if
  // it cannot finish. It encodes exactly when it finishes within the bound.
  method EncodeRequest(pieces: seq<Bytes>, completes: bool) returns (r: Result<Bytes, EncodeError>)
    ensures r.Ok? <==> completes && !TooLarge(|Flatten(pieces)|)
    ensures r.Ok? ==> r.value == Flatten(pieces) + [NEWLINE]
    ensures r == Err(RequestTooLarge) <==> TooLarge(|Flatten(pieces)|)
  {
    var writer := new BoundedJson();
    for i := 0 to |pieces|
      invariant writer.bytes == Flatten(pieces[..i]) && !writer.oversized && !TooLarge(|writer.bytes|)
    {
      assert pieces[..i + 1][..i] == pieces[..i];
      var ok := writer.Write(pieces[i]);
      if !ok {
        FlattenGrows(pieces, i + 1);
        return Err(RequestTooLarge);
      }
    }
    assert pieces[..|pieces|] == pieces;
    if !completes { return Err(CannotEncode); }
    return Ok(writer.bytes + [NEWLINE]);
  }

  lemma {:induction false} FlattenGrows(pieces: seq<Bytes>, i: nat)
    requires i <= |pieces|
    ensures |Flatten(pieces[..i])| <= |Flatten(pieces)|
    decreases |pieces|
  {
    if i < |pieces| {
      var n := |pieces| - 1;
      assert pieces[..n][..i] == pieces[..i];
      FlattenGrows(pieces[..n], i);
    } else {
      assert pieces[..i] == pieces;
    }
  }

  // THEOREM. A request that encodes is read back as exactly one frame, equal
  // to the JSON that was written, with whatever follows left in place.
  lemma EncodedIsOneFrame(json: Bytes, later: Bytes, stop: Stop)
    requires NEWLINE !in json && StripCr(json) == json && !TooLarge(|json|)
    ensures FirstFrame(json + [NEWLINE] + later, stop) == Frame(json)
    ensures Complete(json + [NEWLINE] + later) != [] && Rest(json + [NEWLINE] + later) == later
  {
    SplitCons(json, later);
  }
}
