/**
 * Request correlation and event buffering of the blocking daemon client
 * (`cyclops-client`). What JSON makes of a frame is a function parameter; every
 * socket call that can fail is a parameter saying how it ended.
 */
module Client {
  import opened Wrappers
  import opened Delimited
  import opened Framing
  import opened Seqs

  // ---------------------------------------------------------------------
  // Outcomes
  // ---------------------------------------------------------------------

  datatype Certainty = KnownNotSent | Refused | OutcomeUnknown | StreamGap

  datatype ClientError =
    | NotRunning | ConnectTimeout | HelloTimeout | ReadTimeout
    | RequestFrameTooLarge | DaemonFrameTooLarge | OversizedResponse
    | InvalidHello | Server(code: string) | NotSent | Unknown | Gap

  function CertaintyOf(error: ClientError): Certainty {
    match error
    case NotRunning => KnownNotSent
    case ConnectTimeout => KnownNotSent
    case HelloTimeout => KnownNotSent
    case RequestFrameTooLarge => KnownNotSent
    case InvalidHello => KnownNotSent
    case NotSent => KnownNotSent
    case Server(_) => Refused
    case ReadTimeout => OutcomeUnknown
    case DaemonFrameTooLarge => OutcomeUnknown
    case OversizedResponse => OutcomeUnknown
    case Unknown => OutcomeUnknown
    case Gap => StreamGap
  }

  // ---------------------------------------------------------------------
  // Messages
  // ---------------------------------------------------------------------

  const TOO_LARGE_CODE: string := "frame_too_large"

  // What a frame is once parsed. An answer carries the id it echoes, if that is
  // a number, and its error code or its result.
  datatype Message =
    | NotJson
    | EventMessage(readable: bool)
    | Answer(id: Option<nat>, errorCode: Option<string>, result: Option<string>)

  predicate IsEvent(m: Message) { m.EventMessage? && m.readable }

  datatype Incoming = AnEvent | AResult(value: string) | AnError(error: ClientError)

  function DecodeIncoming(m: Message, expectedId: nat): Incoming {
    match m
    case NotJson => AnError(Unknown)
    case EventMessage(readable) => if readable then AnEvent else AnError(Unknown)
    case Answer(id, errorCode, result) =>
      if id != Some(expectedId) then AnError(Unknown)
      else if errorCode.Some? then
        if errorCode.value == TOO_LARGE_CODE then AnError(OversizedResponse) else AnError(Server(errorCode.value))
      else if result.Some? then AResult(result.value)
      else AnError(Unknown)
  }

  // The event frames among the lines read, in order, as they were framed.
  function Events(lines: seq<Bytes>, decode: Bytes -> Message): seq<Bytes> {
    if lines == [] then []
    else
      var n := |lines| - 1;
      var frame := StripCr(lines[n]);
      Events(lines[..n], decode) + if IsEvent(decode(frame)) then [frame] else []
  }

  lemma EventsOneMore(before: seq<Bytes>, after: seq<Bytes>, decode: Bytes -> Message)
    requires |after| == |before| + 1 && before <= after
    ensures var frame := StripCr(after[|before|]);
      Events(after, decode) == Events(before, decode) + if IsEvent(decode(frame)) then [frame] else []
  {
    assert after[..|before|] == before;
  }

  // The frames read after `earlier`, but for the last, were events.
  ghost predicate OnlyEventsBetween(earlier: seq<Bytes>, later: seq<Bytes>, decode: Bytes -> Message) {
    forall i :: |earlier| <= i < |later| - 1 ==> IsEvent(decode(StripCr(later[i])))
  }

  // An answer to the request with this id.
  ghost predicate Answers(m: Message, id: nat) { m.Answer? && m.id == Some(id) }

  // `r` is what the message says to a wait for this id: its result, if it
  // answers and reports no error; the error it reports; and otherwise nothing
  // that can be known.
  ghost predicate Says(m: Message, id: nat, r: Result<string, ClientError>) {
    match r
    case Ok(value) => Answers(m, id) && m.errorCode == None && m.result == Some(value)
    case Err(Server(code)) => Answers(m, id) && m.errorCode == Some(code) && code != "frame_too_large"
    case Err(OversizedResponse) => Answers(m, id) && m.errorCode == Some("frame_too_large")
    case Err(Unknown) =>
      || m == NotJson || m == EventMessage(false)
      || (m.Answer? && !Answers(m, id))
      || (Answers(m, id) && m.errorCode == None && m.result == None)
    case Err(_) => false
  }

  // THEOREM. Decoding gives the one outcome the message says; only a readable
  // event says none.
  lemma DecodeIsWhatItSays(m: Message, id: nat, r: Result<string, ClientError>)
    ensures DecodeIncoming(m, id) == AnEvent <==> m == EventMessage(true)
    ensures Says(m, id, r) <==>
      DecodeIncoming(m, id) == match r case Ok(value) => AResult(value) case Err(error) => AnError(error)
  {
  }

  // The message is the answer to the request with this id, and `r` is it.
  ghost predicate Settles(m: Message, id: nat, r: Result<string, ClientError>) {
    Answers(m, id) && Says(m, id, r)
  }

  // How a wait that read from `earlier` to `later` ended: with what the last
  // frame says, or, when that was an event or none was read, with an error of
  // the connection.
  ghost predicate Ended(earlier: seq<Bytes>, later: seq<Bytes>, decode: Bytes -> Message, id: nat,
                        r: Result<string, ClientError>) {
    if |earlier| < |later| && !IsEvent(decode(StripCr(later[|later| - 1])))
    then Says(decode(StripCr(later[|later| - 1])), id, r)
    else r.Err? && CertaintyOf(r.error) in {OutcomeUnknown, StreamGap}
  }

  // A wait that ended with a result or a refusal was answered.
  lemma EndedByAnswer(earlier: seq<Bytes>, later: seq<Bytes>, decode: Bytes -> Message, id: nat,
                      r: Result<string, ClientError>)
    requires Ended(earlier, later, decode, id, r)
    ensures r.Ok? || CertaintyOf(r.error) == Refused ==>
      |earlier| < |later| && Settles(decode(StripCr(later[|later| - 1])), id, r)
    ensures r.Err? ==> CertaintyOf(r.error) != KnownNotSent
  {
  }

  // What one frame of a wait for an answer means: None goes on waiting.
  function Judge(frame: FrameResult, decode: Bytes -> Message, id: nat, timeoutSet: bool):
    Option<Result<string, ClientError>>
  {
    match frame
    case Frame(bytes) =>
      (match DecodeIncoming(decode(bytes), id)
       case AnEvent => None
       case AResult(value) => Some(Ok(value))
       case AnError(error) => Some(Err(error)))
    case Oversized => Some(Err(DaemonFrameTooLarge))
    case Timeout => Some(Err(if timeoutSet then ReadTimeout else Gap))
    case _ => Some(Err(Unknown))
  }

  lemma JudgeIsSound(frame: FrameResult, decode: Bytes -> Message, id: nat, timeoutSet: bool)
    ensures var step := Judge(frame, decode, id, timeoutSet);
      && (step.None? <==> frame.Frame? && IsEvent(decode(frame.bytes)))
      && (step.Some? && frame.Frame? ==> Says(decode(frame.bytes), id, step.value))
      && (frame.Oversized? ==> step == Some(Err(DaemonFrameTooLarge)))
      && (frame.Timeout? ==> step == Some(Err(if timeoutSet then ReadTimeout else Gap)))
      && (frame in {Finished, Cut, Failed} ==> step == Some(Err(Unknown)))
  {
    if frame.Frame? {
      match DecodeIncoming(decode(frame.bytes), id)
      case AnEvent =>
      case AResult(value) => DecodeIsWhatItSays(decode(frame.bytes), id, Ok(value));
      case AnError(error) => DecodeIsWhatItSays(decode(frame.bytes), id, Err(error));
    }
  }

  // THEOREM. How sure a caller can be, by what went wrong: nothing was sent, the
  // daemon refused, the event stream broke off, or it cannot be known.
  lemma CertaintyExactly(error: ClientError)
    ensures CertaintyOf(error) == KnownNotSent <==>
      error in {NotRunning, ConnectTimeout, HelloTimeout, RequestFrameTooLarge, InvalidHello, NotSent}
    ensures CertaintyOf(error) == Refused <==> error.Server?
    ensures CertaintyOf(error) == StreamGap <==> error == Gap
    ensures CertaintyOf(error) == OutcomeUnknown <==>
      error in {ReadTimeout, DaemonFrameTooLarge, OversizedResponse, Unknown}
  {
  }

  // What one frame read for its event means.
  function JudgeEvent(frame: FrameResult, decode: Bytes -> Message, timeoutSet: bool): (r: Result<Bytes, ClientError>)
    ensures r.Ok? <==> frame.Frame? && IsEvent(decode(frame.bytes))
    ensures r.Ok? ==> r.value == frame.bytes
    ensures r.Err? ==> r.error == if frame.Timeout? && timeoutSet then ReadTimeout else Gap
  {
    match frame
    case Frame(bytes) => if IsEvent(decode(bytes)) then Ok(bytes) else Err(Gap)
    case Timeout => Err(if timeoutSet then ReadTimeout else Gap)
    case _ => Err(Gap)
  }

  // One frame of a wait took the lines from `before` to `after`.
  ghost predicate TookFrame(before: seq<Bytes>, after: seq<Bytes>, decode: Bytes -> Message, id: nat,
                            step: Option<Result<string, ClientError>>) {
    && (after == before || (|after| == |before| + 1 && before <= after))
    && (step.None? <==> after != before && IsEvent(decode(StripCr(after[|before|]))))
    && (step.Some? && after != before ==> Says(decode(StripCr(after[|before|])), id, step.value))
    && (step.Some? && after == before ==>
          step.value.Err? && CertaintyOf(step.value.error) in {OutcomeUnknown, StreamGap})
  }

  // A whole wait took the lines from `start` to `lines`.
  ghost predicate Awaited(start: seq<Bytes>, lines: seq<Bytes>, decode: Bytes -> Message, id: nat,
                          step: Option<Result<string, ClientError>>) {
    && start <= lines
    && OnlyEventsBetween(start, lines, decode)
    && (step.None? && |start| < |lines| ==> IsEvent(decode(StripCr(lines[|lines| - 1]))))
    && (step.Some? ==> Ended(start, lines, decode, id, step.value))
  }

  lemma AwaitedOneMore(start: seq<Bytes>, before: seq<Bytes>, after: seq<Bytes>, decode: Bytes -> Message, id: nat,
                       step: Option<Result<string, ClientError>>)
    requires Awaited(start, before, decode, id, None) && TookFrame(before, after, decode, id, step)
    ensures Awaited(start, after, decode, id, step)
  {
    assert forall i :: 0 <= i < |before| ==> after[i] == before[i];
  }

  function SaturatingNext(id: nat): nat {
    if id >= MAX_U64 then MAX_U64 else id + 1
  }

  // The id of the request issued after `issued` others.
  function RequestId(issued: nat): nat {
    if issued + 1 <= MAX_U64 then issued + 1 else MAX_U64
  }

  datatype Serialized = Serialized(pieces: seq<Bytes>, completes: bool)

  // The request serializes within the frame bound.
  predicate Encodes(json: Serialized) { json.completes && !TooLarge(|Flatten(json.pieces)|) }

  function RequestBytes(json: Serialized): Bytes { Flatten(json.pieces) + [NEWLINE] }

  // A write that fails has handed over any prefix of the request.
  datatype WriteOutcome = WritesAll | WriteStops(written: nat)

  function Taken(request: Bytes, written: nat): (taken: Bytes)
    ensures taken <= request && |taken| == if written <= |request| then written else |request|
  {
    if written <= |request| then request[..written] else request
  }

  // A request that does not encode is refused before a byte is written.
  method EncodeOrRefuse(json: Serialized) returns (r: Result<Bytes, ClientError>)
    ensures r == if Encodes(json) then Ok(RequestBytes(json))
                 else Err(if TooLarge(|Flatten(json.pieces)|) then RequestFrameTooLarge else NotSent)
    ensures r.Ok? <==> json.completes && |Flatten(json.pieces)| <= 1_048_576
  {
    var encoded := EncodeRequest(json.pieces, json.completes);
    if encoded.Err? {
      return Err(if encoded.error.RequestTooLarge? then RequestFrameTooLarge else NotSent);
    }
    return Ok(encoded.value);
  }

  // ---------------------------------------------------------------------
  // The client
  // ---------------------------------------------------------------------

  class BlockingClient {
    const reader: BufReader
    const decode: Bytes -> Message
    var nextId: nat
    var timeoutSet: bool
    var pending: seq<Bytes>
    // The bytes the socket has taken.
    ghost var sent: Bytes
    // The lines read so far; while `intact`, they and what is still to arrive
    // are the bytes of `wire`.
    ghost var wire: Bytes
    ghost var lines: seq<Bytes>
    ghost var intact: bool
    // The events handed out, and the requests issued.
    ghost var handed: seq<Bytes>
    ghost var issued: nat

    ghost predicate Wired()
      reads this, reader
    {
      && NoEmptyReads(reader.arrivals)
      && OneLineEach(lines)
      && (intact ==> Join(lines) + Lead(reader.arrivals) == wire)
    }

    // Events handed out followed by events pending are the readable events
    // among the frames read, in wire order.
    ghost predicate Valid()
      reads this, reader
    {
      && Wired()
      && handed + pending == Events(lines, decode)
      && nextId == RequestId(issued)
    }

    // A connection whose hello has been read.
    constructor (reader: BufReader, decode: Bytes -> Message)
      requires NoEmptyReads(reader.arrivals)
      ensures Valid() && this.reader == reader && this.decode == decode
      ensures nextId == 1 && pending == [] && lines == [] && handed == [] && intact && wire == Lead(reader.arrivals)
    {
      this.reader, this.decode := reader, decode;
      nextId, timeoutSet, pending := 1, true, [];
      sent, wire, lines, intact, handed, issued := [], Lead(reader.arrivals), [], true, [], 0;
      new;
      assert [] + Lead(reader.arrivals) == Lead(reader.arrivals);
    }

    // Read one frame and record the line it came from.
    method ReadOne() returns (r: FrameResult)
      requires Wired()
      modifies reader, this`lines, this`intact
      ensures Wired()
      ensures r.Frame? ==>
        && |lines| == |old(lines)| + 1 && old(lines) <= lines
        && r.bytes == StripCr(lines[|old(lines)|])
        && intact == old(intact)
        && |Lead(reader.arrivals)| < |Lead(old(reader.arrivals))|
      ensures !r.Frame? ==> lines == old(lines)
    {
      ghost var before := Lead(reader.arrivals);
      r := ReadBlockingFrame(reader);
      if r.Frame? {
        FirstLineTaken(lines, before);
        lines := lines + [Complete(before)[0]];
      } else {
        intact := false;
      }
    }

    method Request(serialize: nat -> Serialized, write: WriteOutcome) returns (r: Result<string, ClientError>)
      requires Valid()
      modifies this, reader
      ensures Valid() && issued == old(issued) + 1 && handed == old(handed) && wire == old(wire)
      ensures old(pending) <= pending && old(sent) <= sent && old(lines) <= lines
      // A request written whole is awaited: only events are passed over, and
      // the outcome is what the last frame says or an error of the connection.
      ensures var json := serialize(RequestId(old(issued)));
        Encodes(json) && write.WritesAll? ==>
          && sent == old(sent) + RequestBytes(json)
          && OnlyEventsBetween(old(lines), lines, decode)
          && Ended(old(lines), lines, decode, RequestId(old(issued)), r)
      // A result, and a refusal, come from a frame carrying this request's id,
      // once the whole request was written.
      ensures r.Ok? || CertaintyOf(r.error) == Refused ==>
        && |old(lines)| < |lines|
        && Settles(decode(StripCr(lines[|lines| - 1])), RequestId(old(issued)), r)
        && sent == old(sent) + RequestBytes(serialize(RequestId(old(issued))))
      // Known not sent is exactly a request that does not encode: no byte was
      // written and none was read.
      ensures r.Err? && CertaintyOf(r.error) == KnownNotSent <==> !Encodes(serialize(RequestId(old(issued))))
      ensures !Encodes(serialize(RequestId(old(issued)))) ==>
        sent == old(sent) && lines == old(lines) && reader.arrivals == old(reader.arrivals)
    {
      ghost var start := lines;
      var id, failed := Issue(serialize, write);
      if failed.Some? { return Err(failed.value); }
      r := Await(id);
      EndedByAnswer(start, lines, decode, id, r);
    }

    // Assign an id, encode the request and write it.
    method Issue(serialize: nat -> Serialized, write: WriteOutcome) returns (id: nat, failed: Option<ClientError>)
      requires nextId == RequestId(issued)
      modifies this`nextId, this`issued, this`sent
      ensures nextId == RequestId(issued) && issued == old(issued) + 1
      ensures id == RequestId(old(issued)) && old(sent) <= sent
      ensures failed.None? <==> Encodes(serialize(id)) && write.WritesAll?
      ensures failed.None? ==> sent == old(sent) + RequestBytes(serialize(id))
      ensures !Encodes(serialize(id)) ==> CertaintyOf(failed.value) == KnownNotSent && sent == old(sent)
      ensures Encodes(serialize(id)) && write.WriteStops? ==>
        && CertaintyOf(failed.value) == OutcomeUnknown
        && sent == old(sent) + Taken(RequestBytes(serialize(id)), write.written)
    {
      id := nextId;
      nextId := SaturatingNext(nextId);
      issued := issued + 1;
      var request := EncodeOrRefuse(serialize(id));
      if request.Err? {
        return id, Some(request.error);
      }
      if write.WriteStops? {
        sent := sent + Taken(request.value, write.written);
        return id, Some(Unknown);
      }
      sent := sent + request.value;
      return id, None;
    }

    // Read frames, buffering events, until the answer to `id` or an error.
    method Await(id: nat) returns (r: Result<string, ClientError>)
      requires Valid()
      modifies reader, this`lines, this`intact, this`pending
      ensures Valid() && old(pending) <= pending && old(lines) <= lines
      ensures OnlyEventsBetween(old(lines), lines, decode) && Ended(old(lines), lines, decode, id, r)
    {
      ghost var start := lines;
      var step := None;
      while step.None?
        invariant Valid() && old(pending) <= pending
        invariant Awaited(start, lines, decode, id, step)
        decreases step.None?, |Lead(reader.arrivals)|
      {
        ghost var before := lines;
        step := TakeFrame(id);
        AwaitedOneMore(start, before, lines, decode, id, step);
      }
      return step.value;
    }

    // One frame of a wait: an event is buffered and the wait goes on.
    method TakeFrame(id: nat) returns (step: Option<Result<string, ClientError>>)
      requires Valid()
      modifies reader, this`lines, this`intact, this`pending
      ensures Valid() && TookFrame(old(lines), lines, decode, id, step)
      ensures pending == old(pending) + if step.None? then [StripCr(lines[|lines| - 1])] else []
      ensures step.None? ==> |Lead(reader.arrivals)| < |Lead(old(reader.arrivals))|
    {
      ghost var before := lines;
      var frame := ReadOne();
      JudgeIsSound(frame, decode, id, timeoutSet);
      step := Judge(frame, decode, id, timeoutSet);
      if frame.Frame? {
        EventsOneMore(before, lines, decode);
      }
      if step.None? {
        Assoc(handed, pending, [frame.bytes]);
        pending := pending + [frame.bytes];
      }
    }

    // The oldest event not handed out yet: a pending one, or the next frame.
    method NextEvent() returns (r: Result<Bytes, ClientError>)
      requires Valid()
      modifies this, reader
      ensures Valid() && issued == old(issued) && sent == old(sent) && wire == old(wire)
      ensures old(pending) != [] ==>
        r == Ok(old(pending)[0]) && pending == old(pending)[1..] && lines == old(lines)
      ensures old(pending) == [] ==>
        && pending == [] && old(lines) <= lines && |lines| <= |old(lines)| + 1
        && (r.Ok? <==> lines != old(lines) && IsEvent(decode(StripCr(lines[|old(lines)|]))))
        && (r.Ok? ==> r.value == StripCr(lines[|old(lines)|]))
      ensures r.Ok? ==> handed == old(handed) + [r.value] && IsEvent(decode(r.value))
      ensures r.Err? ==> handed == old(handed) && CertaintyOf(r.error) in {StreamGap, OutcomeUnknown}
    {
      EventsAreEvents(lines, decode);
      if pending != [] {
        assert (handed + pending)[|handed|] == pending[0];
        r := Ok(pending[0]);
        handed := handed + [pending[0]];
        pending := pending[1..];
        return;
      }
      ghost var before := lines;
      var frame := ReadOne();
      r := JudgeEvent(frame, decode, timeoutSet);
      if frame.Frame? {
        EventsOneMore(before, lines, decode);
      }
      if r.Ok? {
        handed := handed + [r.value];
      }
    }
  }

  ghost predicate OneLineEach(lines: seq<Bytes>) {
    forall i :: 0 <= i < |lines| ==> NEWLINE !in lines[i]
  }

  // Taking the first line of what is to arrive moves it to the lines read.
  lemma FirstLineTaken(lines: seq<Bytes>, bytes: Bytes)
    requires OneLineEach(lines) && Complete(bytes) != []
    ensures OneLineEach(lines + [Complete(bytes)[0]])
    ensures Join(lines + [Complete(bytes)[0]]) + Rest(bytes) == Join(lines) + bytes
    ensures |Rest(bytes)| < |bytes|
  {
    var line := Complete(bytes)[0];
    assert bytes == line + [NEWLINE] + Rest(bytes);
    JoinSnoc(lines, line, Rest(bytes));
  }

  lemma JoinSnoc(lines: seq<Bytes>, line: Bytes, rest: Bytes)
    ensures Join(lines + [line]) + rest == Join(lines) + (line + [NEWLINE] + rest)
  {
    assert (lines + [line])[..|lines|] == lines;
  }

  lemma {:induction false} EventsAreEvents(lines: seq<Bytes>, decode: Bytes -> Message)
    ensures forall i :: 0 <= i < |Events(lines, decode)| ==> IsEvent(decode(Events(lines, decode)[i]))
  {
    if lines != [] {
      EventsAreEvents(lines[..|lines| - 1], decode);
    }
  }

  // THEOREM. While no read has failed, the lines read are the first lines of
  // the wire, so the events of the client are the events among them.
  lemma {:induction false} LinesAreWirePrefix(lines: seq<Bytes>, rest: Bytes, wire: Bytes)
    requires OneLineEach(lines) && Join(lines) + rest == wire
    ensures lines <= Complete(wire) && Complete(wire) == lines + Complete(rest)
    decreases |lines|
  {
    if lines == [] {
      assert [] + rest == rest;
    } else {
      var n := |lines| - 1;
      var more := lines[n] + [NEWLINE] + rest;
      assert lines == lines[..n] + [lines[n]];
      JoinSnoc(lines[..n], lines[n], rest);
      LinesAreWirePrefix(lines[..n], more, wire);
      SplitCons(lines[n], rest);
    }
  }

  // THEOREM. Two requests share an id if and only if the earlier one already
  // had the saturated id; otherwise no frame settles both.
  lemma RequestIdsUnique(i: nat, j: nat, m: Message, r: Result<string, ClientError>, q: Result<string, ClientError>)
    requires i < j
    ensures RequestId(i) == RequestId(j) <==> i + 1 >= MAX_U64
    ensures Settles(m, RequestId(i), r) && Settles(m, RequestId(j), q) ==> i + 1 >= MAX_U64
    ensures RequestId(i + 1) == SaturatingNext(RequestId(i))
  {
  }
}
