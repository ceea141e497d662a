/**
 * The crash-safe append-only ledger (`cyclops-ledger`), strict replay mode.
 *
 * The serializer, the UTF-8 check and the JSON parser are one `Codec` value;
 * every I/O call that can fail is a parameter saying where it failed.
 */
module Ledger {
  import opened Wrappers
  import opened Delimited
  import opened Seqs

  // A ledger line: the fields the writer assigns, and the rest as one value.
  datatype LedgerLine = LedgerLine(seq_: nat, bootId: string, ts: nat, content: string)

  // What the strict reader makes of one raw line.
  datatype Parsed = NotText | Blank | Malformed | Record(line: LedgerLine)

  datatype Codec = Codec(encode: LedgerLine -> Option<Bytes>, parse: Bytes -> Parsed)

  // What JSON promises: one line of text that does not end in a carriage
  // return and parses back to the value it was made from.
  ghost predicate Lawful(codec: Codec) {
    forall line, raw :: codec.encode(line) == Some(raw) ==>
      && NEWLINE !in raw
      && StripCr(raw) == raw
      && codec.parse(raw) == Record(line)
  }

  datatype LedgerError =
    | Io
    | Serialize
    | CorruptLine(line: nat)
    | SequenceGap(line: nat, expected: nat, found: nat)
    | SequenceExhausted
    | WriteStateUnknown
    | WriterInUse
    | WriterSealed

  // ---------------------------------------------------------------------
  // The file
  // ---------------------------------------------------------------------

  // `cache` is what reads see, `stable` what the device holds. They agree up
  // to `synced`, the length a successful sync has made durable.
  datatype File = File(cache: Bytes, stable: Bytes, synced: nat)

  ghost predicate FileValid(f: File) {
    && f.synced <= |f.cache|
    && f.synced <= |f.stable|
    && f.cache[..f.synced] == f.stable[..f.synced]
  }

  function Write(f: File, bytes: Bytes): File {
    f.(cache := f.cache + bytes)
  }

  function Sync(f: File): File {
    File(f.cache, f.cache, |f.cache|)
  }

  function SetLen(f: File, len: nat): File
    requires len <= |f.cache|
  {
    File(f.cache[..len], f.stable, if f.synced <= len then f.synced else len)
  }

  // After a crash the file is a prefix of what was written or of what the
  // device held (a truncation may be lost), never shorter than what was synced.
  ghost predicate CrashLeaves(f: File, bytes: Bytes) {
    f.synced <= |bytes| && (bytes <= f.cache || bytes <= f.stable)
  }

  // ---------------------------------------------------------------------
  // Strict replay
  // ---------------------------------------------------------------------

  // `BufRead::lines`: every terminated line without its newline (and one
  // carriage return before it), then an unterminated last line as it is.
  function Lines(s: Bytes): seq<Bytes> {
    seq(|Complete(s)|, i requires 0 <= i < |Complete(s)| => StripCr(Complete(s)[i]))
    + if Tail(s) == [] then [] else [Tail(s)]
  }

  lemma LinesExactly(s: Bytes)
    ensures |Lines(s)| == |Complete(s)| + if Tail(s) == [] then 0 else 1
    ensures forall i :: 0 <= i < |Complete(s)| ==> Lines(s)[i] == StripCr(Complete(s)[i])
    ensures Tail(s) != [] ==> Lines(s)[|Complete(s)|] == Tail(s)
  {
  }

  // Why strict replay stops at the line with index `i`, if it does.
  function LineFault(raw: Bytes, i: nat, parse: Bytes -> Parsed): Option<LedgerError> {
    match parse(raw)
    case NotText => Some(Io)
    case Blank => Some(CorruptLine(i + 1))
    case Malformed => Some(CorruptLine(i + 1))
    case Record(line) =>
      if line.seq_ != i + 1 then Some(SequenceGap(i + 1, i + 1, line.seq_))
      else if i + 1 >= MAX_U64 then Some(SequenceExhausted)
      else None
  }

  // Replay accepts exactly the lines numbered 1, 2, 3, ...; it returns the
  // ones past the cursor, and otherwise names the first line that is wrong.
  function Replay(lines: seq<Bytes>, parse: Bytes -> Parsed, cursor: nat): (r: Result<seq<LedgerLine>, LedgerError>)
    ensures r.Ok? <==> forall i :: 0 <= i < |lines| ==> LineFault(lines[i], i, parse) == None
    ensures r.Ok? ==> |r.value| == if cursor <= |lines| then |lines| - cursor else 0
    ensures r.Ok? ==> forall k :: 0 <= k < |r.value| ==> parse(lines[cursor + k]) == Record(r.value[k])
    ensures r.Err? ==> exists i :: 0 <= i < |lines| && LineFault(lines[i], i, parse) == Some(r.error)
                                && forall j :: 0 <= j < i ==> LineFault(lines[j], j, parse) == None
  {
    if lines == [] then Ok([])
    else
      var n := |lines| - 1;
      var before := Replay(lines[..n], parse, cursor);
      if before.Err? then before
      else match LineFault(lines[n], n, parse)
        case Some(error) => Err(error)
        case None =>
          var line := parse(lines[n]).line;
          if line.seq_ > cursor then Ok(before.value + [line]) else before
  }

  // A record in its place: the line numbered `i + 1`, short of the last number.
  ghost predicate InPlace(raw: Bytes, i: nat, parse: Bytes -> Parsed) {
    parse(raw).Record? && parse(raw).line.seq_ == i + 1 < MAX_U64
  }

  // THEOREM. Strict replay accepts exactly a file of records in their places.
  // Otherwise it names the first line that is not one, and what is wrong there.
  lemma ReplayExactly(lines: seq<Bytes>, parse: Bytes -> Parsed, cursor: nat)
    ensures Replay(lines, parse, cursor).Ok? <==> forall i :: 0 <= i < |lines| ==> InPlace(lines[i], i, parse)
  {
    assert forall i :: 0 <= i < |lines| ==> (InPlace(lines[i], i, parse) <==> LineFault(lines[i], i, parse) == None);
  }

  lemma ReplayNamesFault(lines: seq<Bytes>, parse: Bytes -> Parsed, cursor: nat, i: nat)
    requires i < |lines| && !InPlace(lines[i], i, parse)
    requires forall j :: 0 <= j < i ==> InPlace(lines[j], j, parse)
    ensures Replay(lines, parse, cursor) == Err(match parse(lines[i])
      case NotText => Io
      case Blank => CorruptLine(i + 1)
      case Malformed => CorruptLine(i + 1)
      case Record(line) => if line.seq_ == i + 1 then SequenceExhausted else SequenceGap(i + 1, i + 1, line.seq_))
  {
    ReplayExactly(lines[..i], parse, cursor);
    ReplayStopsAtFault(lines, parse, cursor, i);
  }

  method ReadFromStrict(lines: seq<Bytes>, parse: Bytes -> Parsed, cursor: nat)
    returns (r: Result<seq<LedgerLine>, LedgerError>)
    ensures r == Replay(lines, parse, cursor)
  {
    var out := [];
    var expected := 1;
    for index := 0 to |lines|
      invariant expected == index + 1
      invariant Replay(lines[..index], parse, cursor) == Ok(out)
    {
      ReplaySnoc(lines, parse, cursor, index);
      var error: Option<LedgerError> := None;
      match parse(lines[index]) {
        case NotText => error := Some(Io);
        case Blank => error := Some(CorruptLine(index + 1));
        case Malformed => error := Some(CorruptLine(index + 1));
        case Record(line) =>
          if line.seq_ != expected {
            error := Some(SequenceGap(index + 1, expected, line.seq_));
          } else if expected >= MAX_U64 {
            error := Some(SequenceExhausted);
          } else {
            expected := expected + 1;
            if line.seq_ > cursor { out := out + [line]; }
          }
      }
      if error.Some? {
        ReplayStopsAtFault(lines, parse, cursor, index);
        return Err(error.value);
      }
    }
    assert lines[..|lines|] == lines;
    return Ok(out);
  }

  // One more line is judged after those before it.
  lemma ReplaySnoc(lines: seq<Bytes>, parse: Bytes -> Parsed, cursor: nat, n: nat)
    requires n < |lines| && Replay(lines[..n], parse, cursor).Ok?
    ensures LineFault(lines[n], n, parse) == None ==>
      Replay(lines[..n + 1], parse, cursor) ==
      Ok(Replay(lines[..n], parse, cursor).value + if n + 1 > cursor then [parse(lines[n]).line] else [])
  {
    var upTo := lines[..n + 1];
    assert upTo[..n] == lines[..n] && upTo[n] == lines[n];
    var before := Replay(lines[..n], parse, cursor).value;
    assert before + [] == before;
  }

  // A fault decides the outcome whatever follows it.
  lemma {:induction false} ReplayStopsAtFault(lines: seq<Bytes>, parse: Bytes -> Parsed, cursor: nat, i: nat)
    requires i < |lines|
    requires Replay(lines[..i], parse, cursor).Ok?
    requires LineFault(lines[i], i, parse).Some?
    ensures Replay(lines, parse, cursor) == Err(LineFault(lines[i], i, parse).value)
    decreases |lines|
  {
    var front := lines[..|lines| - 1];
    if i < |front| {
      assert front[..i] == lines[..i] && front[i] == lines[i];
      ReplayStopsAtFault(front, parse, cursor, i);
    } else {
      assert front == lines[..i];
    }
  }

  // ---------------------------------------------------------------------
  // The writer
  // ---------------------------------------------------------------------

  datatype Writer = Writer(nextSeq: nat, writeStateUnknown: bool, sealed: bool, locked: bool, bootId: string)

  // Where an open stops early.
  datatype OpenFault = OpenRuns | LockFails | TailReadFails | TruncateFails | TailSyncFails | RewindFails

  // How an append's I/O ends: a failed write leaves any prefix of the buffer.
  datatype AppendFault = AppendRuns | WriteFails(kept: nat) | SyncFails

  datatype Opened = Opened(writer: Writer, lines: seq<LedgerLine>)

  // Remove an unterminated final write.
  function Repaired(f: File): File {
    SplitDropTail(f.cache);
    Sync(SetLen(f, |f.cache| - |Tail(f.cache)|))
  }

  function OpenStrict(f: File, leased: bool, codec: Codec, bootId: string, fault: OpenFault):
    (File, Result<Opened, LedgerError>)
  {
    if fault.LockFails? then (f, Err(Io))
    else if leased then (f, Err(WriterInUse))
    else if fault.TailReadFails? then (f, Err(Io))
    else if Tail(f.cache) != [] && fault.TruncateFails? then (f, Err(Io))
    else if Tail(f.cache) != [] && fault.TailSyncFails? then
      SplitDropTail(f.cache);
      (SetLen(f, |f.cache| - |Tail(f.cache)|), Err(Io))
    else
      var f' := if Tail(f.cache) == [] then f else Repaired(f);
      (f', if fault.RewindFails? then Err(Io) else Recover(f'.cache, codec, bootId))
  }

  // Recover the sequence state from a repaired file.
  function Recover(bytes: Bytes, codec: Codec, bootId: string): Result<Opened, LedgerError> {
    match Replay(Lines(bytes), codec.parse, 0)
    case Err(error) => Err(error)
    case Ok(lines) =>
      if lines == [] then Ok(Opened(Writer(1, false, false, true, bootId), lines))
      else if lines[|lines| - 1].seq_ >= MAX_U64 then Err(SequenceExhausted)
      else Ok(Opened(Writer(lines[|lines| - 1].seq_ + 1, false, false, true, bootId), lines))
  }

  // The line an append writes: sequence and boot id assigned, a zero
  // timestamp replaced by the clock.
  function Assigned(w: Writer, line: LedgerLine, now: nat): LedgerLine {
    line.(seq_ := w.nextSeq, bootId := w.bootId, ts := if line.ts == 0 then now else line.ts)
  }

  function Append(f: File, w: Writer, codec: Codec, line: LedgerLine, now: nat, fault: AppendFault):
    (File, Writer, Result<LedgerLine, LedgerError>)
  {
    if w.sealed then (f, w, Err(WriterSealed))
    else if w.writeStateUnknown then (f, w, Err(WriteStateUnknown))
    else if w.nextSeq >= MAX_U64 then (f, w, Err(SequenceExhausted))
    else
      var numbered := Assigned(w, line, now);
      match codec.encode(numbered)
      case None => (f, w, Err(Serialize))
      case Some(raw) =>
        var buffer := raw + [NEWLINE];
        match fault
        case WriteFails(kept) =>
          (Write(f, if kept <= |buffer| then buffer[..kept] else buffer), w.(writeStateUnknown := true), Err(Io))
        case SyncFails => (Write(f, buffer), w.(writeStateUnknown := true), Err(Io))
        case AppendRuns => (Sync(Write(f, buffer)), w.(nextSeq := w.nextSeq + 1), Ok(numbered))
  }

  // What an append submits: the caller's line under the writer's next number and
  // boot id, stamped by the clock if it carries no time of its own.
  ghost predicate IsSubmitted(stamped: LedgerLine, w: Writer, line: LedgerLine, now: nat) {
    && stamped.seq_ == w.nextSeq && stamped.bootId == w.bootId && stamped.content == line.content
    && (line.ts != 0 ==> stamped.ts == line.ts) && (line.ts == 0 ==> stamped.ts == now)
  }

  // THEOREM. An append succeeds exactly when the writer may append, the line
  // serializes and the I/O runs; it then returns the submitted line, written
  // whole and synced. A refusal says why and changes nothing; a failed write or
  // sync stops the writer and leaves some prefix of the line.
  lemma AppendExactly(f: File, w: Writer, codec: Codec, line: LedgerLine, now: nat, fault: AppendFault, stamped: LedgerLine)
    requires IsSubmitted(stamped, w, line, now)
    ensures var (file, writer, r) := Append(f, w, codec, line, now, fault);
      var raw := codec.encode(stamped);
      if w.sealed then r == Err(WriterSealed) && file == f && writer == w
      else if w.writeStateUnknown then r == Err(WriteStateUnknown) && file == f && writer == w
      else if w.nextSeq >= MAX_U64 then r == Err(SequenceExhausted) && file == f && writer == w
      else if raw == None then r == Err(Serialize) && file == f && writer == w
      else if fault.AppendRuns? then
        && r == Ok(stamped) && writer == w.(nextSeq := w.nextSeq + 1)
        && file.cache == file.stable == f.cache + raw.value + [NEWLINE] && file.synced == |file.cache|
      else
        && r == Err(Io) && writer == w.(writeStateUnknown := true)
        && f.cache <= file.cache <= f.cache + (raw.value + [NEWLINE]) && file.stable == f.stable && file.synced == f.synced
        && (fault.SyncFails? ==> file.cache == f.cache + (raw.value + [NEWLINE]))
  {
    assert stamped == Assigned(w, line, now);
    var raw := codec.encode(stamped);
    if raw.Some? {
      Assoc(f.cache, raw.value, [NEWLINE]);
    }
  }

  // Sealing always stops appends; the lease goes only if the unlock works.
  function Seal(w: Writer, unlockFails: bool): (Writer, Result<(), LedgerError>) {
    if w.locked && unlockFails then (w.(sealed := true), Err(Io))
    else (w.(sealed := true, locked := false), Ok(()))
  }

  // ---------------------------------------------------------------------
  // The objects that change in place
  // ---------------------------------------------------------------------

  // One ledger file and its advisory lease.
  class LedgerFile {
    var disk: File
    var leased: bool

    constructor (disk: File)
      ensures this.disk == disk && !leased
    {
      this.disk := disk;
      leased := false;
    }
  }

  class LedgerWriter {
    const file: LedgerFile
    const bootId: string
    var nextSeq: nat
    var writeStateUnknown: bool
    var sealed: bool
    var locked: bool

    constructor (file: LedgerFile, bootId: string, nextSeq: nat)
      ensures this.file == file && this.bootId == bootId
      ensures State() == Writer(nextSeq, false, false, true, bootId)
    {
      this.file, this.bootId, this.nextSeq := file, bootId, nextSeq;
      writeStateUnknown, sealed, locked := false, false, true;
    }

    function State(): Writer
      reads this
    {
      Writer(nextSeq, writeStateUnknown, sealed, locked, bootId)
    }

    static method Open(file: LedgerFile, codec: Codec, bootId: string, fault: OpenFault)
      returns (r: Result<(LedgerWriter, seq<LedgerLine>), LedgerError>)
      modifies file
      ensures file.disk == OpenStrict(old(file.disk), old(file.leased), codec, bootId, fault).0
      ensures file.leased == (old(file.leased) || r.Ok?)
      ensures match OpenStrict(old(file.disk), old(file.leased), codec, bootId, fault).1
              case Err(error) => r == Err(error)
              case Ok(o) =>
                && r.Ok? && fresh(r.value.0) && r.value.0.file == file
                && r.value.0.State() == o.writer
                && r.value.1 == o.lines
    {
      if fault.LockFails? { return Err(Io); }
      if file.leased { return Err(WriterInUse); }
      if fault.TailReadFails? { return Err(Io); }
      var repaired := RepairTail(file, fault);
      if !repaired || fault.RewindFails? { return Err(Io); }
      var replayed := ReadFromStrict(Lines(file.disk.cache), codec.parse, 0);
      match replayed {
        case Err(error) => return Err(error);
        case Ok(lines) =>
          var nextSeq := 1;
          if lines != [] {
            if lines[|lines| - 1].seq_ >= MAX_U64 { return Err(SequenceExhausted); }
            nextSeq := lines[|lines| - 1].seq_ + 1;
          }
          file.leased := true;
          var writer := new LedgerWriter(file, bootId, nextSeq);
          return Ok((writer, lines));
      }
    }

    // Remove an unterminated final write, if there is one.
    static method RepairTail(file: LedgerFile, fault: OpenFault) returns (repaired: bool)
      modifies file`disk
      ensures |Tail(old(file.disk).cache)| <= |old(file.disk).cache|
      ensures file.disk ==
        if Tail(old(file.disk).cache) == [] || fault.TruncateFails? then old(file.disk)
        else if fault.TailSyncFails? then
          SetLen(old(file.disk), |old(file.disk).cache| - |Tail(old(file.disk).cache)|)
        else Repaired(old(file.disk))
      ensures repaired == (Tail(old(file.disk).cache) == [] || (!fault.TruncateFails? && !fault.TailSyncFails?))
    {
      SplitDropTail(file.disk.cache);
      var retained := LastNewlineEnd(file.disk.cache);
      if retained < |file.disk.cache| {
        if fault.TruncateFails? { return false; }
        file.disk := SetLen(file.disk, retained);
        if fault.TailSyncFails? { return false; }
        file.disk := Sync(file.disk);
      }
      return true;
    }

    method AppendLine(codec: Codec, line: LedgerLine, now: nat, fault: AppendFault)
      returns (r: Result<LedgerLine, LedgerError>)
      modifies this, file`disk
      ensures (file.disk, State(), r) == Append(old(file.disk), old(State()), codec, line, now, fault)
    {
      if sealed { return Err(WriterSealed); }
      if writeStateUnknown { return Err(WriteStateUnknown); }
      if nextSeq >= MAX_U64 { return Err(SequenceExhausted); }
      var numbered := line.(seq_ := nextSeq, bootId := bootId, ts := if line.ts == 0 then now else line.ts);
      var encoded := codec.encode(numbered);
      if encoded.None? { return Err(Serialize); }
      var buffer := encoded.value + [NEWLINE];
      if fault.WriteFails? {
        file.disk := Write(file.disk, if fault.kept <= |buffer| then buffer[..fault.kept] else buffer);
        writeStateUnknown := true;
        return Err(Io);
      }
      file.disk := Write(file.disk, buffer);
      if fault.SyncFails? {
        writeStateUnknown := true;
        return Err(Io);
      }
      file.disk := Sync(file.disk);
      nextSeq := nextSeq + 1;
      return Ok(numbered);
    }

    method ReadAfter(codec: Codec, cursor: nat, rewindFails: bool) returns (r: Result<seq<LedgerLine>, LedgerError>)
      ensures r == if rewindFails then Err(Io) else Replay(Lines(file.disk.cache), codec.parse, cursor)
    {
      if rewindFails { return Err(Io); }
      r := ReadFromStrict(Lines(file.disk.cache), codec.parse, cursor);
    }

    method SealWriter(unlockFails: bool) returns (r: Result<(), LedgerError>)
      modifies this, file`leased
      ensures (State(), r) == Seal(old(State()), unlockFails)
      ensures sealed && nextSeq == old(nextSeq) && writeStateUnknown == old(writeStateUnknown)
      ensures r == if old(locked) && unlockFails then Err(Io) else Ok(())
      ensures locked <==> r.Err?
      ensures file.leased == (old(file.leased) && !(old(locked) && !locked))
    {
      sealed := true;
      if locked {
        if unlockFails { return Err(Io); }
        file.leased := false;
        locked := false;
      }
      return Ok(());
    }
  }

  // One past the last newline, or zero: what a repair retains.
  method LastNewlineEnd(bytes: Bytes) returns (retained: nat)
    ensures retained == |bytes| - |Tail(bytes)|
  {
    retained := |bytes|;
    assert bytes[..retained] == bytes;
    while retained > 0 && bytes[retained - 1] != NEWLINE
      invariant retained <= |bytes|
      invariant |bytes| - |Tail(bytes)| == retained - |Tail(bytes[..retained])|
    {
      assert bytes[..retained][..retained - 1] == bytes[..retained - 1];
      retained := retained - 1;
    }
  }
}
