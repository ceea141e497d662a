/**
 * Every interleaving of strict opens, appends, I/O failures, seals, drops and
 * crashes on one ledger file.
 */
module LedgerRuns {
  import opened Wrappers
  import opened Delimited
  import opened Seqs
  import opened Ledger

  // The file, who holds its lease, the open writers, and the lines
  // acknowledged so far by sequence number.
  datatype World = World(file: File, lease: Option<nat>, writers: map<nat, Writer>, acked: map<nat, LedgerLine>)

  datatype Event =
    | Open(id: nat, bootId: string, openFault: OpenFault)
    | AppendTo(id: nat, line: LedgerLine, now: nat, appendFault: AppendFault)
    | SealOf(id: nat, unlockFails: bool)
    | Drop(id: nat)
    | Crash(left: Bytes)

  const Start := World(File([], [], 0), None, map[], map[])

  ghost predicate Possible(w: World, e: Event) {
    match e
    case Open(id, _, _) => id !in w.writers
    case AppendTo(id, _, _, _) => id in w.writers
    case SealOf(id, _) => id in w.writers
    case Drop(id) => id in w.writers
    case Crash(left) => CrashLeaves(w.file, left)
  }

  ghost function Step(w: World, e: Event, codec: Codec): World
    requires Possible(w, e)
  {
    match e
    case Open(id, bootId, fault) =>
      var (file, r) := OpenStrict(w.file, w.lease.Some?, codec, bootId, fault);
      if r.Err? then w.(file := file)
      else w.(file := file, lease := Some(id), writers := w.writers[id := r.value.writer])
    case AppendTo(id, line, now, fault) =>
      var (file, writer, r) := Append(w.file, w.writers[id], codec, line, now, fault);
      w.(file := file, writers := w.writers[id := writer],
         acked := if r.Ok? then w.acked[r.value.seq_ := r.value] else w.acked)
    case SealOf(id, unlockFails) =>
      var writer := Seal(w.writers[id], unlockFails).0;
      w.(writers := w.writers[id := writer],
         lease := if w.writers[id].locked && !writer.locked then None else w.lease)
    case Drop(id) =>
      w.(writers := w.writers - {id}, lease := if w.writers[id].locked then None else w.lease)
    case Crash(left) =>
      World(File(left, left, |left|), None, map[], w.acked)
  }

  ghost predicate Execution(codec: Codec, worlds: seq<World>, events: seq<Event>) {
    && |worlds| == |events| + 1
    && worlds[0] == Start
    && forall i :: 0 <= i < |events| ==>
         Possible(worlds[i], events[i]) && worlds[i + 1] == Step(worlds[i], events[i], codec)
  }

  // ---------------------------------------------------------------------
  // The invariant
  // ---------------------------------------------------------------------

  // The records are numbered exactly 1..n, with room for one more.
  ghost predicate InSequence(records: seq<Bytes>, codec: Codec) {
    && |records| < MAX_U64
    && forall i :: 0 <= i < |records| ==> LineFault(StripCr(records[i]), i, codec.parse) == None
  }

  // The complete records of the file are.
  ghost predicate Numbered(bytes: Bytes, codec: Codec) {
    InSequence(Complete(bytes), codec)
  }

  ghost predicate FileOk(f: File, codec: Codec) {
    FileValid(f) && Numbered(f.cache, codec) && Numbered(f.stable, codec)
  }

  // An acknowledged line is a complete record of the synced part.
  ghost predicate Durable(f: File, s: nat, line: LedgerLine, codec: Codec) {
    && FileValid(f)
    && 1 <= s <= |Complete(f.cache[..f.synced])|
    && codec.encode(line) == Some(Complete(f.cache[..f.synced])[s - 1])
  }

  ghost predicate AllDurable(f: File, acked: map<nat, LedgerLine>, codec: Codec) {
    forall s :: s in acked ==> Durable(f, s, acked[s], codec)
  }

  ghost predicate CanAppend(w: Writer) {
    !w.sealed && !w.writeStateUnknown
  }

  ghost predicate LeaseInv(w: World) {
    && (forall id :: id in w.writers ==>
          (!w.writers[id].sealed ==> w.writers[id].locked) && (w.writers[id].locked ==> w.lease == Some(id)))
    && (w.lease.Some? ==> w.lease.value in w.writers && w.writers[w.lease.value].locked)
  }

  // A writer that can append stands at the end of a repaired file.
  ghost predicate Positioned(f: File, w: Writer) {
    CanAppend(w) ==> Tail(f.cache) == [] && w.nextSeq == |Complete(f.cache)| + 1
  }

  ghost predicate Inv(w: World, codec: Codec) {
    && FileOk(w.file, codec)
    && AllDurable(w.file, w.acked, codec)
    && LeaseInv(w)
    && forall id :: id in w.writers ==> Positioned(w.file, w.writers[id])
  }

  // ---------------------------------------------------------------------
  // What each file operation keeps
  // ---------------------------------------------------------------------

  // `g` is as well formed as `f` and loses nothing that was durable.
  ghost predicate Preserves(f: File, g: File, codec: Codec) {
    && FileOk(g, codec)
    && forall s, line :: Durable(f, s, line, codec) ==> Durable(g, s, line, codec)
  }

  lemma NumberedPrefix(p: Bytes, s: Bytes, codec: Codec)
    requires p <= s && Numbered(s, codec)
    ensures Numbered(p, codec)
  {
    SplitPrefix(p, s);
  }

  // Durable lines survive while the synced part only grows.
  lemma SyncedGrows(f: File, g: File, codec: Codec)
    requires FileOk(f, codec) && FileOk(g, codec)
    requires f.cache[..f.synced] <= g.cache[..g.synced]
    ensures Preserves(f, g, codec)
  {
    SplitPrefix(f.cache[..f.synced], g.cache[..g.synced]);
  }

  lemma WriteKeeps(f: File, bytes: Bytes, codec: Codec)
    requires FileOk(f, codec) && Numbered(f.cache + bytes, codec)
    ensures Preserves(f, Write(f, bytes), codec)
  {
    assert (f.cache + bytes)[..f.synced] == f.cache[..f.synced];
    SyncedGrows(f, Write(f, bytes), codec);
  }

  lemma SyncKeeps(f: File, codec: Codec)
    requires FileOk(f, codec)
    ensures Preserves(f, Sync(f), codec)
  {
    assert f.cache[..|f.cache|] == f.cache;
    SyncedGrows(f, Sync(f), codec);
  }

  // Truncating the unterminated tail keeps every complete record.
  lemma TruncateKeeps(f: File, codec: Codec)
    requires FileOk(f, codec)
    ensures |Tail(f.cache)| <= |f.cache|
    ensures var g := SetLen(f, |f.cache| - |Tail(f.cache)|);
      && Preserves(f, g, codec)
      && Tail(g.cache) == [] && Complete(g.cache) == Complete(f.cache)
  {
    SplitDropTail(f.cache);
    var len := |f.cache| - |Tail(f.cache)|;
    var g := SetLen(f, len);
    if f.synced <= len {
      assert g.cache[..g.synced] == f.cache[..f.synced];
      SyncedGrows(f, g, codec);
    } else {
      CutSynced(f, len);
      SplitPrefix(f.cache[..f.synced], f.cache);
    }
  }

  lemma CutSynced(f: File, len: nat)
    requires FileValid(f) && len <= f.synced
    ensures FileValid(SetLen(f, len)) && SetLen(f, len).cache[..SetLen(f, len).synced] == f.cache[..len]
  {
    assert f.stable[..len] == f.stable[..f.synced][..len];
    assert f.cache[..len] == f.cache[..f.synced][..len];
  }

  lemma CrashKeeps(f: File, left: Bytes, codec: Codec)
    requires FileOk(f, codec) && CrashLeaves(f, left)
    ensures Preserves(f, File(left, left, |left|), codec)
  {
    var g := File(left, left, |left|);
    if left <= f.cache {
      NumberedPrefix(left, f.cache, codec);
      assert left[..f.synced] == f.cache[..f.synced];
    } else {
      NumberedPrefix(left, f.stable, codec);
      assert left[..f.synced] == f.stable[..f.synced];
    }
    assert g.cache[..g.synced] == left;
    SyncedGrows(f, g, codec);
  }

  // ---------------------------------------------------------------------
  // Opening
  // ---------------------------------------------------------------------

  // `lines` are the records of the file, parsed and in order.
  ghost predicate RecordsOf(bytes: Bytes, lines: seq<LedgerLine>, codec: Codec) {
    && |lines| == |Complete(bytes)|
    && forall i :: 0 <= i < |lines| ==>
         codec.parse(StripCr(Complete(bytes)[i])) == Record(lines[i]) && lines[i].seq_ == i + 1
  }

  // Replaying a repaired, correctly numbered file succeeds and returns its
  // records in order.
  lemma NumberedReplays(bytes: Bytes, codec: Codec)
    requires Numbered(bytes, codec) && Tail(bytes) == []
    ensures Replay(Lines(bytes), codec.parse, 0).Ok?
    ensures RecordsOf(bytes, Replay(Lines(bytes), codec.parse, 0).value, codec)
  {
    var r := Replay(Lines(bytes), codec.parse, 0);
    assert forall i :: 0 <= i < |Lines(bytes)| ==> LineFault(Lines(bytes)[i], i, codec.parse) == None;
    forall i | 0 <= i < |r.value|
      ensures codec.parse(StripCr(Complete(bytes)[i])) == Record(r.value[i]) && r.value[i].seq_ == i + 1
    {
      assert codec.parse(Lines(bytes)[0 + i]) == Record(r.value[i]);
    }
  }

  lemma RecoverSucceeds(bytes: Bytes, codec: Codec, bootId: string)
    requires Numbered(bytes, codec) && Tail(bytes) == []
    ensures var r := Recover(bytes, codec, bootId);
      && r.Ok? && RecordsOf(bytes, r.value.lines, codec)
      && r.value.writer == Writer(|Complete(bytes)| + 1, false, false, true, bootId)
  {
    NumberedReplays(bytes, codec);
  }

  lemma OpenPreserves(f: File, leased: bool, codec: Codec, bootId: string, fault: OpenFault)
    requires FileOk(f, codec)
    ensures Preserves(f, OpenStrict(f, leased, codec, bootId, fault).0, codec)
  {
    TruncateKeeps(f, codec);
    var g := SetLen(f, |f.cache| - |Tail(f.cache)|);
    SyncKeeps(g, codec);
    PreservesTrans(f, g, Sync(g), codec);
    OpenFiles(f, leased, codec, bootId, fault);
  }

  // The file an open leaves: as it was, truncated, or truncated and synced.
  lemma OpenFiles(f: File, leased: bool, codec: Codec, bootId: string, fault: OpenFault)
    ensures |Tail(f.cache)| <= |f.cache|
    ensures var g := SetLen(f, |f.cache| - |Tail(f.cache)|);
      OpenStrict(f, leased, codec, bootId, fault).0 in {f, g, Sync(g)}
  {
    SplitDropTail(f.cache);
  }

  lemma PreservesTrans(f: File, g: File, h: File, codec: Codec)
    requires Preserves(f, g, codec) && Preserves(g, h, codec)
    ensures Preserves(f, h, codec)
  {
  }

  // On a file this system can produce, strict open never reports corruption,
  // a gap or exhaustion: only an I/O fault or a lease already held stops it.
  // A successful open has repaired the file, kept every complete record, and
  // stands right after the last one.
  lemma OpenSucceeds(f: File, leased: bool, codec: Codec, bootId: string, fault: OpenFault)
    requires FileOk(f, codec)
    ensures var (file, r) := OpenStrict(f, leased, codec, bootId, fault);
      && (r.Err? ==> r.error == if leased && !fault.LockFails? then WriterInUse else Io)
      && (!leased && fault.OpenRuns? ==> r.Ok?)
      && (leased ==> r.Err? && file == f)
      && (r.Ok? ==>
            && Tail(file.cache) == [] && Complete(file.cache) == Complete(f.cache)
            && Numbered(file.cache, codec)
            && r.value.writer == Writer(|Complete(file.cache)| + 1, false, false, true, bootId)
            && RecordsOf(file.cache, r.value.lines, codec))
  {
    TruncateKeeps(f, codec);
    var g := SetLen(f, |f.cache| - |Tail(f.cache)|);
    assert Tail(f.cache) == [] ==> g.cache == f.cache;
    RecoverSucceeds(g.cache, codec, bootId);
  }

  // On any file at all, an open that meets no fault and no lease is the strict
  // replay of the complete lines: it fails as that fails, and hands over what it
  // returns.
  lemma OpenIsReplay(f: File, codec: Codec, bootId: string)
    ensures |Tail(f.cache)| <= |f.cache|
    ensures var (file, r) := OpenStrict(f, false, codec, bootId, OpenRuns);
      var kept := f.cache[..|f.cache| - |Tail(f.cache)|];
      && file.cache == kept && Complete(kept) == Complete(f.cache) && Tail(kept) == []
      && (Tail(f.cache) != [] ==> file.stable == kept && file.synced == |kept|)
      && match Replay(Lines(kept), codec.parse, 0)
         case Err(error) => r == Err(error)
         case Ok(lines) => r == Ok(Opened(Writer(|lines| + 1, false, false, true, bootId), lines))
  {
    var g := RepairLeaves(f);
    assert OpenStrict(f, false, codec, bootId, OpenRuns) == (g, Recover(g.cache, codec, bootId));
    RecoverIsReplay(g.cache, codec, bootId);
  }

  lemma RepairLeaves(f: File) returns (g: File)
    ensures g == if Tail(f.cache) == [] then f else Repaired(f)
    ensures |Tail(f.cache)| <= |f.cache| && g.cache == f.cache[..|f.cache| - |Tail(f.cache)|]
    ensures Complete(g.cache) == Complete(f.cache) && Tail(g.cache) == []
    ensures Tail(f.cache) != [] ==> g.stable == g.cache && g.synced == |g.cache|
  {
    SplitDropTail(f.cache);
    g := if Tail(f.cache) == [] then f else Repaired(f);
    assert f.cache[..|f.cache|] == f.cache;
  }

  // Each I/O fault an open can reach stops it there: before the file is touched,
  // after the cut, or once the tail is repaired. One it does not reach, because
  // there is no tail to cut, changes nothing.
  lemma OpenFaults(f: File, codec: Codec, bootId: string, fault: OpenFault)
    requires fault != OpenRuns
    ensures |Tail(f.cache)| <= |f.cache|
    ensures var (file, r) := OpenStrict(f, false, codec, bootId, fault);
      var torn, kept := Tail(f.cache) != [], |f.cache| - |Tail(f.cache)|;
      && (fault in {TruncateFails, TailSyncFails} && !torn ==>
            (file, r) == OpenStrict(f, false, codec, bootId, OpenRuns))
      && (fault in {LockFails, TailReadFails} || (fault == TruncateFails && torn) ==> r == Err(Io) && file == f)
      && (fault == TailSyncFails && torn ==> r == Err(Io) && file == SetLen(f, kept))
      && (fault == RewindFails ==> r == Err(Io) && file == OpenStrict(f, false, codec, bootId, OpenRuns).0)
  {
    SplitDropTail(f.cache);
  }

  lemma RecoverIsReplay(bytes: Bytes, codec: Codec, bootId: string)
    ensures Recover(bytes, codec, bootId) == match Replay(Lines(bytes), codec.parse, 0)
      case Err(error) => Err(error)
      case Ok(lines) => Ok(Opened(Writer(|lines| + 1, false, false, true, bootId), lines))
  {
    var lines := Lines(bytes);
    ReplayExactly(lines, codec.parse, 0);
    var r := Replay(lines, codec.parse, 0);
    if r.Ok? && r.value != [] {
      var n := |r.value| - 1;
      assert InPlace(lines[n], n, codec.parse) && codec.parse(lines[0 + n]) == Record(r.value[n]);
    }
  }

  // ---------------------------------------------------------------------
  // Appending
  // ---------------------------------------------------------------------

  lemma InSequenceSnoc(records: seq<Bytes>, raw: Bytes, line: LedgerLine, codec: Codec)
    requires Lawful(codec) && InSequence(records, codec) && codec.encode(line) == Some(raw)
    requires line.seq_ == |records| + 1 < MAX_U64
    ensures InSequence(records + [raw], codec)
  {
  }

  lemma RecordExtends(f: File, raw: Bytes, line: LedgerLine, codec: Codec)
    requires Lawful(codec) && FileOk(f, codec) && Tail(f.cache) == []
    requires codec.encode(line) == Some(raw)
    requires line.seq_ == |Complete(f.cache)| + 1 < MAX_U64
    ensures var g := Write(f, raw + [NEWLINE]);
      && Numbered(g.cache, codec) && Tail(g.cache) == []
      && Complete(g.cache) == Complete(f.cache) + [raw]
  {
    SplitSnoc(f.cache, raw);
    Assoc(f.cache, raw, [NEWLINE]);
    InSequenceSnoc(Complete(f.cache), raw, line, codec);
  }

  // Once synced, the last record is durable.
  lemma LastRecordDurable(g: File, line: LedgerLine, codec: Codec)
    requires line.seq_ == |Complete(g.cache)| >= 1
    requires codec.encode(line) == Some(Complete(g.cache)[line.seq_ - 1])
    ensures Durable(Sync(g), line.seq_, line, codec)
  {
    assert g.cache[..|g.cache|] == g.cache;
  }

  // What an append does to the file, by how its I/O ends.
  lemma AppendKeeps(f: File, w: Writer, codec: Codec, line: LedgerLine, now: nat, fault: AppendFault)
    requires Lawful(codec) && FileOk(f, codec) && Positioned(f, w)
    ensures var (file, writer, r) := Append(f, w, codec, line, now, fault);
      && Preserves(f, file, codec)
      && Positioned(file, writer)
      && (r.Ok? ==> Durable(file, r.value.seq_, r.value, codec) && r.value.seq_ == |Complete(f.cache)| + 1)
  {
    var numbered := Assigned(w, line, now);
    if CanAppend(w) && w.nextSeq < MAX_U64 && codec.encode(numbered).Some? {
      var raw := codec.encode(numbered).value;
      var buffer := raw + [NEWLINE];
      RecordExtends(f, raw, numbered, codec);
      var kept := if fault.WriteFails? && fault.kept <= |buffer| then buffer[..fault.kept] else buffer;
      assert f.cache + kept <= f.cache + buffer;
      NumberedPrefix(f.cache + kept, f.cache + buffer, codec);
      WriteKeeps(f, kept, codec);
      SyncKeeps(Write(f, kept), codec);
      LastRecordDurable(Write(f, buffer), numbered, codec);
    }
  }

  // ---------------------------------------------------------------------
  // Every step keeps the invariant
  // ---------------------------------------------------------------------

  lemma OpenStep(w: World, e: Event, codec: Codec)
    requires Inv(w, codec) && Possible(w, e) && e.Open?
    ensures Inv(Step(w, e, codec), codec)
  {
    OpenPreserves(w.file, w.lease.Some?, codec, e.bootId, e.openFault);
    OpenSucceeds(w.file, w.lease.Some?, codec, e.bootId, e.openFault);
  }

  lemma AppendStep(w: World, e: Event, codec: Codec)
    requires Lawful(codec) && Inv(w, codec) && Possible(w, e) && e.AppendTo?
    ensures Inv(Step(w, e, codec), codec)
  {
    AppendKeeps(w.file, w.writers[e.id], codec, e.line, e.now, e.appendFault);
  }

  lemma StepKeepsInv(w: World, e: Event, codec: Codec)
    requires Lawful(codec) && Inv(w, codec) && Possible(w, e)
    ensures Inv(Step(w, e, codec), codec)
  {
    match e
    case Open(_, _, _) => OpenStep(w, e, codec);
    case AppendTo(_, _, _, _) => AppendStep(w, e, codec);
    case SealOf(_, _) =>
    case Drop(_) =>
    case Crash(left) => CrashKeeps(w.file, left, codec);
  }

  lemma {:induction false} InvAlways(codec: Codec, worlds: seq<World>, events: seq<Event>, i: nat)
    requires Lawful(codec) && Execution(codec, worlds, events) && i < |worlds|
    ensures Inv(worlds[i], codec)
  {
    if i > 0 {
      InvAlways(codec, worlds, events, i - 1);
      StepKeepsInv(worlds[i - 1], events[i - 1], codec);
    }
  }

  // ---------------------------------------------------------------------
  // What every run guarantees
  // ---------------------------------------------------------------------

  // A step takes no acknowledgement back, and an append that succeeds
  // acknowledges under a number no line was acknowledged under before.
  lemma AckIsNew(w: World, e: Event, codec: Codec)
    requires Lawful(codec) && Inv(w, codec) && Possible(w, e)
    ensures forall s :: s in w.acked ==> s in Step(w, e, codec).acked && Step(w, e, codec).acked[s] == w.acked[s]
    ensures e.AppendTo? ==>
      var r := Append(w.file, w.writers[e.id], codec, e.line, e.now, e.appendFault).2;
      r.Ok? ==> r.value.seq_ !in w.acked && Step(w, e, codec).acked == w.acked[r.value.seq_ := r.value]
  {
    if e.AppendTo? {
      AppendKeeps(w.file, w.writers[e.id], codec, e.line, e.now, e.appendFault);
      SplitPrefix(w.file.cache[..w.file.synced], w.file.cache);
    }
  }

  // An acknowledgement is never taken back or reassigned.
  lemma {:induction false} AckedGrows(codec: Codec, worlds: seq<World>, events: seq<Event>, i: nat, j: nat, s: nat)
    requires Lawful(codec) && Execution(codec, worlds, events)
    requires i <= j < |worlds| && s in worlds[i].acked
    ensures s in worlds[j].acked && worlds[j].acked[s] == worlds[i].acked[s]
    decreases j
  {
    if i < j {
      AckedGrows(codec, worlds, events, i, j - 1, s);
      InvAlways(codec, worlds, events, j - 1);
      AckIsNew(worlds[j - 1], events[j - 1], codec);
    }
  }

  // A durable line is the record at its own number of the file.
  lemma DurableReplays(f: File, s: nat, line: LedgerLine, bytes: Bytes, lines: seq<LedgerLine>, codec: Codec)
    requires Lawful(codec) && Durable(f, s, line, codec)
    requires Complete(bytes) == Complete(f.cache) && RecordsOf(bytes, lines, codec)
    ensures 1 <= s <= |lines| && lines[s - 1] == line && line.seq_ == s
  {
    SplitPrefix(f.cache[..f.synced], f.cache);
    assert Complete(f.cache[..f.synced])[s - 1] == Complete(bytes)[s - 1];
  }

  // The lines are numbered 1..n and each acknowledged line is at its number.
  ghost predicate Faithful(lines: seq<LedgerLine>, acked: map<nat, LedgerLine>) {
    && (forall k :: 0 <= k < |lines| ==> lines[k].seq_ == k + 1)
    && (forall s :: s in acked ==> 1 <= s <= |lines| && lines[s - 1] == acked[s])
  }

  lemma ReplayIsFaithful(f: File, acked: map<nat, LedgerLine>, bytes: Bytes, lines: seq<LedgerLine>, codec: Codec)
    requires Lawful(codec) && AllDurable(f, acked, codec)
    requires Complete(bytes) == Complete(f.cache) && RecordsOf(bytes, lines, codec)
    ensures Faithful(lines, acked)
  {
    forall s | s in acked
      ensures 1 <= s <= |lines| && lines[s - 1] == acked[s]
    {
      AckedReplays(f, acked, s, bytes, lines, codec);
    }
  }

  lemma AckedReplays(f: File, acked: map<nat, LedgerLine>, s: nat, bytes: Bytes, lines: seq<LedgerLine>, codec: Codec)
    requires Lawful(codec) && AllDurable(f, acked, codec) && s in acked
    requires Complete(bytes) == Complete(f.cache) && RecordsOf(bytes, lines, codec)
    ensures 1 <= s <= |lines| && lines[s - 1] == acked[s]
  {
    assert Durable(f, s, acked[s], codec);
    DurableReplays(f, s, acked[s], bytes, lines, codec);
  }

  // THEOREM. What was submitted is what is replayed: in every run, an append that
  // succeeds at step `i` is at its number in every later replay with the content
  // submitted, the writer's boot id, and the submitted time or else the clock's.
  lemma SubmittedLinesReplay(codec: Codec, worlds: seq<World>, events: seq<Event>, i: nat, j: nat,
                             bootId: string, fault: OpenFault)
    requires Lawful(codec) && Execution(codec, worlds, events) && i < j < |worlds| && events[i].AppendTo?
    requires var e := events[i];
      Append(worlds[i].file, worlds[i].writers[e.id], codec, e.line, e.now, e.appendFault).2.Ok?
    ensures var w := worlds[i].writers[events[i].id];
      var r := OpenStrict(worlds[j].file, worlds[j].lease.Some?, codec, bootId, fault).1;
      r.Ok? ==>
        && 1 <= w.nextSeq <= |r.value.lines|
        && IsSubmitted(r.value.lines[w.nextSeq - 1], w, events[i].line, events[i].now)
  {
    InvAlways(codec, worlds, events, i);
    SubmittedIsAcked(worlds[i], events[i], codec);
    AcknowledgedLinesReplay(codec, worlds, events, i + 1, j, bootId, fault);
  }

  lemma SubmittedIsAcked(w: World, e: Event, codec: Codec)
    requires Lawful(codec) && Inv(w, codec) && Possible(w, e) && e.AppendTo?
    requires Append(w.file, w.writers[e.id], codec, e.line, e.now, e.appendFault).2.Ok?
    ensures var writer, acked := w.writers[e.id], Step(w, e, codec).acked;
      writer.nextSeq in acked && IsSubmitted(acked[writer.nextSeq], writer, e.line, e.now)
  {
    var writer := w.writers[e.id];
    AppendExactly(w.file, writer, codec, e.line, e.now, e.appendFault, Assigned(writer, e.line, e.now));
    AckIsNew(w, e, codec);
  }

  // THEOREM. In every run, every later strict open that meets no I/O fault and
  // no live lease succeeds, and its replay is the records 1..n in order with
  // each line acknowledged so far, unchanged, at its own number.
  lemma AcknowledgedLinesReplay(codec: Codec, worlds: seq<World>, events: seq<Event>, i: nat, j: nat,
                                bootId: string, fault: OpenFault)
    requires Lawful(codec) && Execution(codec, worlds, events) && i <= j < |worlds|
    ensures var r := OpenStrict(worlds[j].file, worlds[j].lease.Some?, codec, bootId, fault).1;
      && (r.Err? ==> r.error == Io || r.error == WriterInUse)
      && (worlds[j].lease.None? && fault.OpenRuns? ==> r.Ok?)
      && (r.Ok? ==> r.value.writer.nextSeq == |r.value.lines| + 1 && Faithful(r.value.lines, worlds[i].acked))
  {
    var w := worlds[j];
    InvAlways(codec, worlds, events, j);
    OpenSucceeds(w.file, w.lease.Some?, codec, bootId, fault);
    var (file, r) := OpenStrict(w.file, w.lease.Some?, codec, bootId, fault);
    if r.Ok? {
      ReplayIsFaithful(w.file, w.acked, file.cache, r.value.lines, codec);
      forall s | s in worlds[i].acked
        ensures s in w.acked && w.acked[s] == worlds[i].acked[s]
      {
        AckedGrows(codec, worlds, events, i, j, s);
      }
    }
  }

  // THEOREM. At most one writer can append, it holds the lease, and the next
  // number it assigns is one past the complete records.
  lemma OneWriter(codec: Codec, worlds: seq<World>, events: seq<Event>, i: nat, a: nat, b: nat)
    requires Lawful(codec) && Execution(codec, worlds, events) && i < |worlds|
    requires a in worlds[i].writers && !worlds[i].writers[a].sealed
    requires b in worlds[i].writers && !worlds[i].writers[b].sealed
    ensures a == b && worlds[i].lease == Some(a)
    ensures CanAppend(worlds[i].writers[a]) ==>
      worlds[i].writers[a].nextSeq == |Complete(worlds[i].file.cache)| + 1 <= MAX_U64
  {
    InvAlways(codec, worlds, events, i);
  }

  // THEOREM. A writer that can append reads back exactly the complete records
  // past its cursor.
  lemma LiveReadAfter(codec: Codec, worlds: seq<World>, events: seq<Event>, i: nat, id: nat, cursor: nat)
    requires Lawful(codec) && Execution(codec, worlds, events) && i < |worlds|
    requires id in worlds[i].writers && CanAppend(worlds[i].writers[id])
    ensures var lines := Lines(worlds[i].file.cache);
      && Replay(lines, codec.parse, 0).Ok?
      && var all := Replay(lines, codec.parse, 0).value;
         && Faithful(all, worlds[i].acked)
         && |all| + 1 == worlds[i].writers[id].nextSeq
         && Replay(lines, codec.parse, cursor) == Ok(if cursor <= |all| then all[cursor..] else [])
  {
    var w := worlds[i];
    InvAlways(codec, worlds, events, i);
    NumberedReplays(w.file.cache, codec);
    var all := Replay(Lines(w.file.cache), codec.parse, 0).value;
    ReplayIsFaithful(w.file, w.acked, w.file.cache, all, codec);
    CursorIsSuffix(Lines(w.file.cache), codec.parse, cursor, all);
  }

  lemma CursorIsSuffix(lines: seq<Bytes>, parse: Bytes -> Parsed, cursor: nat, all: seq<LedgerLine>)
    requires Replay(lines, parse, 0) == Ok(all)
    ensures Replay(lines, parse, cursor) == Ok(if cursor <= |all| then all[cursor..] else [])
  {
    var r := Replay(lines, parse, cursor);
    if cursor <= |all| {
      forall k | 0 <= k < |r.value|
        ensures r.value[k] == all[cursor..][k]
      {
        assert parse(lines[0 + (cursor + k)]) == Record(all[cursor + k]);
      }
      assert r.value == all[cursor..];
    }
  }

  // A writer that refuses: sealed, in an unknown write state, or out of numbers.
  ghost predicate Stopped(w: Writer) {
    w.sealed || w.writeStateUnknown || w.nextSeq >= MAX_U64
  }

  // THEOREM. A stopped writer changes nothing for the rest of its life: no
  // later append through it touches the file, the counter or the
  // acknowledgements, whatever other writers do in between.
  lemma {:induction false} StoppedWriterIsInert(codec: Codec, worlds: seq<World>, events: seq<Event>, i: nat, j: nat)
    requires Execution(codec, worlds, events) && i <= j < |events|
    requires events[j].AppendTo? && events[j].id in worlds[i].writers
    requires Stopped(worlds[i].writers[events[j].id])
    requires forall k :: i <= k < j ==> !events[k].Crash? && events[k] != Drop(events[j].id)
    ensures worlds[j + 1] == worlds[j]
    ensures Append(worlds[j].file, worlds[j].writers[events[j].id], codec,
                   events[j].line, events[j].now, events[j].appendFault).2.Err?
    decreases j - i
  {
    var id := events[j].id;
    if i < j {
      assert Possible(worlds[i], events[i]);
      StoppedWriterIsInert(codec, worlds, events, i + 1, j);
    } else {
      assert worlds[j].writers[id := worlds[j].writers[id]] == worlds[j].writers;
    }
  }
}
