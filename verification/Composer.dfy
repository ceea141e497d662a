/**
 * The composer hold and the write-readiness verdict (`cyclops-proto` state).
 *
 * Nothing may be pasted over a person's draft: once text has been seen staged
 * the hold refuses until a settled empty screen, or a turn that can have
 * consumed the text, releases it.
 */
module Composer {
  import opened Wrappers
  import opened AgentStates

  datatype Sensor = Hook | Title | Output | Screen

  datatype Semantic = Clean | HumanInput | GhostSuggestion | Ambiguous

  datatype Reading = Reading(sensor: Sensor, state: AgentState, ts: nat)

  datatype Detection = Detection(
    state: AgentState,
    readings: seq<Reading>,
    disagreement: bool,
    decidedBy: string,
    stale: bool,
    semantic: Option<Semantic>,
    writeReady: bool,
    writeBlock: Option<string>)

  datatype Hold = Clear | Staged | StagedDuringTurn | TurnStarted(sinceMs: nat) {

    predicate IsWaiting() { Staged? || StagedDuringTurn? }

    predicate Refuses() { !Clear? }
  }

  predicate Reads(det: Detection, sensor: Sensor, state: AgentState) {
    exists i :: 0 <= i < |det.readings| && det.readings[i].sensor == sensor && det.readings[i].state == state
  }

  predicate SeesScreen(det: Detection) {
    exists i :: 0 <= i < |det.readings| && det.readings[i].sensor.Screen?
  }

  // When the oldest live reading of a running turn was taken.
  function TurnRunningAt(readings: seq<Reading>): (at: Option<nat>)
    ensures at.None? <==> forall i :: 0 <= i < |readings| ==> !readings[i].state.Working?
    ensures at.Some? ==> exists i :: 0 <= i < |readings| && readings[i].state.Working? && readings[i].ts == at.value
    ensures at.Some? ==> forall i :: 0 <= i < |readings| && readings[i].state.Working? ==> at.value <= readings[i].ts
  {
    if readings == [] then None
    else
      var before, r := TurnRunningAt(readings[..|readings| - 1]), readings[|readings| - 1];
      if !r.state.Working? then before
      else if before.Some? && before.value <= r.ts then before
      else Some(r.ts)
  }

  predicate Running(det: Detection) {
    TurnRunningAt(det.readings).Some?
  }

  predicate ScreenProvesSafe(det: Detection) {
    (det.semantic == Some(Clean) || det.semantic == Some(GhostSuggestion)) && SeesScreen(det)
  }

  // Text in the composer, from any sensor that can see one.
  predicate SeesDraft(det: Detection) {
    det.state.IdleWithInput? || Reads(det, Screen, IdleWithInput) || det.semantic == Some(HumanInput)
  }

  // `ended` is the daemon's answer about the turn, when the vendor names turns.
  predicate TurnEnded(det: Detection, ended: Option<bool>) {
    if ended.Some? then ended.value else det.state.Idle?
  }

  function Advance(h: Hold, det: Detection, ended: Option<bool>): Hold {
    if det.state.Dead? then Clear
    else if SeesDraft(det) then
      if h.StagedDuringTurn? || Running(det) then StagedDuringTurn else Staged
    else if h.Clear? then Clear
    else if h.StagedDuringTurn? then
      if Running(det) then StagedDuringTurn else Staged
    else if Running(det) then
      if h.TurnStarted? then h else TurnStarted(TurnRunningAt(det.readings).value)
    else if h.TurnStarted? && TurnEnded(det, ended) && ScreenProvesSafe(det) then Clear
    else h
  }

  predicate VisiblyEmpty(det: Detection) {
    !det.stale && det.semantic == Some(Clean) && SeesScreen(det) && (det.state.Idle? || det.state.Working?)
  }

  function ReleaseAfterSettledEmpty(h: Hold, det: Detection): Hold {
    if h.IsWaiting() && VisiblyEmpty(det) then Clear else h
  }

  // ---------------------------------------------------------------------
  // Histories
  // ---------------------------------------------------------------------

  datatype Event = Observe(det: Detection, ended: Option<bool>) | Settled(det: Detection)

  function Apply(h: Hold, e: Event): Hold {
    match e
    case Observe(det, ended) => Advance(h, det, ended)
    case Settled(det) => ReleaseAfterSettledEmpty(h, det)
  }

  function Run(h: Hold, events: seq<Event>): Hold {
    if events == [] then h else Apply(Run(h, events[..|events| - 1]), events[|events| - 1])
  }

  // What an observation shows, over its own fields. A draft: by the verdict, by
  // a screen reading, or by the composer rule.
  ghost predicate ShowsDraft(det: Detection) {
    || det.state == IdleWithInput || det.semantic == Some(HumanInput)
    || exists r :: r in det.readings && r.sensor == Screen && r.state == IdleWithInput
  }

  // A running turn: by any sensor, whoever won.
  ghost predicate ShowsTurn(det: Detection) {
    exists r :: r in det.readings && r.state == Working
  }

  ghost predicate SawScreen(det: Detection) {
    exists r :: r in det.readings && r.sensor == Screen
  }

  // A composer a write cannot overwrite.
  ghost predicate ShowsSafe(det: Detection) {
    SawScreen(det) && det.semantic in {Some(Clean), Some(GhostSuggestion)}
  }

  // A fresh, exactly empty composer on a live pane.
  ghost predicate ShowsEmpty(det: Detection) {
    !det.stale && SawScreen(det) && det.semantic == Some(Clean) && det.state in {Idle, Working}
  }

  // The daemon's answer about the turn decides; without one, the verdict does.
  ghost predicate SaysTurnOver(det: Detection, ended: Option<bool>) {
    ended == Some(true) || (ended == None && det.state == Idle)
  }

  // The machine's own questions are these.
  lemma SeesWhatShows(det: Detection, ended: Option<bool>)
    ensures SeesDraft(det) <==> ShowsDraft(det)
    ensures Running(det) <==> ShowsTurn(det)
    ensures ScreenProvesSafe(det) <==> ShowsSafe(det)
    ensures VisiblyEmpty(det) <==> ShowsEmpty(det)
    ensures TurnEnded(det, ended) <==> SaysTurnOver(det, ended)
  {
    assert forall i :: 0 <= i < |det.readings| ==> det.readings[i] in det.readings;
    if ShowsTurn(det) {
      var r :| r in det.readings && r.state == Working;
      var i :| 0 <= i < |det.readings| && det.readings[i] == r;
    }
  }

  ghost predicate Sighting(e: Event) {
    e.Observe? && !e.det.state.Dead? && ShowsDraft(e.det)
  }

  // No pane death and no draft is observed.
  ghost predicate Quiet(events: seq<Event>) {
    forall i :: 0 <= i < |events| && events[i].Observe? ==> !events[i].det.state.Dead? && !ShowsDraft(events[i].det)
  }

  ghost predicate NoTurnAt(events: seq<Event>, i: int) {
    0 <= i < |events| && events[i].Observe? && !ShowsTurn(events[i].det)
  }

  // A turn that may consume text staged earlier is seen running: if a turn
  // was already running when the text appeared, only after one is seen over.
  ghost predicate StartsAt(owed: bool, events: seq<Event>, a: int) {
    && 0 <= a < |events| && events[a].Observe? && ShowsTurn(events[a].det)
    && (owed ==> exists p :: 0 <= p < a && NoTurnAt(events, p))
  }

  // The turn is over and the screen proves a write safe.
  ghost predicate EndsAt(events: seq<Event>, b: int) {
    NoTurnAt(events, b) && SaysTurnOver(events[b].det, events[b].ended) && ShowsSafe(events[b].det)
  }

  ghost predicate Consumed(owed: bool, events: seq<Event>) {
    exists a, b :: 0 <= a < b < |events| && StartsAt(owed, events, a) && EndsAt(events, b)
  }

  ghost predicate SettlesAt(owed: bool, events: seq<Event>, i: int) {
    && 0 <= i < |events| && events[i].Settled? && ShowsEmpty(events[i].det)
    && forall a :: 0 <= a < i ==> !StartsAt(owed, events, a)
  }

  // A settled, fresh, clean screen before any such turn starts.
  ghost predicate Released(owed: bool, events: seq<Event>) {
    exists i :: SettlesAt(owed, events, i)
  }

  ghost predicate FirstStart(owed: bool, events: seq<Event>, a: int) {
    StartsAt(owed, events, a) && forall c :: 0 <= c < a ==> !StartsAt(owed, events, c)
  }

  // Where the hold stands after a quiet history, read off the history.
  ghost predicate Describes(owed: bool, events: seq<Event>, now: Hold) {
    match now
    case Clear => Consumed(owed, events) || Released(owed, events)
    case TurnStarted(since) =>
      && !Consumed(owed, events) && !Released(owed, events)
      && exists a :: FirstStart(owed, events, a) && TurnRunningAt(events[a].det.readings) == Some(since)
    case Staged =>
      && !Released(owed, events)
      && (forall a :: 0 <= a < |events| ==> !StartsAt(owed, events, a))
      && (owed ==> exists p :: NoTurnAt(events, p))
    case StagedDuringTurn =>
      && !Released(owed, events)
      && (forall a :: 0 <= a < |events| ==> !StartsAt(owed, events, a))
      && owed
      && (forall p :: !NoTurnAt(events, p))
  }

  // Looking at a longer history does not change what happened earlier.
  lemma PrefixFacts(owed: bool, events: seq<Event>, e: Event)
    ensures var more := events + [e];
      && (forall p :: p < |events| ==> (NoTurnAt(more, p) <==> NoTurnAt(events, p)))
      && (forall a :: a < |events| ==> (StartsAt(owed, more, a) <==> StartsAt(owed, events, a)))
      && (forall b :: b < |events| ==> (EndsAt(more, b) <==> EndsAt(events, b)))
      && (forall i :: i < |events| ==> (SettlesAt(owed, more, i) <==> SettlesAt(owed, events, i)))
  {
    var more := events + [e];
    assert forall i :: 0 <= i < |events| ==> more[i] == events[i];
    forall a | 0 <= a < |events|
      ensures StartsAt(owed, more, a) <==> StartsAt(owed, events, a)
    {
      assert forall p :: p < a ==> (NoTurnAt(more, p) <==> NoTurnAt(events, p));
    }
  }

  lemma ConsumedStep(owed: bool, events: seq<Event>, e: Event)
    ensures Consumed(owed, events + [e]) <==>
      Consumed(owed, events) || (EndsAt(events + [e], |events|) && exists a :: StartsAt(owed, events, a))
  {
    PrefixFacts(owed, events, e);
  }

  lemma ReleasedStep(owed: bool, events: seq<Event>, e: Event)
    ensures Released(owed, events + [e]) <==>
      Released(owed, events) || (e.Settled? && ShowsEmpty(e.det) && forall a :: 0 <= a < |events| ==> !StartsAt(owed, events, a))
  {
    var more := events + [e];
    PrefixFacts(owed, events, e);
    if Released(owed, events) {
      var i :| SettlesAt(owed, events, i);
      assert SettlesAt(owed, more, i);
    }
    if Released(owed, more) {
      var i :| SettlesAt(owed, more, i);
      if i < |events| { assert SettlesAt(owed, events, i); }
    }
    if e.Settled? && ShowsEmpty(e.det) && forall a :: 0 <= a < |events| ==> !StartsAt(owed, events, a) {
      assert SettlesAt(owed, more, |events|);
    }
  }

  lemma StartsStep(owed: bool, events: seq<Event>, e: Event)
    ensures StartsAt(owed, events + [e], |events|) <==>
      e.Observe? && ShowsTurn(e.det) && (owed ==> exists p :: NoTurnAt(events, p))
  {
    PrefixFacts(owed, events, e);
    if p :| NoTurnAt(events, p) { assert NoTurnAt(events + [e], p); }
  }

  // One more quiet event from a hold that is still staged.
  lemma DescribesFromStaged(owed: bool, events: seq<Event>, e: Event, now: Hold)
    requires now.IsWaiting() && Describes(owed, events, now) && Quiet([e])
    ensures Describes(owed, events + [e], Apply(now, e))
  {
    var more := events + [e];
    assert [e][0] == e && more[|events|] == e;
    SeesWhatShows(e.det, if e.Observe? then e.ended else None);
    PrefixFacts(owed, events, e);
    ConsumedStep(owed, events, e);
    ReleasedStep(owed, events, e);
    StartsStep(owed, events, e);
    if StartsAt(owed, more, |events|) {
      assert FirstStart(owed, more, |events|);
    }
    if now.StagedDuringTurn? {
      assert !StartsAt(owed, more, |events|);
      if e.Observe? && !ShowsTurn(e.det) { assert NoTurnAt(more, |events|); }
    } else if owed {
      var p :| NoTurnAt(events, p);
      assert NoTurnAt(more, p);
    }
  }

  // One more quiet event while a turn that took the text is under way.
  lemma DescribesFromTurn(owed: bool, events: seq<Event>, e: Event, now: Hold)
    requires now.TurnStarted? && Describes(owed, events, now) && Quiet([e])
    ensures Describes(owed, events + [e], Apply(now, e))
  {
    var more := events + [e];
    assert [e][0] == e && more[|events|] == e;
    SeesWhatShows(e.det, if e.Observe? then e.ended else None);
    PrefixFacts(owed, events, e);
    ConsumedStep(owed, events, e);
    ReleasedStep(owed, events, e);
    var a :| FirstStart(owed, events, a) && TurnRunningAt(events[a].det.readings) == Some(now.sinceMs);
    assert FirstStart(owed, more, a) && more[a] == events[a];
  }

  lemma {:induction false} QuietRun(h: Hold, events: seq<Event>)
    requires h.IsWaiting() && Quiet(events)
    ensures Describes(h.StagedDuringTurn?, events, Run(h, events))
    decreases |events|
  {
    if events != [] {
      var front, e := events[..|events| - 1], events[|events| - 1];
      assert events == front + [e];
      assert Quiet(front) && Quiet([e]);
      QuietRun(h, front);
      var now, owed := Run(h, front), h.StagedDuringTurn?;
      match now
      case Clear =>
        ConsumedStep(owed, front, e);
        ReleasedStep(owed, front, e);
        SeesWhatShows(e.det, None);
        assert [e][0] == e;
      case TurnStarted(_) => DescribesFromTurn(owed, front, e, now);
      case Staged => DescribesFromStaged(owed, front, e, now);
      case StagedDuringTurn => DescribesFromStaged(owed, front, e, now);
    }
  }

  lemma {:induction false} RunConcat(h: Hold, first: seq<Event>, second: seq<Event>)
    ensures Run(h, first + second) == Run(Run(h, first), second)
    decreases |second|
  {
    if second == [] {
      assert first + second == first;
    } else {
      var front := second[..|second| - 1];
      RunConcat(h, first, front);
      assert (first + second)[..|first + second| - 1] == first + front;
    }
  }

  // The turn that was running at a sighting has not been seen to stop since:
  // every live observation shows a draft or a running turn, and no settled
  // screen was visibly empty.
  ghost predicate KeepsTurn(e: Event) {
    match e
    case Observe(det, _) => !det.state.Dead? && (ShowsDraft(det) || ShowsTurn(det))
    case Settled(det) => !ShowsEmpty(det)
  }

  ghost predicate Unbroken(events: seq<Event>, from: int) {
    forall i :: 0 <= i < |events| && from <= i ==> KeepsTurn(events[i])
  }

  // A draft sighted during a turn, at `s`, that has not been seen to stop.
  ghost predicate SightedInTurn(events: seq<Event>, s: int) {
    0 <= s < |events| && Sighting(events[s]) && ShowsTurn(events[s].det) && Unbroken(events, s + 1)
  }

  // A no-turn observation is owed before a turn can consume the draft.
  ghost predicate Owed(h: Hold, events: seq<Event>) {
    (h.StagedDuringTurn? && Unbroken(events, 0)) || exists s :: SightedInTurn(events, s)
  }

  lemma OwedStep(h: Hold, events: seq<Event>, e: Event)
    ensures Owed(h, events + [e]) <==> (Owed(h, events) && KeepsTurn(e)) || (Sighting(e) && e.Observe? && ShowsTurn(e.det))
  {
    var more := events + [e];
    assert more[|events|] == e && forall i :: 0 <= i < |events| ==> more[i] == events[i];
    assert forall s :: s < |events| ==> (SightedInTurn(more, s) <==> SightedInTurn(events, s) && KeepsTurn(e));
    assert SightedInTurn(more, |events|) <==> Sighting(e) && ShowsTurn(e.det);
    if Owed(h, events) && KeepsTurn(e) && !(h.StagedDuringTurn? && Unbroken(events, 0)) {
      var s :| SightedInTurn(events, s);
      assert SightedInTurn(more, s);
    }
  }

  // The machine remembers exactly that.
  lemma {:induction false} DuringTurnIsOwed(h: Hold, events: seq<Event>)
    ensures Run(h, events).StagedDuringTurn? <==> Owed(h, events)
    decreases |events|
  {
    if events != [] {
      var front, e := events[..|events| - 1], events[|events| - 1];
      assert events == front + [e];
      DuringTurnIsOwed(h, front);
      OwedStep(h, front, e);
      SeesWhatShows(e.det, None);
    }
  }

  // THEOREM. Take any history from any hold, and the last draft seen in it,
  // with no pane death after that sighting. The hold stops refusing exactly
  // when, since that sighting, either a settled fresh clean screen was seen
  // before any turn that could consume the text, or such a turn started and
  // later ended with write-safe composer evidence. A turn that was running at
  // the sighting, or at an earlier one and not seen to stop since, is not such
  // a turn: a no-turn observation has to come first.
  lemma DraftHeldUntilConsumed(h: Hold, events: seq<Event>, d: nat)
    requires d < |events| && Sighting(events[d]) && Quiet(events[d + 1..])
    ensures var owed := Owed(h, events[..d + 1]);
      && (ShowsTurn(events[d].det) ==> owed)
      && (!Run(h, events).Refuses() <==> Consumed(owed, events[d + 1..]) || Released(owed, events[d + 1..]))
  {
    var until, since := events[..d + 1], events[d + 1..];
    var sighted := Run(h, until);
    assert events == until + since;
    assert until == until[..d] + [events[d]];
    DuringTurnIsOwed(h, until);
    OwedStep(h, until[..d], events[d]);
    SeesWhatShows(events[d].det, None);
    assert sighted.IsWaiting();
    RunConcat(h, until, since);
    QuietRun(sighted, since);
    DescribesIsExact(sighted.StagedDuringTurn?, since, Run(sighted, since));
  }

  // THEOREM. Where no draft has been seen since the pane last died, or since a
  // hold that was clear, the hold is clear.
  lemma {:induction false} ClearWithoutDraft(h: Hold, events: seq<Event>)
    requires h.Clear? || exists d :: DiesAt(events, d)
    requires forall i :: 0 <= i < |events| && Sighting(events[i]) ==> exists d :: i < d && DiesAt(events, d)
    ensures Run(h, events) == Clear
    decreases |events|
  {
    if events != [] {
      var front, e := events[..|events| - 1], events[|events| - 1];
      assert events == front + [e];
      SeesWhatShows(e.det, None);
      if !DiesAt(events, |events| - 1) {
        forall d | DiesAt(events, d)
          ensures DiesAt(front, d)
        {
          assert front[d] == events[d];
        }
        assert forall i :: 0 <= i < |front| ==> front[i] == events[i];
        assert !Sighting(events[|events| - 1]);
        ClearWithoutDraft(h, front);
      }
    }
  }

  ghost predicate DiesAt(events: seq<Event>, d: int) {
    0 <= d < |events| && events[d].Observe? && events[d].det.state == Dead
  }

  // THEOREM. A daemon that names turns and says this one has not ended is
  // believed: on a live pane a hold that refuses goes on refusing.
  lemma NotEndedKeepsHold(h: Hold, det: Detection)
    requires h.Refuses() && det.state != Dead
    ensures Advance(h, det, Some(false)).Refuses()
  {
  }

  // The four descriptions exclude one another as far as refusal goes.
  lemma DescribesIsExact(owed: bool, events: seq<Event>, now: Hold)
    requires Describes(owed, events, now)
    ensures now.Clear? <==> Consumed(owed, events) || Released(owed, events)
  {
  }

  // The mark of a turn under way is its first evidence, never re-stamped.
  lemma TurnMarkIsFirst(h: Hold, events: seq<Event>)
    requires h.IsWaiting() && Quiet(events) && Run(h, events).TurnStarted?
    ensures exists a :: FirstStart(h.StagedDuringTurn?, events, a)
                     && TurnRunningAt(events[a].det.readings) == Some(Run(h, events).sinceMs)
  {
    QuietRun(h, events);
  }

  // ---------------------------------------------------------------------
  // Write readiness
  // ---------------------------------------------------------------------

  // A running turn with a clean composer proven in the same screen frame.
  predicate WorkingComposerProven(det: Detection) {
    && det.state.Working?
    && ScreenProvesSafe(det)
    && Reads(det, Screen, Working)
    && forall i :: 0 <= i < |det.readings| ==>
         det.readings[i].state.Working? || (det.readings[i].sensor.Screen? && det.readings[i].state.Idle?)
  }

  predicate Conflicting(r: Reading, workingProven: bool) {
    || r.state.IdleWithInput? || IsBlocked(r.state) || r.state.Unknown?
    || (r.state.Working? && !workingProven)
  }

  // The sensor half of the verdict: the first rule that refuses, in order.
  function BaseWriteReady(det: Detection): Result<(), string> {
    var proven := WorkingComposerProven(det);
    if det.stale then Err("stale_screen_evidence")
    else if det.disagreement && !proven then Err("sensor_disagreement")
    else if det.state.Idle? && "hook:" <= det.decidedBy then Err("hook_derived_idle")
    else if !ScreenProvesSafe(det) then Err("no_write_safe_composer_evidence")
    else if det.state.Unknown? || det.state.IdleWithInput? || IsBlocked(det.state) || det.state.Dead?
         || (exists i :: 0 <= i < |det.readings| && Conflicting(det.readings[i], proven))
         || (det.state.Working? && !proven)
    then Err("conflicting_evidence")
    else Ok(())
  }

  function WithWriteBlock(det: Detection): Detection {
    match BaseWriteReady(det)
    case Ok(_) => det.(writeReady := true, writeBlock := None)
    case Err(reason) => det.(writeReady := false, writeBlock := Some(reason))
  }

  function Stamped(det: Detection, inMode: bool, hold: Hold): Detection {
    if inMode then det.(writeReady := false, writeBlock := Some("pane_in_mode"))
    else
      var base := WithWriteBlock(det);
      if base.writeReady && hold.Refuses()
      then base.(writeReady := false, writeBlock := Some("composer_hold"))
      else base
  }

  // An undisputed idle verdict the hooks alone did not decide, with no reading
  // of text, of a block, of doubt or of a running turn.
  ghost predicate UndisputedIdle(det: Detection) {
    && det.state.Idle? && !det.disagreement && !("hook:" <= det.decidedBy)
    && forall i :: 0 <= i < |det.readings| ==> det.readings[i].state.Idle? || det.readings[i].state.Dead?
  }

  // A turn on screen, with nothing read but that turn and an idle screen.
  ghost predicate ShowsWorkingComposer(det: Detection) {
    && det.state == Working && ShowsSafe(det)
    && (exists r :: r in det.readings && r.sensor == Screen && r.state == Working)
    && (forall r :: r in det.readings ==> r.state == Working || (r.sensor == Screen && r.state == Idle))
  }

  lemma WorkingComposerShown(det: Detection)
    ensures WorkingComposerProven(det) <==> ShowsWorkingComposer(det)
  {
    SeesWhatShows(det, None);
    assert forall i :: 0 <= i < |det.readings| ==> det.readings[i] in det.readings;
  }

  // The name of a refusal is that of the first thing in the way, in this order.
  lemma RefusalNamesFirst(det: Detection, inMode: bool, hold: Hold)
    ensures Stamped(det, inMode, hold).writeBlock ==
      if inMode then Some("pane_in_mode")
      else if det.stale then Some("stale_screen_evidence")
      else if det.disagreement && !ShowsWorkingComposer(det) then Some("sensor_disagreement")
      else if det.state == Idle && "hook:" <= det.decidedBy then Some("hook_derived_idle")
      else if !ShowsSafe(det) then Some("no_write_safe_composer_evidence")
      else if !UndisputedIdle(det) && !ShowsWorkingComposer(det) then Some("conflicting_evidence")
      else if hold != Clear then Some("composer_hold")
      else None
  {
    SeesWhatShows(det, None);
    WorkingComposerShown(det);
    ReadinessIsOneCondition(det, inMode, hold);
    ReadinessIsOneCondition(det, inMode, Clear);
  }

  // THEOREM. The readiness cascade is one condition over all the readings, and
  // a refusal is named exactly when there is one.
  lemma ReadinessIsOneCondition(det: Detection, inMode: bool, hold: Hold)
    ensures Stamped(det, inMode, hold).writeReady <==>
      && !inMode && hold.Clear? && !det.stale && ShowsSafe(det)
      && (UndisputedIdle(det) || ShowsWorkingComposer(det))
    ensures Stamped(det, inMode, hold).writeBlock.None? <==> Stamped(det, inMode, hold).writeReady
  {
    SeesWhatShows(det, None);
    WorkingComposerShown(det);
    if UndisputedIdle(det) || WorkingComposerProven(det) {
      assert forall i :: 0 <= i < |det.readings| ==> !Conflicting(det.readings[i], WorkingComposerProven(det));
    } else if det.state.Idle? && !det.disagreement && !("hook:" <= det.decidedBy) {
      var i :| 0 <= i < |det.readings| && !det.readings[i].state.Idle? && !det.readings[i].state.Dead?;
      assert Conflicting(det.readings[i], WorkingComposerProven(det));
    }
  }

  // A reading that the pane is dead does not refuse under an undisputed idle
  // verdict; a dead verdict does.
  lemma DeadReadingIsReady(decidedBy: string, ts: nat, at: nat)
    requires !("hook:" <= decidedBy)
    ensures var readings := [Reading(Screen, Idle, ts), Reading(Title, Dead, at)];
      && Stamped(Detection(Idle, readings, false, decidedBy, false, Some(Clean), false, None), false, Clear).writeReady
      && !Stamped(Detection(Dead, readings, false, decidedBy, false, Some(Clean), false, None), false, Clear).writeReady
  {
    var det := Detection(Idle, [Reading(Screen, Idle, ts), Reading(Title, Dead, at)], false, decidedBy, false,
                         Some(Clean), false, None);
    assert det.readings[0].sensor.Screen? && UndisputedIdle(det);
    ReadinessIsOneCondition(det, false, Clear);
    ReadinessIsOneCondition(det.(state := Dead), false, Clear);
  }

  // THEOREM. No verdict stamped with the hold of a history says ready after a
  // draft was seen unless the draft has since been erased or consumed.
  lemma NeverReadyOverDraft(h: Hold, events: seq<Event>, d: nat, det: Detection, inMode: bool)
    requires d < |events| && Sighting(events[d]) && Quiet(events[d + 1..])
    requires Stamped(det, inMode, Run(h, events)).writeReady
    ensures var owed := Owed(h, events[..d + 1]);
      Consumed(owed, events[d + 1..]) || Released(owed, events[d + 1..])
  {
    ReadinessIsOneCondition(det, inMode, Run(h, events));
    DraftHeldUntilConsumed(h, events, d);
  }
}
