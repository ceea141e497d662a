/** The one-shot notification attempt (`cyclops-proto` notification). */
module Notification {

  datatype State =
    | Queued | Gating | BlockedPreWrite | QuotaHeld | QuotaResetObserved
    | Writing | Staged | Submitting | Submitted | SubmittedUnverified
    | Notified | AttentionRequired
    | Withdrawn | WithdrawnAfterStaging | WithdrawnByOperator | Superseded

  datatype Transport = Doorbell | DirectPayload | Raw | Mailbox

  predicate CanTransition(s: State, next: State) {
    match s
    case Queued => next.Gating? || next.WithdrawnByOperator? || next.Notified?
    case Gating => next.BlockedPreWrite? || next.Writing? || next.QuotaHeld? || next.WithdrawnByOperator?
    case BlockedPreWrite => next.Gating? || next.Withdrawn? || next.WithdrawnByOperator?
    case QuotaHeld => next.QuotaResetObserved?
    case Writing =>
      next.Staged? || next.Submitted? || next.SubmittedUnverified? || next.Notified? || next.AttentionRequired?
    case Staged => next.Submitting? || next.AttentionRequired?
    case Submitting => next.Submitted? || next.SubmittedUnverified? || next.AttentionRequired?
    case Submitted => next.Notified? || next.AttentionRequired?
    case SubmittedUnverified => next.Notified? || next.AttentionRequired?
    case _ => false
  }

  predicate CanWithdrawBeforeWrite(s: State) {
    s.Queued? || s.Gating? || s.BlockedPreWrite?
  }

  // Notification work after the recipient claims the message.
  function SettledByClaim(s: State, transport: Transport): State {
    match (s, transport)
    case (Queued, DirectPayload) => Withdrawn
    case (Gating, DirectPayload) => Withdrawn
    case (BlockedPreWrite, DirectPayload) => Withdrawn
    case (QuotaHeld, DirectPayload) => Withdrawn
    case (QuotaResetObserved, DirectPayload) => Withdrawn
    case (Queued, Doorbell) => Withdrawn
    case (Gating, Doorbell) => Withdrawn
    case (BlockedPreWrite, Doorbell) => Withdrawn
    case (Submitted, Doorbell) => Notified
    case (SubmittedUnverified, Doorbell) => Notified
    case _ => s
  }

  predicate IsTerminal(s: State) {
    || s.QuotaHeld? || s.QuotaResetObserved? || s.Notified? || s.AttentionRequired?
    || s.Withdrawn? || s.WithdrawnAfterStaging? || s.WithdrawnByOperator? || s.Superseded?
  }

  // One change of an attempt: a legal transition or a claim that moves it.
  ghost predicate Step(s: State, next: State) {
    CanTransition(s, next) || (s != next && exists t :: SettledByClaim(s, t) == next)
  }

  // A run of an attempt, from its creation.
  ghost predicate IsRun(run: seq<State>) {
    && run != [] && run[0] == Queued
    && forall i :: 0 < i < |run| ==> Step(run[i - 1], run[i])
  }

  // ---------------------------------------------------------------------
  // The edges, from the other end
  // ---------------------------------------------------------------------

  // What an attempt must have been just before each state.
  lemma CameFrom(s: State, next: State)
    ensures CanTransition(s, next) <==> match next
      case Gating => s in {Queued, BlockedPreWrite}
      case BlockedPreWrite => s == Gating
      case QuotaHeld => s == Gating
      case QuotaResetObserved => s == QuotaHeld
      case Writing => s == Gating
      case Staged => s == Writing
      case Submitting => s == Staged
      case Submitted => s in {Writing, Submitting}
      case SubmittedUnverified => s in {Writing, Submitting}
      case Notified => s in {Queued, Writing, Submitted, SubmittedUnverified}
      case AttentionRequired => s in {Writing, Staged, Submitting, Submitted, SubmittedUnverified}
      case Withdrawn => s == BlockedPreWrite
      case WithdrawnByOperator => s in {Queued, Gating, BlockedPreWrite}
      case _ => false
  {
  }

  // A claim withdraws exactly what has not crossed the write boundary, on the
  // transports that announce through the pane; it settles a doorbell past Enter
  // as notified; and it leaves everything else alone.
  lemma ClaimSettles(s: State, transport: Transport)
    ensures SettledByClaim(s, transport) ==
      if s in {Queued, Gating, BlockedPreWrite} && transport in {DirectPayload, Doorbell} then Withdrawn
      else if s in {QuotaHeld, QuotaResetObserved} && transport == DirectPayload then Withdrawn
      else if s in {Submitted, SubmittedUnverified} && transport == Doorbell then Notified
      else s
  {
  }

  // ---------------------------------------------------------------------
  // What runs there are
  // ---------------------------------------------------------------------

  // THEOREM. Every documented way through an attempt is a run.
  lemma DocumentedPaths()
    ensures IsRun([Queued, Gating, Writing, Staged, Submitting, Submitted, Notified])
    ensures IsRun([Queued, Gating, Writing, Staged, Submitting, SubmittedUnverified, Notified])
    ensures IsRun([Queued, Gating, Writing, Submitted, AttentionRequired])
    ensures IsRun([Queued, Gating, Writing, SubmittedUnverified, AttentionRequired])
    ensures IsRun([Queued, Gating, Writing, Notified])
    ensures IsRun([Queued, Gating, Writing, AttentionRequired])
    ensures IsRun([Queued, Gating, Writing, Staged, AttentionRequired])
    ensures IsRun([Queued, Gating, Writing, Staged, Submitting, AttentionRequired])
    ensures IsRun([Queued, Gating, BlockedPreWrite, Gating, Writing])
    ensures IsRun([Queued, Gating, BlockedPreWrite, Withdrawn])
    ensures IsRun([Queued, Gating, BlockedPreWrite, WithdrawnByOperator])
    ensures IsRun([Queued, Gating, WithdrawnByOperator]) && IsRun([Queued, WithdrawnByOperator])
    ensures IsRun([Queued, Gating, QuotaHeld, QuotaResetObserved])
    ensures IsRun([Queued, Notified])
  {
  }

  // A shortest run to each state a run can reach.
  ghost function PathTo(s: State): seq<State> {
    match s
    case Queued => [Queued]
    case Gating => [Queued, Gating]
    case BlockedPreWrite => [Queued, Gating, BlockedPreWrite]
    case QuotaHeld => [Queued, Gating, QuotaHeld]
    case QuotaResetObserved => [Queued, Gating, QuotaHeld, QuotaResetObserved]
    case Writing => [Queued, Gating, Writing]
    case Staged => [Queued, Gating, Writing, Staged]
    case Submitting => [Queued, Gating, Writing, Staged, Submitting]
    case Submitted => [Queued, Gating, Writing, Submitted]
    case SubmittedUnverified => [Queued, Gating, Writing, SubmittedUnverified]
    case Notified => [Queued, Notified]
    case AttentionRequired => [Queued, Gating, Writing, AttentionRequired]
    case Withdrawn => [Queued, Gating, BlockedPreWrite, Withdrawn]
    case WithdrawnByOperator => [Queued, WithdrawnByOperator]
    case WithdrawnAfterStaging => []
    case Superseded => []
  }

  ghost predicate EndsIn(run: seq<State>, s: State) {
    IsRun(run) && run[|run| - 1] == s
  }

  // THEOREM. A run reaches every state but the two that only the projection's
  // own facts reach.
  lemma ReachedExactly(s: State)
    ensures (exists run :: EndsIn(run, s)) <==> !s.WithdrawnAfterStaging? && !s.Superseded?
  {
    if !s.WithdrawnAfterStaging? && !s.Superseded? {
      assert EndsIn(PathTo(s), s);
    }
    if run :| EndsIn(run, s) {
      if |run| > 1 {
        var before := run[|run| - 2];
        assert Step(before, s);
        CameFrom(before, s);
      }
    }
  }

  // ---------------------------------------------------------------------
  // Where a state lies on every run
  // ---------------------------------------------------------------------

  // How many steps outside the gating loop a state can still take.
  ghost function Rank(s: State): nat {
    match s
    case Queued => 6
    case Gating => 5
    case BlockedPreWrite => 5
    case Writing => 4
    case Staged => 3
    case Submitting => 2
    case Submitted => 1
    case SubmittedUnverified => 1
    case QuotaHeld => 2
    case QuotaResetObserved => 1
    case _ => 0
  }

  ghost predicate InGateLoop(s: State) { s.Gating? || s.BlockedPreWrite? }

  ghost predicate PreWrite(s: State) {
    s.Queued? || InGateLoop(s) || s.QuotaHeld? || s.QuotaResetObserved?
  }

  ghost predicate PostWrite(s: State) {
    s.Writing? || s.Staged? || s.Submitting? || s.Submitted? || s.SubmittedUnverified? || s.AttentionRequired?
  }

  ghost predicate PressedEnter(s: State) { s.Submitted? || s.SubmittedUnverified? }

  ghost predicate PreWriteWithdrawal(s: State) { s.Withdrawn? || s.WithdrawnByOperator? }

  // Every step goes down in rank, except back and forth in the gate loop.
  lemma StepDescends(s: State, next: State)
    requires Step(s, next)
    ensures s != next
    ensures Rank(next) < Rank(s) || (InGateLoop(s) && InGateLoop(next))
  {
  }

  lemma {:induction false} RankOnRun(run: seq<State>, i: nat, j: nat)
    requires IsRun(run) && i <= j < |run|
    ensures Rank(run[j]) <= Rank(run[i])
    ensures i < j ==> Rank(run[j]) < Rank(run[i]) || (InGateLoop(run[i]) && InGateLoop(run[j]))
    decreases j - i
  {
    if i < j {
      RankOnRun(run, i, j - 1);
      StepDescends(run[j - 1], run[j]);
    }
  }

  // Only the write boundary leads to a post-write state.
  lemma {:induction false} PostWriteNeedsWriting(run: seq<State>, j: nat)
    requires IsRun(run) && j < |run| && PostWrite(run[j])
    ensures exists i :: 0 <= i <= j && run[i].Writing?
  {
    if !run[j].Writing? {
      assert Step(run[j - 1], run[j]);
      PostWriteNeedsWriting(run, j - 1);
    }
  }

  // After the write boundary a run stays post-write until it is notified.
  lemma {:induction false} AfterWriting(run: seq<State>, i: nat, j: nat)
    requires IsRun(run) && i <= j < |run| && run[i].Writing?
    ensures PostWrite(run[j]) || run[j].Notified?
    decreases j - i
  {
    if i < j {
      AfterWriting(run, i, j - 1);
      assert Step(run[j - 1], run[j]);
    }
  }

  // ---------------------------------------------------------------------
  // What every run guarantees
  // ---------------------------------------------------------------------

  // THEOREM. The pane is written at most once, and never before the gate again.
  lemma WritesOnce(run: seq<State>, i: nat, j: nat)
    requires IsRun(run) && i < j < |run| && run[i].Writing?
    ensures !run[j].Writing? && !PreWrite(run[j]) && !PreWriteWithdrawal(run[j])
  {
    RankOnRun(run, i, j);
    AfterWriting(run, i, j);
  }

  // THEOREM. Enter is pressed at most once: no run holds two of the submitted
  // states, nor one of them twice.
  lemma SubmitsOnce(run: seq<State>, i: nat, j: nat)
    requires IsRun(run) && i < j < |run| && PressedEnter(run[i])
    ensures !PressedEnter(run[j])
  {
    RankOnRun(run, i, j);
  }

  // THEOREM. A pre-write withdrawal is reached only by a run that never wrote,
  // and enter is only ever pressed by a run that did.
  lemma WithdrawalMeansUnwritten(run: seq<State>, j: nat)
    requires IsRun(run) && j < |run|
    ensures PreWriteWithdrawal(run[j]) ==> forall i :: 0 <= i <= j ==> !PostWrite(run[i])
    ensures PressedEnter(run[j]) ==> exists i :: 0 <= i < j && run[i].Writing?
  {
    if PreWriteWithdrawal(run[j]) {
      forall i | 0 <= i <= j
        ensures !PostWrite(run[i])
      {
        if PostWrite(run[i]) {
          PostWriteNeedsWriting(run, i);
          var k :| 0 <= k <= i && run[k].Writing?;
          AfterWriting(run, k, j);
        }
      }
    }
    if PressedEnter(run[j]) {
      PostWriteNeedsWriting(run, j);
    }
  }

  // THEOREM. An operator may withdraw exactly where a withdrawal is a legal
  // step, and on any run that is before any terminal byte was written.
  lemma OperatorWithdrawsUnwritten(run: seq<State>, j: nat)
    requires IsRun(run) && j < |run|
    ensures CanWithdrawBeforeWrite(run[j]) <==> Step(run[j], WithdrawnByOperator)
    ensures CanWithdrawBeforeWrite(run[j]) ==> forall i :: 0 <= i <= j ==> !PostWrite(run[i])
  {
    assert forall t :: SettledByClaim(run[j], t) == WithdrawnByOperator ==> run[j] == WithdrawnByOperator;
    if CanWithdrawBeforeWrite(run[j]) {
      forall i | 0 <= i <= j
        ensures !PostWrite(run[i])
      {
        if PostWrite(run[i]) {
          PostWriteNeedsWriting(run, i);
          var k :| 0 <= k <= i && run[k].Writing?;
          AfterWriting(run, k, j);
        }
      }
    }
  }

  // Steps outside the gate loop.
  ghost function ProgressSteps(run: seq<State>): nat {
    if |run| < 2 then 0
    else
      var n := |run| - 1;
      ProgressSteps(run[..n]) + if InGateLoop(run[n - 1]) && InGateLoop(run[n]) then 0 else 1
  }

  // THEOREM. Apart from the gating loop every run is finite: at most six
  // steps, whatever their order.
  lemma {:induction false} RunsAreFinite(run: seq<State>)
    requires IsRun(run)
    ensures ProgressSteps(run) + Rank(run[|run| - 1]) <= 6
    decreases |run|
  {
    if |run| > 1 {
      var n := |run| - 1;
      RunsAreFinite(run[..n]);
      assert Step(run[n - 1], run[n]);
      StepDescends(run[n - 1], run[n]);
    }
  }

  // The terminal states are closed, except the two replay-only quota states:
  // those still move, but only to QuotaResetObserved or Withdrawn.
  lemma TerminalClosed(s: State)
    requires IsTerminal(s)
    ensures (forall next :: !Step(s, next)) <==> !s.QuotaHeld? && !s.QuotaResetObserved?
    ensures forall next :: Step(s, next) ==> next.QuotaResetObserved? || next.Withdrawn?
  {
    assert SettledByClaim(QuotaHeld, DirectPayload) == Withdrawn;
    assert SettledByClaim(QuotaResetObserved, DirectPayload) == Withdrawn;
    if s.QuotaHeld? || s.QuotaResetObserved? {
      assert Step(s, Withdrawn);
    }
  }

  // THEOREM. The states the code calls terminal are those no step leaves, and
  // the two quota states.
  lemma TerminalExactly(s: State)
    ensures IsTerminal(s) <==> (forall next :: !Step(s, next)) || s.QuotaHeld? || s.QuotaResetObserved?
  {
    if s.Queued? { assert Step(s, Gating); }
    if s.Gating? { assert Step(s, Writing); }
    if s.BlockedPreWrite? { assert Step(s, Gating); }
    if s.Writing? { assert Step(s, Staged); }
    if s.Staged? { assert Step(s, Submitting); }
    if s.Submitting? { assert Step(s, Submitted); }
    if s.Submitted? || s.SubmittedUnverified? { assert Step(s, Notified); }
  }

  // Runs reach the quota states and leave them.
  lemma TerminalRunMovesOn()
    ensures var run := [Queued, Gating, QuotaHeld, QuotaResetObserved, Withdrawn];
      IsRun(run) && IsTerminal(run[2]) && IsTerminal(run[3])
    ensures IsRun([Queued, Gating, QuotaHeld, Withdrawn])
  {
    assert SettledByClaim(QuotaHeld, DirectPayload) == Withdrawn;
    assert SettledByClaim(QuotaResetObserved, DirectPayload) == Withdrawn;
  }

  // THEOREM. Once terminal, a run never touches the pane and never leaves the
  // terminal states; outside the quota states it is over.
  lemma {:induction false} TerminalForGood(run: seq<State>, i: nat, j: nat)
    requires IsRun(run) && i <= j < |run| && IsTerminal(run[i])
    ensures IsTerminal(run[j])
    ensures i < j ==> run[i].QuotaHeld? || run[i].QuotaResetObserved?
    ensures i < j ==> run[j].QuotaResetObserved? || run[j].Withdrawn?
    decreases j - i
  {
    if i < j {
      TerminalForGood(run, i, j - 1);
      assert Step(run[j - 1], run[j]);
      TerminalClosed(run[j - 1]);
    }
  }
}
