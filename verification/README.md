# Cyclops: the model and its proofs

Cyclops coordinates terminal agents: it keeps a crash-safe message journal, watches panes, decides
when text may be pasted into one, announces messages, and serves clients over a newline-delimited
socket. This project models the parts whose correctness is hardest to see from the code and proves
what they promise. `dafny verify dfyconfig.toml` checks everything (Dafny 4.11).

- `Ledger.dfy`, `LedgerRuns.dfy`: the append-only journal in strict mode, and every interleaving of
  opens, appends, failures, seals, drops and crashes on one file. A file is what reads see, what the
  device holds, and the synced length on which both agree; a crash keeps any prefix of either that is
  no shorter than the synced length, so a truncation that was not synced can come back.
- `Attention.dfy`, `AttentionFacts.dfy`: the attention register, two delivery halves and a cached union.
- `Composer.dfy`: the composer hold over whole histories of observations, and the readiness verdict.
- `Notification.dfy`, `Token.dfy`, `Doorbell.dfy`: attempt states over whole runs, the attempt token,
  message ids and doorbell lines.
- `Framing.dfy`, `Client.dfy`: bounded framing over chunked streams, request correlation, event order.
- `Escapes.dfy`, `Manifest.dfy`: escape stripping, region slicing and prioritized rules.
- `Palette.dfy`, `ThemeWatch.dfy`: 256-colour derivation and the theme reload machine.
- `Identity.dfy`: canonical identity strings.
- `Orders.dfy`, `Wrappers.dfy`, `Seqs.dfy`, `Text.dfy`, `Delimited.dfy`, `AgentStates.dfy`: shared definitions.

Libraries the code calls are parameters with the few facts needed. The ledger codec (`Ledger.Lawful`)
encodes to one line of text that does not end in a carriage return and parses back to the same value.
The UUID parser (`Identity.ReadsCanonical`) reads canonical text back; `Identity.CanonicalReaderExists`
shows such a parser exists. Theme files (`ThemeWatch.Honest`) set tokens of the vocabulary only.
Regular expressions, JSON decoding, clocks and every I/O outcome are arbitrary. The register's maps are
ordered, so their iteration order is the derived order of the keys (`Orders.dfy`).

Where code and comments disagree the model follows the code. Four promises hold only in part, and the
exact part is proved:

- Terminal notification states are closed except the two quota states, which the code calls terminal
  and yet lets move (`Notification.TerminalClosed`, `Notification.TerminalRunMovesOn`).
- A mailbox snapshot's effect on legacy twins depends on the order of the keys when a twin is contested
  by two omitted keys, which takes a key labelled differently in the two halves
  (`AttentionFacts.SnapshotByKey`, `AttentionFacts.ContestedByOrder`).
- The comment in the theme watcher says a second save without a token applies; it never does
  (`ThemeWatch.RefreshAppliesExactly`, `ThemeWatch.RefusalPersists`).
- The question whether an escaped capture is needed ignores paired clauses: it is right of
  every rule set without them, and wrong of some rule of every shape that has them and whose literal
  text can leave the verdict to them (`Manifest.UnaskedIsUnneeded`, `Manifest.NeedsCaptureExactly`,
  `Manifest.PairedClauseNeedsCapture`).

The readiness comments say a dead state never becomes ready. That holds of the fused state; a Dead
reading under an undisputed Idle verdict does not refuse (`Composer.DeadReadingIsReady`).

## Model

| member | source | states |
|---|---|---|
| `Ledger.Replay` | src/cyclops-ledger/src/lib.rs:322-365 | strict replay succeeds exactly when every line is the record numbered one past the line before it; it then returns the records past the cursor, and otherwise the error of the first faulty line |
| `Ledger.ReadFromStrict` | src/cyclops-ledger/src/lib.rs:322-365 | the replay loop, with its running `expected` counter, computes exactly that replay |
| `Ledger.ReplayStopsAtFault` | src/cyclops-ledger/src/lib.rs:333-363 | the first fault decides the outcome whatever lines follow |
| `Ledger.ReplayExactly` | src/cyclops-ledger/src/lib.rs:322-365 | strict replay accepts exactly a file whose line i parses to the record numbered i, short of the last number |
| `Ledger.ReplayNamesFault` | src/cyclops-ledger/src/lib.rs:333-363 | otherwise the error names the first line that is not one and what is wrong there |
| `Ledger.LinesExactly` | src/cyclops-ledger/src/lib.rs:322-333 | the lines read are the terminated ones, one carriage return removed, then an unterminated last one as it is |
| `Ledger.AppendExactly` | src/cyclops-ledger/src/lib.rs:204-237 | an append succeeds exactly when the writer may append, the line serializes and the I/O runs, and then returns and syncs the submitted line whole; each refusal says why and changes nothing; a failed write or sync stops the writer |
| `Ledger.LedgerWriter.Open` | src/cyclops-ledger/src/lib.rs:113-191 | strict open with tail repair, in place: new file, lease and writer are those of the step function, for every point at which I/O can fail |
| `Ledger.LedgerWriter.RepairTail` | src/cyclops-ledger/src/lib.rs:129-158 | the unterminated tail is cut and synced; each failure point leaves the file it leaves |
| `Ledger.LastNewlineEnd` | src/cyclops-ledger/src/lib.rs:141-144 | the retained length is what precedes the unterminated tail |
| `Ledger.LedgerWriter.AppendLine` | src/cyclops-ledger/src/lib.rs:204-237 | append in place, with refusals, partial writes and failed syncs; what that makes of the submitted line is AppendExactly |
| `Ledger.LedgerWriter.ReadAfter` | src/cyclops-ledger/src/lib.rs:240-252 | reading back from the same file is replay past the cursor |
| `Ledger.LedgerWriter.SealWriter` | src/cyclops-ledger/src/lib.rs:263-275 | sealing stops appends even when the unlock fails, which is then the error; the lease goes only when it works; nothing else changes |
| `LedgerRuns.OpenSucceeds` | src/cyclops-ledger/src/lib.rs:113-191 | on any file the system can produce strict open reports no corruption, gap or exhaustion, and a held lease exactly when it is held; a successful open keeps every complete record and stands one past the last |
| `LedgerRuns.OpenIsReplay` | src/cyclops-ledger/src/lib.rs:129-173 | on any file, an open with no fault and no lease is the strict replay of the complete lines: it fails as that fails, and numbers on from what it returns |
| `LedgerRuns.OpenFaults` | src/cyclops-ledger/src/lib.rs:113-165 | each I/O fault an open reaches stops it there and leaves the file as it is there; one it does not reach changes nothing |
| `LedgerRuns.AppendKeeps` | src/cyclops-ledger/src/lib.rs:204-237 | whatever the I/O does, an append keeps records numbered 1..n and every durable line durable; a success is durable under the next number |
| `LedgerRuns.TruncateKeeps` | src/cyclops-ledger/src/lib.rs:129-158 | cutting the unterminated tail keeps the numbering and every durable line, synced or not |
| `LedgerRuns.CrashKeeps` | src/cyclops-ledger/src/lib.rs:7-14 | a crash that keeps any prefix of the unsynced bytes, or loses an unsynced truncation, keeps the numbering and every durable line |
| `LedgerRuns.StepKeepsInv` | src/cyclops-ledger/src/lib.rs:113-275 | every open, append, seal, drop and crash keeps the whole invariant |
| `LedgerRuns.InvAlways` | src/cyclops-ledger/src/lib.rs:113-275 | the invariant holds in every state of every run |
| `LedgerRuns.AckIsNew` | src/cyclops-ledger/src/lib.rs:204-237 | no acknowledgement is taken back, and each is under a number never acknowledged before |
| `LedgerRuns.AckedGrows` | src/cyclops-ledger/src/lib.rs:204-237 | what one state of a run has acknowledged every later state has, unchanged |
| `LedgerRuns.AcknowledgedLinesReplay` | src/cyclops-ledger/src/lib.rs:113-237 | in every run, each acknowledged line is unchanged at its own number in every later strict replay, and such an open fails only on I/O or a held lease |
| `LedgerRuns.SubmittedLinesReplay` | src/cyclops-ledger/src/lib.rs:204-237 | in every run, a successful append is at its number in every later replay with the submitted content, the writer's boot id, and the submitted time or else the clock's |
| `LedgerRuns.OneWriter` | src/cyclops-ledger/src/lib.rs:124-127 | at most one unsealed writer exists, it holds the lease, and while it can append its next number is one past the complete records |
| `LedgerRuns.LiveReadAfter` | src/cyclops-ledger/src/lib.rs:240-252 | a writer that can append reads back exactly the complete records past its cursor |
| `LedgerRuns.CursorIsSuffix` | src/cyclops-ledger/src/lib.rs:322-365 | replay past a cursor is the rest of the whole replay |
| `LedgerRuns.StoppedWriterIsInert` | src/cyclops-ledger/src/lib.rs:204-219 | a sealed, unknown-state or exhausted writer refuses and changes nothing for the rest of its life |
| `Attention.AttentionRegister.RebuildUnion` | src/cyclops-proto/src/attention.rs:454-484 | the loops that merge, count exact rows by label and drop twins compute the declarative union |
| `Attention.CountExact` | src/cyclops-proto/src/attention.rs:462-469 | the tally holds, for each label and message, the number of exact rows carrying them |
| `Attention.Keyed` | src/cyclops-proto/src/attention.rs:432-444 | the keys are exactly those of the rows that need a human, and every row kept does |
| `Attention.KeyedLast` | src/cyclops-proto/src/attention.rs:432-444 | a key shows the last row given for it that needs a human, kept under its recipient or else its label |
| `Attention.Roster` | src/cyclops-proto/src/attention.rs:374-379 | the panes of a roster answer are exactly those it names |
| `Attention.RosterLast` | src/cyclops-proto/src/attention.rs:374-379 | a pane is shown as the answer last names it |
| `Attention.AttentionRegister.SnapshotAgents` | src/cyclops-proto/src/attention.rs:374-379 | the panes are exactly those of the answer and the cached union stays right |
| `Attention.AttentionRegister.SnapshotDeliveries` | src/cyclops-proto/src/attention.rs:385-388 | the legacy half is replaced and the cached union equals recomputation |
| `Attention.AttentionRegister.SnapshotMailbox` | src/cyclops-proto/src/attention.rs:397-430 | the mailbox half is replaced, the walk over the previous half ends omitted keys and twins in key order, the cached union equals recomputation |
| `Attention.AttentionRegister.EndAllAbsent` | src/cyclops-proto/src/attention.rs:399-427 | the loop over the previous half is the walk in key order |
| `Attention.AttentionRegister.EndAbsent` | src/cyclops-proto/src/attention.rs:403-426 | one omitted key ends, with its twin unless another exact row carries the label at that moment |
| `Attention.AttentionRegister.ObserveAgent` | src/cyclops-proto/src/attention.rs:536-555 | one pane moves; a clearance is returned exactly when it stops being blocked |
| `Attention.AttentionRegister.ForgetAgent` | src/cyclops-proto/src/attention.rs:572-585 | one pane goes; a clearance is returned exactly when it was blocked |
| `Attention.AttentionRegister.ObserveDelivery` | src/cyclops-proto/src/attention.rs:608-633 | an edge moves the legacy half only, at the resolved key, and the cached union equals recomputation; what it does there is EdgeRaises and EdgeClears |
| `Attention.AttentionRegister.Items` | src/cyclops-proto/src/attention.rs:665-688 | the list is every blocked pane and every union row exactly once, as many as the count, strictly ordered by sort key and, within one, by recipient as the stable sort leaves them |
| `Attention.SortItems` | src/cyclops-proto/src/attention.rs:686-687 | a stable sort of a list whose ties are in order is strictly ordered and a permutation |
| `Attention.OrderedUnique` | src/cyclops-proto/src/attention.rs:663-688 | there is one such list, so the same backlog always reads the same way |
| `Attention.OrderedMeans` | src/cyclops-proto/src/attention.rs:295-300 | the list goes by name, panes before deliveries, then by pane or by message and recipient |
| `Attention.KeyOrder` | src/cyclops-proto/src/attention.rs:197-201 | exact recipients come before bare labels, each in their order, then by message |
| `Attention.SortedKeys` | src/cyclops-proto/src/attention.rs:311-325 | a map of rows is walked in strictly ascending key order, every key once |
| `Orders.RecipientTotal` | src/cyclops-proto/src/identity.rs:376-396 | the derived order of recipient keys, by workspace, then variant, then fields, is total and antisymmetric |
| `Orders.RecipientTransitive` | src/cyclops-proto/src/identity.rs:376-396 | that order is transitive |
| `Orders.RecipientOrder` | src/cyclops-proto/src/identity.rs:376-396 | by workspace, then the administrator, agents by session and pane, headless agents by instance |
| `Orders.SeqLessExactly` | src/cyclops-proto/src/identity.rs:38-39 | identity bytes and strings compare by their first difference, a proper prefix first |
| `Attention.ClearanceOf` | src/cyclops-proto/src/attention.rs:635-657 | there is no clearance exactly when the key holds, and the pane is gone exactly when it is not listed |
| `AttentionFacts.ItemsAreWhatHolds` | src/cyclops-proto/src/attention.rs:635-688 | as many items as the count, no identity twice, an item for a key exactly when it holds: a pane in one of the three blocked states, or a row of the union |
| `AttentionFacts.ExactRowsStand` | src/cyclops-proto/src/attention.rs:454-484 | an exact row of either half is never hidden or merged; the mailbox row wins |
| `AttentionFacts.LegacyRowVisible` | src/cyclops-proto/src/attention.rs:460-482 | a legacy row is visible exactly when the exact rows of the union with its label and message are not one |
| `AttentionFacts.LegacyRowHiddenExactly` | src/cyclops-proto/src/attention.rs:460-482 | it is hidden exactly when one recipient and only one carries its label for its message |
| `AttentionFacts.EdgeRaises` | src/cyclops-proto/src/attention.rs:608-621 | an AttentionRequired or ParkedBlockedQuota edge puts its row under the resolved key, visible unless the mailbox has its own there, and nothing else moves |
| `AttentionFacts.EdgeClears` | src/cyclops-proto/src/attention.rs:618-633 | any other edge takes exactly that key out and reports the row it took out, if any |
| `AttentionFacts.EdgeKey` | src/cyclops-proto/src/attention.rs:512-534 | the key is the named recipient's; else the only recipient carrying the label for the message, else the label |
| `AttentionFacts.LabelReferenceHolds` | src/cyclops-proto/src/attention.rs:487-534 | a label reference to any open legacy row resolves to a key that holds, and to an exact row exactly when one row carries the label |
| `AttentionFacts.AmbiguousClearanceKeepsExact` | src/cyclops-proto/src/attention.rs:599-633 | an ambiguous label-only clearance leaves every exact row as it was |
| `AttentionFacts.MailboxRowOutlivesClearance` | src/cyclops-proto/src/attention.rs:608-633 | a clearance of a key the mailbox half still lists changes nothing visible |
| `AttentionFacts.TwinResurfaces` | src/cyclops-proto/src/attention.rs:608-633 | clearing the exact row that hid a legacy twin makes the twin visible |
| `AttentionFacts.SnapshotEndsOmitted` | src/cyclops-proto/src/attention.rs:397-430 | for every iteration order: omitted keys end in both halves, twins of sole carriers end, survivors are untouched, nothing else ends |
| `AttentionFacts.SnapshotExact` | src/cyclops-proto/src/attention.rs:397-430 | for each iteration order: exactly the omitted keys and the twins of sole carriers end if and only if every omitted key that is a sole carrier when its turn comes, and whose twin stands, was one from the start |
| `AttentionFacts.SnapshotByKey` | src/cyclops-proto/src/attention.rs:397-430 | the same for the order the maps have: the omitted rows gone when a key is judged are those with smaller keys |
| `AttentionFacts.AgreementIsUncontested` | src/cyclops-proto/src/attention.rs:397-430 | no twin is contested when the omitted rows both halves share carry one label in both |
| `AttentionFacts.ContestedByOrder` | src/cyclops-proto/src/attention.rs:399-427 | a register with a contested twin, for any two recipients: the snapshot keeps its promise if and only if the first sorts before the second |
| `Composer.TurnRunningAt` | src/cyclops-proto/src/state.rs:726-732 | the oldest reading of a running turn over any list of readings, or none |
| `Composer.DraftHeldUntilConsumed` | src/cyclops-proto/src/state.rs:566-653 | in every history without a pane death after the last draft, the hold stops refusing if and only if a settled fresh clean screen came before any consuming turn, or such a turn started and later ended with write-safe evidence; a turn not seen to stop since a draft was sighted in it does not count |
| `Composer.DuringTurnIsOwed` | src/cyclops-proto/src/state.rs:566-653 | the hold remembers a running turn exactly when a draft was sighted in one and every event since shows a draft or a running turn, or is a settled screen that is not visibly empty |
| `Composer.ClearWithoutDraft` | src/cyclops-proto/src/state.rs:566-593 | where no draft was seen since a clear hold or the last pane death the hold is clear |
| `Composer.NotEndedKeepsHold` | src/cyclops-proto/src/state.rs:613-628 | on a live pane a refusing hold goes on refusing while the daemon says the turn has not ended |
| `Composer.SeesWhatShows` | src/cyclops-proto/src/state.rs:566-759 | what the machine asks of a detection, over its fields: a draft, a running turn, a safe or an empty composer, a turn over |
| `Composer.QuietRun` | src/cyclops-proto/src/state.rs:592-627 | after any quiet history each hold state is read off the history |
| `Composer.TurnMarkIsFirst` | src/cyclops-proto/src/state.rs:602-612 | the turn mark is the first evidence of the turn and is never re-stamped |
| `Composer.ReadinessIsOneCondition` | src/cyclops-proto/src/state.rs:695-855 | stamped readiness is one declarative condition over all readings; a block is named exactly when not ready |
| `Composer.RefusalNamesFirst` | src/cyclops-proto/src/state.rs:695-855 | the reason of a refusal is that of the first thing in the way |
| `Composer.DeadReadingIsReady` | src/cyclops-proto/src/state.rs:782-855 | a Dead reading under an undisputed Idle verdict is ready; the same readings under a Dead verdict are not |
| `Composer.NeverReadyOverDraft` | src/cyclops-proto/src/state.rs:566-710 | no verdict stamped with the hold of a history says ready over a draft neither erased nor consumed |
| `Notification.WritesOnce` | src/cyclops-proto/src/notification.rs:178-213 | a run enters Writing at most once and never returns to a pre-write state or a pre-write withdrawal |
| `Notification.SubmitsOnce` | src/cyclops-proto/src/notification.rs:178-213 | a run holds at most one submitted state, once |
| `Notification.WithdrawalMeansUnwritten` | src/cyclops-proto/src/notification.rs:178-241 | a pre-write withdrawal is reached only without Writing; a submitted state only after it |
| `Notification.OperatorWithdrawsUnwritten` | src/cyclops-proto/src/notification.rs:217-219 | an operator may withdraw exactly where it is a legal step, and then nothing was written |
| `Notification.RunsAreFinite` | src/cyclops-proto/src/notification.rs:178-255 | outside the Gating/BlockedPreWrite loop every run has at most six steps |
| `Notification.RankOnRun` | src/cyclops-proto/src/notification.rs:178-213 | along a run the rank of the state falls, but within the Gating/BlockedPreWrite loop |
| `Notification.TerminalClosed` | src/cyclops-proto/src/notification.rs:178-255 | a terminal state is closed if and only if it is not one of the two quota states, which can only move to QuotaResetObserved or Withdrawn |
| `Notification.TerminalRunMovesOn` | src/cyclops-proto/src/notification.rs:178-255 | runs from creation reach both quota states and leave them |
| `Notification.TerminalExactly` | src/cyclops-proto/src/notification.rs:243-255 | the terminal states are those no step leaves, and the two quota states |
| `Notification.DocumentedPaths` | src/cyclops-proto/src/notification.rs:178-213 | every documented way through an attempt is a run |
| `Notification.ReachedExactly` | src/cyclops-proto/src/notification.rs:178-241 | runs reach every state but WithdrawnAfterStaging and Superseded |
| `Notification.CameFrom` | src/cyclops-proto/src/notification.rs:178-213 | the transitions, by the state they lead to |
| `Notification.ClaimSettles` | src/cyclops-proto/src/notification.rs:229-241 | a claim withdraws what has not crossed the write boundary, settles a doorbell past Enter, and leaves the rest |
| `Notification.TerminalForGood` | src/cyclops-proto/src/notification.rs:178-255 | once terminal a run stays terminal and never touches the pane |
| `Token.CharacterBijection` | src/cyclops-proto/src/notification.rs:1132-1141 | the alphabet and the character decoder are inverse |
| `Token.AlphabetExactly` | src/cyclops-proto/src/notification.rs:1132-1141 | the alphabet is the URL-safe one of RFC 4648 |
| `Token.NotificationAttemptToken` | src/cyclops-proto/src/notification.rs:1040-1054 | the encoding loop spells the six-bit values of the id |
| `Token.ParseNotificationAttemptToken` | src/cyclops-proto/src/notification.rs:1057-1083 | the decoding loop computes the token parser, every check included |
| `Token.FillBytes` | src/cyclops-proto/src/notification.rs:1068-1079 | the array loop packs each four values into three bytes |
| `Token.RecheckNeverRejects` | src/cyclops-proto/src/notification.rs:1066-1082 | the final re-encode check never rejects what the pad-bit check let through |
| `Token.TokenBijection` | src/cyclops-proto/src/notification.rs:1040-1083 | a string is accepted as a non-nil id if and only if it is its token |
| `Token.TokenIsBase64` | src/cyclops-proto/src/notification.rs:1040-1054 | read in base 64 the token is the 128-bit id followed by four zero bits |
| `Doorbell.MessageIdChars` | src/cyclops-proto/src/mailbox.rs:85-108 | a valid message id holds only letters, digits, `_` and `-` |
| `Doorbell.MessageIdExactly` | src/cyclops-proto/src/mailbox.rs:85-108 | the ids are exactly `cyc-` and two runs of eight hex characters, or `m-` and at least one id character |
| `Doorbell.LocatorCanonical` | src/cyclops-proto/src/notification.rs:1091-1109 | a locator is accepted as an attempt if and only if it is `m-att_` and its token, which is what is built |
| `Doorbell.LocatorIsMessageId` | src/cyclops-proto/src/notification.rs:1091-1098 | every locator is a valid message id |
| `Doorbell.V2Canonical` | src/cyclops-proto/src/notification.rs:968-1037 | format 2 accepts a payload if and only if it is the claim words, a message id and an attempt token, with an optional newline; a rendering parses back |
| `Doorbell.V3Canonical` | src/cyclops-proto/src/notification.rs:977-1118 | format 3 accepts a payload if and only if it is the claim words and a locator, with an optional JSON flag and newline; a rendering parses back |
| `Doorbell.FormatsDisjoint` | src/cyclops-proto/src/notification.rs:1026-1118 | no payload is accepted by both parsers |
| `Doorbell.LocatorReserved` | src/cyclops-proto/src/notification.rs:1085-1098 | no locator is a `cyc-` id or a legacy 32-hex `m-` id |
| `Framing.ReadBlockingFrame` | src/cyclops-client/src/lib.rs:366-417 | however the bytes are chunked, one read returns their first line under the bound and leaves exactly what follows; a fault drops the bytes before it; an oversized frame leaves the chunk that showed it and all after |
| `Framing.AsyncFrameReader.NextFrame` | src/cyclops-client/src/lib.rs:634-676 | the async reader, with its kept buffer, returns and leaves the same, a cancelled read included |
| `Framing.ReadsAreTheSplit` | src/cyclops-client/src/lib.rs:366-417 | taking first lines until none is left is one split of the whole stream at its newlines under the bound, one carriage return removed, ended by the first line over a mebibyte or by how the stream stopped |
| `Framing.ReadAllBlocking` | src/cyclops-client/src/lib.rs:366-417 | calling the blocking reader until it stops gives that split of all the bytes that arrive, however chunked |
| `Framing.ReadAllAsync` | src/cyclops-client/src/lib.rs:634-676 | so does the async reader |
| `Framing.UnreadSplit` | src/cyclops-client/src/lib.rs:366-417 | an oversized frame leaves the chunk that showed it and all after, the chunks taken having no newline and fitting the bound |
| `Framing.BoundedJson.Write` | src/cyclops-client/src/lib.rs:330-345 | a piece is taken if and only if it fits the bound |
| `Framing.EncodeRequest` | src/cyclops-client/src/lib.rs:351-364 | a request encodes if and only if it completes within the bound, however it is written in pieces |
| `Framing.EncodedIsOneFrame` | src/cyclops-client/src/lib.rs:351-417 | an encoded request is read back as exactly one equal frame |
| `Client.BlockingClient.Request` | src/cyclops-client/src/lib.rs:542-562 | a request written whole passes over events only and ends with what the last frame says or an error of the connection; a result or a refusal comes from a frame with this request's id; known-not-sent is exactly a request that does not encode, with no byte written or read; handed events followed by pending ones stay the events read |
| `Client.EncodeOrRefuse` | src/cyclops-client/src/lib.rs:351-364 | a request gets bytes if and only if it serializes within the bound; otherwise the error names which of the two failed |
| `Client.BlockingClient.Issue` | src/cyclops-client/src/lib.rs:542-546 | ids count up to saturation; a request that does not encode is known not sent and writes nothing; a write that stops is of unknown outcome and has handed over the prefix it handed over |
| `Client.BlockingClient.Await` | src/cyclops-client/src/lib.rs:547-562 | the wait buffers events, in order, and ends with what the first frame that is no event says, or with an error of the connection |
| `Client.BlockingClient.NextEvent` | src/cyclops-client/src/lib.rs:574-591 | pending events are handed out first, in order; then one frame is read and handed out if and only if it is an event |
| `Client.LinesAreWirePrefix` | src/cyclops-client/src/lib.rs:542-591 | while no read has failed, the lines consumed are the first lines of the wire |
| `Client.RequestIdsUnique` | src/cyclops-client/src/lib.rs:543-544 | two requests share an id if and only if the earlier one already had the saturated id; otherwise no frame settles both |
| `Client.JudgeIsSound` | src/cyclops-client/src/lib.rs:247-291 | a wait goes on exactly over events; any other frame decides it as it says, and each way a read can fail has its own error |
| `Client.DecodeIsWhatItSays` | src/cyclops-client/src/lib.rs:247-291 | a result exactly when the answer has this id, no error and that result; a refusal exactly when it has this id and that error code; an oversized response at frame_too_large; otherwise unknown |
| `Client.CertaintyExactly` | src/cyclops-client/src/lib.rs:171-186 | which errors mean nothing was sent, a refusal, a gap, or an unknown outcome |
| `Palette.DeriveC256` | src/cyclops-theme/src/lib.rs:281-316 | the index is the least one at minimum squared distance among all 240 candidates |
| `Palette.ColoursExactly` | src/cyclops-theme/src/lib.rs:275-282 | the candidates are the xterm cube and grey ramp |
| `Palette.DistanceExactly` | src/cyclops-theme/src/lib.rs:295-298 | the distance is the sum of squared channel differences |
| `Palette.LeastNearestUnique` | src/cyclops-theme/src/lib.rs:275-316 | there is one such index |
| `Palette.Near` | src/cyclops-theme/src/lib.rs:283-294 | the first level nearest to a channel value |
| `Palette.NearGray` | src/cyclops-theme/src/lib.rs:301-310 | the first grey nearest to a colour |
| `Palette.CubeIsOptimal` | src/cyclops-theme/src/lib.rs:275-301 | choosing each channel on its own is optimal over the cube, ties to the lower level |
| `Palette.PaletteColoursAreFixed` | src/cyclops-theme/src/lib.rs:275-316 | each of the 240 palette colours has its own index as the only possible answer |
| `ThemeWatch.WatchedTheme.RefreshTheme` | src/cyclops-theme/src/select.rs:345-391 | one refresh in place, for any answers of the filesystem |
| `ThemeWatch.WatchedTheme.SwitchTo` | src/cyclops-theme/src/select.rs:398-405 | whatever was on screen, the chosen file is shown whole when it loads and the built-in theme otherwise; the config warnings come first, one is added unless a bare default is missing; and nothing has moved with respect to what was looked at |
| `ThemeWatch.WatchedTheme.AdoptTheme` | src/cyclops-theme/src/select.rs:407-439 | a reload is taken or refused, naming the first lost token and how many more |
| `ThemeWatch.WatchedTheme.TakeWarnings` | src/cyclops-theme/src/select.rs:323-325 | warnings are handed out once |
| `ThemeWatch.StepKeepsTokens` | src/cyclops-theme/src/select.rs:345-439 | a refresh without a switch keeps every token set, and the theme stays within the vocabulary |
| `ThemeWatch.RefreshAppliesExactly` | src/cyclops-theme/src/select.rs:345-439 | a refresh applies if and only if it switches, or the watched file moved, loads and still sets every token on screen; a switch shows the choice, a reload the file |
| `ThemeWatch.RefreshWarnsExactly` | src/cyclops-theme/src/select.rs:345-439 | what a refresh without a switch says: what loading said, that the file is gone or broken, or the first token it stopped setting and how many more |
| `ThemeWatch.TokensNeverShrink` | src/cyclops-theme/src/select.rs:345-439 | between two switches the tokens the on-screen theme defines never shrink |
| `ThemeWatch.FalseLeavesTheme` | src/cyclops-theme/src/select.rs:345-439 | a run of refreshes that report no change leaves the theme |
| `ThemeWatch.SecondRefreshIsQuiet` | src/cyclops-theme/src/select.rs:345-372 | with nothing moved since the last refresh the next returns false and adds no warning |
| `ThemeWatch.RefusalPersists` | src/cyclops-theme/src/select.rs:417-439 | an edit of the watched file that drops a token on screen is refused on every save while no switch happens, whatever other files hold |
| `Escapes.StripCsi` | src/cyclops-manifest/src/lib.rs:1074-1110 | the cursor loop computes the visible text |
| `Escapes.SkipCsi` | src/cyclops-manifest/src/lib.rs:1080-1088 | the cursor stops just past the sequence's final byte, or at the end |
| `Escapes.SkipOsc` | src/cyclops-manifest/src/lib.rs:1089-1101 | the cursor stops just past the sequence's terminator, or at the end |
| `Escapes.StripShowsText` | src/cyclops-manifest/src/lib.rs:1074-1110 | stripping a rendering of text, CSI, OSC, bare escapes and a sequence left open returns exactly the text |
| `Escapes.EveryTextReads` | src/cyclops-manifest/src/lib.rs:1074-1110 | every input is such a rendering |
| `Escapes.StripIdempotent` | src/cyclops-manifest/src/lib.rs:1074-1110 | stripping is idempotent on every input |
| `Manifest.RegionsAligned` | src/cyclops-manifest/src/lib.rs:1518-1550 | when each plain row is the strip of its escaped row every region takes the same rows from both captures |
| `Manifest.NonEmptyExactly` | src/cyclops-manifest/src/lib.rs:1518-1532 | the rows considered are all those with something on them, in order |
| `Manifest.LastNExactly` | src/cyclops-manifest/src/lib.rs:1533-1550 | a region takes the last n of them |
| `Manifest.ClausesConjoin` | src/cyclops-manifest/src/lib.rs:786-813 | a matcher with the clauses of two matches exactly when both do |
| `Manifest.SingleClauses` | src/cyclops-manifest/src/lib.rs:786-866 | what each single clause asks for; an empty matcher never matches |
| `Manifest.UnstyledOnly` | src/cyclops-manifest/src/lib.rs:791-795 | the unstyled flag asks for a capture with no escape in it |
| `Manifest.UnevenPairs` | src/cyclops-manifest/src/lib.rs:826-840 | clauses that do not pair up never hold |
| `Manifest.EndLineIsRow` | src/cyclops-manifest/src/lib.rs:841-866 | the line a match ends on, found by counting newlines, is the row its end lies on |
| `Manifest.AnyAlternative` | src/cyclops-manifest/src/lib.rs:909-916 | a rule fires when its own clauses match or those of any alternative do |
| `Manifest.RegionDecides` | src/cyclops-manifest/src/lib.rs:1533-1550 | a title rule sees the title only, a screen rule the region of both captures |
| `Manifest.SortedOrder` | src/cyclops-manifest/src/lib.rs:1219-1220 | the stable sort lists every rule once, by falling priority and then file order |
| `Manifest.EvaluateEsc` | src/cyclops-manifest/src/lib.rs:1518-1556 | the winner is the first rule that fires, and none exactly when none fires |
| `Manifest.FirstToFireWins` | src/cyclops-manifest/src/lib.rs:1220-1556 | the winner is the firing rule of highest priority in the file, the earliest on a tie |
| `Manifest.CaptureOnlyAdds` | src/cyclops-manifest/src/lib.rs:786-813 | a rule fires with a capture if and only if it fires without one, or is about the screen and a matcher with escaped clauses holds on the capture |
| `Manifest.CaptureUnneeded` | src/cyclops-manifest/src/lib.rs:1518-1556 | a rule with no matcher that a capture can decide fires the same with any capture and with none |
| `Manifest.UnaskedIsUnneeded` | src/cyclops-manifest/src/lib.rs:1518-1581 | a rule set that does not ask for a capture and has no screen rule over at least one row with as many paired clauses as plain ones, and at least one, has the same winner on every title and screen with any capture as with none |
| `Manifest.NeedsCaptureExactly` | src/cyclops-manifest/src/lib.rs:786-866 | a rule that does not ask has regexes of its clause counts and a screen on which it fires with the capture and not without, if and only if some screen's literal text leaves the verdict to a matcher with pairs |
| `Manifest.PairedMatcherNeedsCapture` | src/cyclops-manifest/src/lib.rs:786-866 | for one matcher with pairs over at least one row, whose literal text can stand on a row, such regexes and screen always exist |
| `Manifest.PairedClauseNeedsCapture` | src/cyclops-manifest/src/lib.rs:1568-1581 | a rule set with only paired clauses needs the capture and does not say so |
| `Identity.TmuxIdCanonical` | src/cyclops-proto/src/identity.rs:236-273 | a string is accepted as a tmux id if and only if it is the display of a 64-bit number |
| `Identity.TmuxIdExactly` | src/cyclops-proto/src/identity.rs:236-247 | the strings accepted are the sigil and a decimal number of 64 bits with no leading zero |
| `Identity.TmuxIdRefusals` | src/cyclops-proto/src/identity.rs:236-247 | leading zeros and values beyond 64 bits are refused |
| `Identity.DurableIdCanonical` | src/cyclops-proto/src/identity.rs:41-49 | a string is accepted as a durable id if and only if it is its canonical text |
| `Identity.HyphenatedInjective` | src/cyclops-proto/src/identity.rs:58-62 | two ids never share a text |
| `Identity.HexAt` | src/cyclops-proto/src/identity.rs:58-62 | two lower-case hex characters a byte, high half first |
| `Identity.CanonicalReaderExists` | src/cyclops-proto/src/identity.rs:42-48 | a parser that reads canonical text back exists |
| `Identity.RecipientKeyCanonical` | src/cyclops-proto/src/identity.rs:467-588 | a string is accepted as a recipient key if and only if it is the display of that key |
| `Identity.DisplayExactly` | src/cyclops-proto/src/identity.rs:571-588 | the text of each kind of key: its word, then its ids between slashes |

## Left out

- Ledger.LedgerWriter.Open: strict replay only. Lenient open seals a torn tail with a newline and skips invalid lines; its recovery statement is weaker and depends on UTF-8 handling.
- LedgerRuns.CrashKeeps: a crash keeps prefixes; reordered or torn sectors, and a page cache that drops data after a failed sync, are not modelled.
- Client.BlockingClient.Request: the response body, error message, targets and data are one opaque value; connecting and the hello line are not modelled.
- The async client around its frame reader, with one deadline for a whole request, and the clock behind any deadline.
- ThemeWatch.WatchedTheme.RefreshTheme: warning texts are constructors, and how the config key resolves to a path is an arbitrary answer.
- Manifest.EvaluateEsc: a screen is a list of rows; splitting the capture into lines, region parsing and TOML are not modelled, and match positions count characters.
- Doorbell.V2Canonical: formats 1 and 4 and the legacy doorbell are not modelled; format 4 embeds format 3 behind free text and has no parser.
- Notification.WritesOnce: the cause-gated zero-byte correction out of Writing and the fact-driven states belong to the mailbox projection of the daemon, which is not part of this model.
- Composer.DraftHeldUntilConsumed: the receipt-driven promotion of a hold and turn-key correlation happen in the daemon and are not part of this model; the daemon's answer about a turn is an arbitrary input. A reading's rule id and the reason of an unknown state are dropped, because no modelled rule reads them.
- Palette.DeriveC256: hex parsing, explicit fallbacks and the default table are lookups.
- Minting of ids, SHA-256 digests, summaries, glyphs, words and headers: presentation or library calls.
- tmux runners, file permissions, path checks, coordinator configuration, the website and the CI scripts: plumbing that would only add easy members.
