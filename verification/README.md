# Orchestrator pack: verified models

Dafny models of the parts of the orchestrator pack in which a mistake sends keystrokes, restarts processes, loses
results or lets a permission slip: what each part does is written down as functions or objects, and what its design
promises is proved for all inputs, all runs or all interleavings.

`dafny verify dfyconfig.toml` checks everything. One module per component:

- **Orchestration mail** (`Mail`, `Delivery`, `DeliveryRefusals`, `DeliveryUpkeep`, `DeliveryRuns`, `MailRuns`, `Drain`,
  `Watch`, `WatchRuns`). A ledger of per-message
  episodes decides when Enter may be pressed in a worker's composer; a drain clears pointers left behind; watch mode
  keeps its own memory over restarts. Pane reads, dispatch results, liveness and the clock are inputs. The classes
  `Reconciler`, `Drainer` and `WatchState` are the objects the scripts update in place, each method proved against a
  function of the old state; the run modules prove safety over every sequence of such steps.
- **Pointers** (`Composer`, `ComposerLines`, `RawPane`, `PointerRoundTrip`, `PointerBreaks`, `PointerGrammar`). Finding the
  composer box, rejoining wrapped lines, recognising the one check command, when printing and reading back is lossless, and the
  grammar of what is accepted.
- **Long-running child** (`Launcher`, `Kernel`, `OwnerWait`, `OwnerReports`). The watchdog fed by chunked output; and the race of one
  launcher and any number of owner waits for one terminal path, as a transition system over an exclusive create and a
  small kernel with pid reuse, zombies and reboots.
- **Executor launch admission** (`JsonScan`, `PermissionRuleset`, `DenyOverlay`, `ShellQuote`, `LaunchAdmission`,
  `LaunchParts`).
  The embedded-JSON scanner, the conversion of permission lists, the deny overlay and its check, and the launch
  command with its recogniser and the shell's reading of it.
- **Files and graphs** (`ManagedBlock`, `ImportClosure`, `AdoptionEffect`, `DuplicateIndex`, `DuplicateMeaning`,
  `Glob`, `TriageEvidence`, `Snapshot`).

## Where the code falls short

These are results about the code as it is, each a lemma with the exact condition beside it:

- A single result can be flagged as a duplicate: finalizing reads an unterminated end a second time, and a newline
  that arrives after the open end was taken makes the same text a line as well. The flag tells whether two results
  were printed, those refused as late left aside, exactly unless the first one was taken from the open end and a
  single one is read after that (`Launcher.DuplicateFlagExact`, `Launcher.LoneResultFlagged`).
- A Run id that begins with the prompt arrow loses it when a pointer is wrapped right before the id; a pointer wrapped
  at spaces reads back exactly if no line after the first starts with the arrow (`PointerRoundTrip.WrappedPointerReadsBack`,
  `PointerRoundTrip.LeadingArrowIsLost`). Broken inside words it reads as its own command or as none under the same
  condition (`PointerBreaks.BrokenPointerReads`); without it, `ab`, arrow, `cd` can read as `abcd`
  (`PointerBreaks.ArrowInIdIsLost`).
- The deny overlay fails its own check exactly when, after an inherited protected key, an inherited `*` has an entry
  other than a deny whose joined key no later rule repeats (`DenyOverlay.OverlayTerminal`,
  `PermissionRuleset.ListOverlayTerminal`). Two things can hide a clash from the check: a permission whose name starts
  with `*` and U+0000 (`DenyOverlay.HiddenClash`), and an agent called `general` or `explore`, because the overlay then
  writes that key twice (`LaunchAdmission.OverlayAdmission`).
- All waits of the mail engine are between clock readings, and a tick reads its clock once, at its start. An Enter that
  comes late in its tick is waited for that much less: the next one comes after the wait less the lag of the earlier
  Enter and more its own, and no later in some run (`MailRuns.EnterDiscipline`, `MailRuns.WaitByLags`). The ten seconds
  of the drain shrink by what the pane read lagged, down to nothing (`Drain.DrainDiscipline`, `Drain.WaitByLags`). The
  full time is sure exactly if the earlier one lags no more than the later.
- The ledger is saved once, at the end of a tick. A tick that ends before, by an exception or a kill, forgets its
  Enters, and the next one may repeat them at once (`MailRuns.AbortForgets`, `Drain.CutForgets`). Every Enter respects
  those its ledger accounts for; with no such end after an Enter these are all (`MailRuns.NothingForgotten`,
  `Drain.NothingForgotten`).
- A claim is forgotten when its message is found consumed and the mailbox has no unread row for it, even if a tick may
  still retry the message: the next attempt then presses Enter at once (`DeliveryRuns.ReleaseForgets`). The promises of
  `MailRuns.EnterDiscipline` are for messages the mailbox still had unread at every such release.
- Watch mode saves after a pass, not before an Enter: a restart in between finds an older store and repeats what that
  store does not block (`WatchRuns.UnsavedRestart`, `WatchRuns.RepeatedBeforeSave`). `WatchRuns.NoRepeatedEnter` is for
  restarts that find the store written after the last look; `WatchRuns.RepeatedOnlyAfterLoss` is for any.
- Turning a rule list into an object keeps the last action of every key but puts a repeated rule where it was first
  given (`PermissionRuleset.OrderKeptExactly`, `PermissionRuleset.LastRuleMovesForward`).
- Compiled globs do not cross line terminators (`Glob.DoubleStarIsOneLine`), and names are normalized twice, which
  makes some accepted names fail later (`TriageEvidence.SecondPass`, `TriageEvidence.TakenThenRefused`,
  `TriageEvidence.BuiltExactly`).

## Model

| member | source | states |
|---|---|---|
| Mail.WorkerKeyInjective | scripts/cursor-unsent-composer-submit.ts:243-245 | Worker keys are injective: equal keys of NUL-free identities mean equal runtime, id and generation. |
| Mail.RecipientExactly | scripts/cursor-unsent-composer-submit.ts:501-504 | Two workers are one recipient exactly if they have the same stable key, white space around it aside, or none and the same identity. |
| Mail.EpisodeKeyNamesMessage | scripts/cursor-unsent-composer-submit.ts:501-508 | Ledger keys of two messages with NUL-free ids coincide only for one and the same message, whatever the workers. |
| Mail.MatchIsOwnCommand | scripts/cursor-unsent-composer-submit.ts:977-1006 | What delivery accepts as a message's pointer is exactly the command the printer puts into that message's text, for recipients bound to the worker or Run they name, and nothing for others. |
| Delivery.OutcomeRecorded | scripts/cursor-unsent-composer-submit.ts:1429-1564 | What an Enter leaves in the ledger: a failed send may be retried at once and without back-off, a consumed one confirms the episode for its window, an unconfirmed one doubles the wait; and no delivery confirms an episode otherwise, except by the pointer being absent after a claim. |
| Delivery.DeliveryDecides | scripts/cursor-unsent-composer-submit.ts:1284-1564 | When a delivery presses Enter, with which outcome, why it does not otherwise, and what it leaves under the message's key, exactly: an episode not confirmed before is confirmed after exactly if its Enter was consumed, or its claim was due, the settled composer empty and without a pointer, and the worker not gone; a delivery that does not come to look leaves a claim as it is. |
| DeliveryRefusals.RefusesExactly | scripts/cursor-unsent-composer-submit.ts:1263-1330 | Why a delivery does not come to look, in the order of its checks; an Enter of another message holds it off exactly if it left the same text with the same worker and its wait is not over. |
| DeliveryRefusals.ReadTwiceExactly | scripts/cursor-unsent-composer-submit.ts:1429-1442 | An empty composer is read again after a grace and the second reading counts; any other first reading stands. |
| DeliveryRefusals.OutcomeIsReported | scripts/cursor-unsent-composer-submit.ts:1531-1564 | The reason reported goes with what became of the Enter, or with what kept it back. |
| DeliveryRefusals.LiftExactly | scripts/cursor-unsent-composer-submit.ts:1284-1299 | A claim under another key is moved exactly if the message has none under its own, recorded for the worker of now; nothing else changes. |
| Delivery.KeyNamesMessage | scripts/cursor-unsent-composer-submit.ts:506-508 | The message of a ledger entry can be read off its key. |
| Delivery.Reconciler.constructor | scripts/cursor-unsent-composer-submit.ts:491-499 | An empty ledger is well keyed. |
| Delivery.Reconciler.LiftLegacy | scripts/cursor-unsent-composer-submit.ts:1284-1299 | A claim held under another key moves to the message's own key; nothing else changes. |
| Delivery.Reconciler.Deliver | scripts/cursor-unsent-composer-submit.ts:1263-1564 | One delivery updates the ledger and reports exactly as `Delivered` says, and keeps one episode per message under a key that names it. |
| Delivery.Reconciler.ObservePane | scripts/cursor-unsent-composer-submit.ts:1429-1564 | Reading the pane: mismatch, contradiction of a confirmed claim, back-off, absence as witness, and the Enter with its doubling wait. |
| Delivery.Reconciler.DeliverRows | scripts/cursor-unsent-composer-submit.ts:2077-2195 | The delivery loop of a tick, skipping pointers the tick already attempted on a recipient, equals the row-by-row specification and keeps the ledger well keyed. |
| Delivery.Reconciler.Maintain | scripts/cursor-unsent-composer-submit.ts:2053-2066 | The upkeep of a tick: claims are migrated, episodes of consumed messages and of stale keys go. |
| DeliveryUpkeep.MaintainedExactly | scripts/cursor-unsent-composer-submit.ts:2053-2066 | What upkeep keeps: with all active rows resolved, of the migrated ledger the entries of active messages under active keys; otherwise exactly the entries of active messages. |
| Delivery.Reconciler.MigrateLegacyEpisodeKeys | scripts/cursor-unsent-composer-submit.ts:1141-1155 | Migration keeps the stronger of two claims under the current key and drops the legacy one. |
| DeliveryUpkeep.MigratedExactly | scripts/cursor-unsent-composer-submit.ts:1141-1155 | After migrating distinct messages, all each of them had is one entry under its key, the strongest, its own winning a tie; every other message has what it had. |
| DeliveryUpkeep.UnreadKeepsStrongest | scripts/cursor-unsent-composer-submit.ts:2053-2061 | So an unread active message leaves upkeep with just the strongest claim it had. |
| Delivery.Reconciler.ReleaseEpisodeWhenMailboxEmpty | scripts/cursor-unsent-composer-submit.ts:1169-1193 | A release removes exactly the message's episodes, and nothing while the mailbox has an unread row for its key. |
| Delivery.Reconciler.DeleteAll | scripts/cursor-unsent-composer-submit.ts:1157-1167 | Releasing a set of episodes removes exactly these. |
| Delivery.OncePerPointerPerTick | scripts/cursor-unsent-composer-submit.ts:2146-2180 | Within one tick, a pointer Entered or seen consumed on a recipient is not attempted there again by any later row. |
| DeliveryRefusals.RowsExactly | scripts/cursor-unsent-composer-submit.ts:2077-2195 | Row by row: a row is skipped exactly if an earlier one of the tick spent the same text on the same recipient; every other one is delivered to what the rows before it left. |
| Delivery.ObserveWritesOwnKey | scripts/cursor-unsent-composer-submit.ts:1429-1564 | A delivery writes at most the entry of its own message. |
| Delivery.DeliveredWellKeyed | scripts/cursor-unsent-composer-submit.ts:1263-1564 | Every delivery keeps one episode per message, each under a key that names the message. |
| DeliveryRuns.LiftFrame | scripts/cursor-unsent-composer-submit.ts:1284-1299 | Lifting an old claim leaves every other message's entry, and a current entry of its own, untouched. |
| DeliveryRuns.AttemptFrame | scripts/cursor-unsent-composer-submit.ts:1263-1564 | A delivery leaves every other message's entry as it was. |
| DeliveryRuns.PressComesFromObservation | scripts/cursor-unsent-composer-submit.ts:514-533 | An Enter happens only with the message's own command on the pane and with no sibling claim for the same pointer pending. |
| DeliveryRuns.MigrateKeeps | scripts/cursor-unsent-composer-submit.ts:1141-1155 | Migration never moves or weakens an episode that is already under its message's key. |
| DeliveryRuns.MaintainedKeeps | scripts/cursor-unsent-composer-submit.ts:2053-2066 | Upkeep keeps the current claim of every message that stays active. |
| DeliveryRuns.SiblingEnterRespects | scripts/cursor-unsent-composer-submit.ts:514-533 | Sibling messages: an unconfirmed Enter holds off every message with the same pointer on the same worker just as long. |
| DeliveryRuns.ReleaseForgets | scripts/cursor-unsent-composer-submit.ts:1169-1256 | A release without that guard forgets the hold: the same attempt presses Enter again at once; with it the attempt backs off. |
| MailRuns.EnterDiscipline | scripts/cursor-unsent-composer-submit.ts:1169-2200 | Over every run of deliveries, upkeep, releases, saves and ticks that end without saving: every Enter, saved or not, was pressed while the pane showed the message's own command, and waited for every Enter its ledger accounts for, of messages that stay active and unread. Between the clock readings the two were decided by: at least 60 s after a sent one of the same message, at least min(60 s * 2^(j-1), 30 min) after the j-th unconfirmed one since the last send failure, as long for siblings with the same pointer and worker. Between the Enters: as long, less the lag of the earlier behind its reading and more the lag of the later. |
| MailRuns.NothingForgotten | scripts/cursor-unsent-composer-submit.ts:1872-2200 | With no tick ending unsaved after an Enter, the ledger accounts for every Enter, and did when any later one was decided. |
| MailRuns.WaitByLags | scripts/cursor-unsent-composer-submit.ts:1872-2073 | For any two lags, the first at most a minute, a run presses twice with just the first minute, less the one and more the other, in between; the full minute is kept there exactly if the earlier lag is no larger. |
| MailRuns.AbortForgets | scripts/cursor-unsent-composer-submit.ts:2196-2200 | After a tick that ended unsaved the message it had Entered is Entered again 1 ms later; after a save the same attempt backs off. |
| Composer.ComposerInterior | scripts/cursor-unsent-composer-submit.ts:77-88 | The loop finds the lines between the last top edge and the first bottom edge after it. |
| ComposerLines.EdgeExactly | scripts/cursor-unsent-composer-submit.ts:36-37 | A line is an edge exactly if it is eight or more edge characters between white space. |
| ComposerLines.HintExactly | scripts/cursor-unsent-composer-submit.ts:27-27 | The hint line is `ctrl+c to stop` in any case, with no word going on behind it. |
| PointerRoundTrip.PrintedIsAccepted | scripts/cursor-unsent-composer-submit.ts:210-237 | The text as printed is recognised, with its own command. |
| PointerGrammar.AcceptedExactly | scripts/cursor-unsent-composer-submit.ts:210-237 | A text is accepted for a command exactly if, prompt arrows taken out, it is a sequence of pointer texts and white space with at least one pointer, each quoting that command; pointer texts are given by their parts, not by a reader. |
| PointerGrammar.GrammarIsRead | scripts/cursor-unsent-composer-submit.ts:224-229 | Every such sequence is read as its commands in order, so no pointer runs into the next. |
| PointerGrammar.ReadIsGrammar | scripts/cursor-unsent-composer-submit.ts:224-229 | And whatever is read is such a sequence. |
| PointerGrammar.OnlyOneCommand | scripts/cursor-unsent-composer-submit.ts:228 | Two pointer texts side by side are accepted exactly if they quote the same command. |
| PointerGrammar.PromptsAreDropped | scripts/cursor-unsent-composer-submit.ts:223-223 | The characters taken out are exactly the arrows that stand before `You have`, with the white space between. |
| PointerRoundTrip.NeverAnother | scripts/cursor-unsent-composer-submit.ts:210-237 | However spaces are dropped from a printed pointer, it is read as its own command or as none: the earlier, space-less join never yields another one. |
| PointerRoundTrip.CommandAtShape | scripts/cursor-unsent-composer-submit.ts:224-226 | Whatever the pattern matches as command is the bare check or the check with one option and one id without spaces. |
| PointerRoundTrip.WrappedPointerReadsBack | scripts/cursor-unsent-composer-submit.ts:210-237 | A boxed pointer with a plain id, broken at any of its spaces, reads back as the printed command exactly if no line after the first starts with the prompt arrow; delivery accepts that command exactly for addressable recipients. |
| PointerRoundTrip.LeadingArrowIsLost | scripts/cursor-unsent-composer-submit.ts:94-108 | Otherwise the break was right before a Run id that starts with the arrow, and the pane reads as the command for the rest of the id, or as none when the arrow was the whole id. |
| PointerRoundTrip.SplitBeforeId | scripts/cursor-unsent-composer-submit.ts:94-108 | Every pointer whose id starts with the arrow has such a break. |
| RawPane.RawTextRefused | scripts/cursor-unsent-composer-submit.ts:221-237 | The reading of all lines of a pane as one text never gives a command when the box ends in a quoted command, even broken in its closing marks: the lower edge would have to be part of another pointer. |
| PointerBreaks.BrokenPointerReads | scripts/cursor-unsent-composer-submit.ts:210-237 | A boxed pointer with a plain id, broken anywhere, inside words too, reads as its own command or as none if no line after the first starts with the prompt arrow. |
| PointerBreaks.NeverAnotherWide | scripts/cursor-unsent-composer-submit.ts:210-237 | Whatever spaces are put into a printed pointer, it is read as its own command or as none. |
| PointerBreaks.ArrowInIdIsLost | scripts/cursor-unsent-composer-submit.ts:94-108 | Broken inside the id right before an arrow, it reads as the command for the id without that arrow. |
| PointerRoundTrip.BoxHasInterior | scripts/cursor-unsent-composer-submit.ts:77-88 | A box with nothing box-like after it is what the interior search finds. |
| Drain.Drainer.LookAt | scripts/cursor-unsent-composer-submit.ts:1787-1848 | One observation of the drain, with at most one Enter. |
| Drain.Drainer.DrainStalePointers | scripts/cursor-unsent-composer-submit.ts:1747-1855 | One drain over the roster equals the specified history step; the returned count is the number of pointers seen to go. |
| Drain.DrainDiscipline | scripts/cursor-unsent-composer-submit.ts:1747-1855 | Over every run of ticks, saved or cut short: a drain Enter follows an observation of that pointer on that worker, by the clock readings 10 s before, with every remembered observation of the worker since finding it at rest; between the pane read and the Enter lie 10 s less the lag of the read and more the lag of the Enter, and at least that; and between two remembered accepted Enters of one pointer on a worker a different one was Entered. |
| Drain.NothingForgotten | scripts/cursor-unsent-composer-submit.ts:1747-1855 | With no tick ending unsaved after a drain Enter, every drain Enter is remembered, in order. |
| Drain.WaitByLags | scripts/cursor-unsent-composer-submit.ts:1747-1855 | For any two lags a run Enters with just that time between read and Enter; up to a lag of 10 s of the read, the full 10 s are kept there exactly if it is no larger than that of the Enter. |
| Drain.CutForgets | scripts/cursor-unsent-composer-submit.ts:1747-1855 | After a tick that ended unsaved the pointer it had Entered is Entered again 1 ms later. |
| Drain.AbandonedExactly | scripts/cursor-unsent-composer-submit.ts:1722-1822 | A pointer counts as at rest exactly when a living Cursor worker shows it, it is the check command for the worker's own terminal or for a Run resolving to it, and every row the mailbox addresses to that recipient is read or has no id. |
| Drain.LookExactly | scripts/cursor-unsent-composer-submit.ts:1787-1848 | What one look remembers: when a pointer at rest was first seen, until it is gone, replaced, Entered before or seen consumed; and every Enter that may have gone out. An Enter comes exactly when the pointer has rested 10 s, was not Entered before, and the composer can be Entered. |
| Drain.TickExactly | scripts/cursor-unsent-composer-submit.ts:1747-1855 | A tick leaves for a worker what its look leaves, if it is a terminal here the tick has not delivered to, and otherwise what was remembered; nothing at rest stays for workers off the roster. |
| Watch.IdentityRoundTrip | scripts/cursor-unsent-composer-submit.ts:275-279 | The worker key of a clean identity gives the identity back. |
| Watch.IdentityExactly | scripts/cursor-unsent-composer-submit.ts:275-279 | An identity is read from its own key, with or without further fields, and from no other; none of its fields is empty. |
| Watch.WatchState.MarkAmbiguous | scripts/cursor-unsent-composer-submit.ts:879-883 | An ambiguous Enter is recorded both as submitted and as ambiguous. |
| Watch.WatchState.Settle | scripts/cursor-unsent-composer-submit.ts:755-899 | One look in watch mode: which Enter it leads to, and what it leaves remembered. |
| Watch.WatchState.HydrateSubmitted | scripts/cursor-unsent-composer-submit.ts:371-390 | Hydration adds the stored rows in order and overrides nothing already known. |
| Watch.WatchState.SaveWatchStore | scripts/cursor-unsent-composer-submit.ts:347-369 | The rows written hold the memory, all of it and nothing else, each worker's submitted pointer first. |
| WatchRuns.HydratedAmbiguous | scripts/cursor-unsent-composer-submit.ts:371-390 | Hydration adds exactly the ambiguous pairs of the stored rows. |
| WatchRuns.HydratedSubmitted | scripts/cursor-unsent-composer-submit.ts:371-390 | A worker not yet known gets the pointer of its first stored row, and only that. |
| WatchRuns.SaveThenHydrate | scripts/cursor-unsent-composer-submit.ts:347-390 | Saving and hydrating from nothing blocks exactly the same (worker, pointer) pairs as before. |
| WatchRuns.NoRepeatedEnter | scripts/cursor-unsent-composer-submit.ts:755-958 | Over any number of looks, saves, re-reads and restarts from a store written after the last look: an ambiguous Enter is never repeated for its worker and pointer; two accepted Enters of a pointer on a worker are separated by an observation not showing it. |
| WatchRuns.EntersFit | scripts/cursor-unsent-composer-submit.ts:755-899 | Over any run with any restarts: a Cursor worker with the liveness seam is Entered only when idle, and accepted only if the re-read succeeded and it was busy after; an OpenCode worker only with a bound control and idle or busy; and every look at a ready worker whose pointer is not blocked Enters it. |
| WatchRuns.BlockedExact | scripts/cursor-unsent-composer-submit.ts:755-899 | What a look blocks: what was marked, the pointer Entered and not refused, and what was submitted and not cleared by an empty composer. |
| WatchRuns.RepeatedOnlyAfterLoss | scripts/cursor-unsent-composer-submit.ts:371-390 | Over any run with restarts at any time: a pair that was Entered is Entered again only after the worker was seen showing something else or after a restart from a store that did not block it; when the first outcome was ambiguous, only after a restart from a store without the pair as ambiguous. |
| WatchRuns.UnsavedRestart | scripts/cursor-unsent-composer-submit.ts:371-390 | Conversely, after a restart an Enter is repeated by the same look exactly if the store does not block it. |
| WatchRuns.RepeatedBeforeSave | scripts/cursor-unsent-composer-submit.ts:922-958 | An ambiguous Enter made before the first save is repeated after a restart. |
| Launcher.Launch.constructor | scripts/flow-manager-long-running-child.ts:2245-2265 | The initial deadline is the startup allowance, capped by the hard deadline. |
| Launcher.Launch.ObserveDeadline | scripts/flow-manager-long-running-child.ts:2266-2270 | Reaching the deadline is recorded once, with the deadline's own instant. |
| Launcher.Launch.IngestStdoutLine | scripts/flow-manager-long-running-child.ts:2272-2307 | One line: receipts and results kept once and flagged when repeated, heartbeats move the deadline, late lines are refused. |
| Launcher.Launch.DrainStdoutBuffer | scripts/flow-manager-long-running-child.ts:2309-2317 | Draining hands over the buffered lines in order and keeps the unterminated tail. |
| Launcher.Launch.OnStdoutChunk | scripts/flow-manager-long-running-child.ts:2379-2384 | A chunk is appended and drained at one instant. |
| Launcher.Launch.OnChildExit | scripts/flow-manager-long-running-child.ts:2385-2392 | Child exit: final drain, and whether it exited before any candidate and before the deadline. |
| Launcher.Launch.OnWatchdogTurn | scripts/flow-manager-long-running-child.ts:2419-2432 | A watchdog turn at or past the deadline expires it. |
| Launcher.Launch.IngestTrailingCandidate | scripts/flow-manager-long-running-child.ts:2318-2326 | An unterminated result counts from the moment its last bytes came. |
| Launcher.Launch.FinalizeCandidate | scripts/flow-manager-long-running-child.ts:1575-1584 | Finalizing drains and reads the unterminated end once more. |
| Launcher.CutUnique | scripts/flow-manager-long-running-child.ts:2309-2317 | There is exactly one way to cut a text into newline-terminated lines and an open end; the drain finds it. |
| Launcher.StreamIsCut | scripts/flow-manager-long-running-child.ts:2309-2384 | However output is chunked: the lines ingested are the newline split of the whole output, and the buffer is its open end without a newline. |
| Launcher.VerdictIgnoresChunking | scripts/flow-manager-long-running-child.ts:2272-2317 | Times aside, first result and duplicate decisions depend on the output alone. |
| Launcher.FinalVerdict | scripts/flow-manager-long-running-child.ts:1575-1584 | After any run: the first result is the first one printed that was not refused as late, unless it was taken from the open end; the run is flagged duplicate if there are two such results, or if the first was taken from the open end and one is read after that, as a line or as the open end again. |
| Launcher.BufferTaken | scripts/flow-manager-long-running-child.ts:2318-2326 | The result taken from the open end is what the output ended in then, and it stays the first one. |
| Launcher.DuplicateFlagExact | scripts/flow-manager-long-running-child.ts:2272-2326 | After any run the flag tells whether two results were printed, those refused as late left aside, exactly unless the first was taken from the open end and a single one is read after that; nothing is refused in a run that did not expire. |
| Launcher.LoneResultFlagged | scripts/flow-manager-long-running-child.ts:1575-1584 | A single result is flagged without a final newline, and also with one that came after the open end had been taken, there in a run that expired. |
| Launcher.DeadlineBounded | scripts/flow-manager-long-running-child.ts:2272-2307 | The deadline never passes the hard one; a result accepted after n heartbeats came before start + startup allowance + n idle windows. |
| Launcher.DeadlineExact | scripts/flow-manager-long-running-child.ts:2272-2307 | The deadline is the startup allowance until a heartbeat counted, and then the idle window from the last one that did, capped by the hard deadline; a heartbeat counts before the first result and before the deadline that stands. |
| Launcher.LiveChildStays | scripts/flow-manager-long-running-child.ts:2266-2307 | A child always heard of in time, by the deadline its last counted heartbeat gave it, expires at no event. |
| Launcher.EndsExactly | scripts/flow-manager-long-running-child.ts:2266-2432 | A launch is taken for expired exactly if some event that asks came at or past the deadline standing then; the child for gone before its result exactly if it exited before the deadline with no result so far. |
| Launcher.FrozenOnceReached | scripts/flow-manager-long-running-child.ts:2266-2326 | Once an event is observed at or past the deadline, the deadline is frozen and no line observed later is accepted. |
| Kernel.EndedStays | scripts/flow-manager-long-running-child.ts:2084-2119 | Over every step of the kernel (spawn with pid reuse, zombie, exit, reap, reboot) an ended process stays ended. |
| Kernel.EndsExactly | scripts/flow-manager-long-running-child.ts:2084-2119 | A running process ends by its own exit, into a zombie or dead state, or by a reboot, and by nothing else. |
| Kernel.PidIsReused | scripts/flow-manager-long-running-child.ts:2099-2119 | After exit and reaping another process can take the pid, only with other start ticks, and the first one stays ended. |
| Kernel.DeadIsSound | scripts/flow-manager-long-running-child.ts:2101-2119 | A `dead` verdict of any read means that the launcher's process has ended. |
| Kernel.VerdictExact | scripts/flow-manager-long-running-child.ts:2101-2119 | With everything readable from the launcher's namespace, the verdict is `dead` exactly if the process has ended. |
| Kernel.ReadsSettle | scripts/flow-manager-long-running-child.ts:2101-2119 | What cannot be read, is empty, or comes from another pid namespace settles nothing; alive is said only of the very process in a state that is neither zombie nor dead. |
| Kernel.MissingWitness | scripts/flow-manager-long-running-child.ts:2101-2107 | When a receipt lacks a witness: a field that is absent or empty, or a pid that is not above 1. |
| OwnerWait.StepKeeps | scripts/flow-manager-long-running-child.ts:622-659 | Every step of any party keeps the invariant, and never changes a filled terminal path. |
| OwnerWait.OneTerminal | scripts/flow-manager-long-running-child.ts:622-659 | In every interleaving of a launcher, any number of waits, kernel steps and foreign writers, the terminal path is created at most once and never changes. |
| OwnerWait.OneReport | scripts/flow-manager-long-running-child.ts:2966-3002 | All waits that report a terminal report the same one, the one at the path. |
| OwnerWait.ReapedOnlyAfterDeath | scripts/flow-manager-long-running-child.ts:2737-2877 | A reaping wait goes past its verdict, and an uncertainty envelope is published, only after the launcher has ended, which then never acts again. |
| OwnerWait.ReaperPublishes | scripts/flow-manager-long-running-child.ts:2737-2877 | From every sound world with the launcher ended and a free path, a polling owner wait with its witnesses can go on to the uncertainty envelope at the path, and is then done with it. |
| OwnerReports.ReaperCanWin | scripts/flow-manager-long-running-child.ts:2737-2877 | From every beginning with a running launcher some run ends with the envelope of an owner wait at the path. |
| OwnerWait.LauncherPublishes | scripts/flow-manager-long-running-child.ts:1661-1698 | A launcher at work brings its envelope to a free path and exits 0 exactly if its result is ok. |
| OwnerReports.ReportsAreAnswers | scripts/flow-manager-long-running-child.ts:2966-3002 | Whatever files and receipts they come to read: checked waits report only complete envelopes of this launch, its receipt, times and invocation; any wait only one of its run and attempt. |
| OwnerReports.WinnerExactly | scripts/flow-manager-long-running-child.ts:2966-3002 | What a wait finds at the path is the winner exactly if it answers it, field by field; to a checked wait anything else there is a rejection. |
| OwnerReports.ConfirmedExactly | scripts/flow-manager-long-running-child.ts:2966-3002 | A winner is confirmed exactly if the receipt read once more is still the same and of the invocation the envelope names. |
| OwnerReports.ReportedExactly | scripts/flow-manager-long-running-child.ts:2966-3002 | A wait that found its answer reports it exactly then, and otherwise ends with nothing. |
| OwnerReports.AnswerIsReported | scripts/flow-manager-long-running-child.ts:2966-3002 | A polling wait reports in two steps what answers it. |
| OwnerReports.EveryWaitEnds | scripts/flow-manager-long-running-child.ts:2737-2877 | Every own step of a wait but a poll that finds nothing brings it nearer to its end, at most 13 steps away. |
| OwnerReports.FreePathLook | scripts/flow-manager-long-running-child.ts:2737-2877 | A reaping wait goes on at a free path only with Task, dispatch and invocation in its receipt, lawful ownership before the verdict and before the fence, and all witnesses; once fenced it creates. |
| OwnerReports.TakenPathLook | scripts/flow-manager-long-running-child.ts:2737-2877 | At a taken path it reports what answers it and otherwise ends with nothing, the look behind the fence excepted. |
| OwnerReports.ReceiptStillOwn | scripts/flow-manager-long-running-child.ts:2737-2877 | It leaves polling, and composes its envelope, exactly if the receipt is still the one it started from. |
| OwnerReports.WritesExactly | scripts/flow-manager-long-running-child.ts:622-659 | The path is written at most once, by a publication of the launcher, the create of a wait, or a foreign file, with just that content and author. |
| OwnerWait.ReaperEnvelopeAccepted | scripts/flow-manager-long-running-child.ts:2966-3002 | What a reaping wait published passes the winner validation of every wait on the same locator and receipt at any later time. |
| OwnerWait.NoSuccessOverIncident | scripts/flow-manager-long-running-child.ts:1661-1698 | A launcher with an ok result exits 0 exactly if what occupies the path is not an incident of its own launch; without one, or cut short by a signal or an exception at any point, it exits 0 only over a success. |
| OwnerReports.LauncherDecides | scripts/flow-manager-long-running-child.ts:1661-1698 | How each act of a launcher leads to its exit code, with the path free or taken, ok or cut short. |
| OwnerReports.LauncherLeavesItsOwn | scripts/flow-manager-long-running-child.ts:1380-1420 | Over any run a path the launcher filled holds a success or an incident of its own run and attempt, and the launcher leaves with 0 exactly if it is a success. |
| JsonScan.JsonObjectAt | scripts/executor-profile-policy.ts:346-378 | The scanner parses the slice that ends where depth first returns to 0, and nothing if it never does. |
| JsonScan.ValueNeutral | scripts/executor-profile-policy.ts:346-378 | Scanning any well-formed JSON value inside an object returns to the state it started in without closing. |
| JsonScan.ObjectIsTheSlice | scripts/executor-profile-policy.ts:346-378 | For every well-formed object text (sections 4 to 7 of RFC 8259) at any offset and before any suffix, the slice found is that object. |
| PermissionRuleset.ConfigPermissionFromRuleset | scripts/executor-profile-policy.ts:595-617 | The loop builds, for each permission and pattern, what the list gave it last, and nothing else, for names other than `__proto__`. |
| PermissionRuleset.ConfigMeaning | scripts/executor-profile-policy.ts:595-617 | A rule is in the object exactly if it is the last one given for its permission and pattern. |
| PermissionRuleset.OrderKeptExactly | scripts/executor-profile-policy.ts:595-617 | The object lists the rules in the order given exactly if no key came twice and no permission in two separate places. |
| PermissionRuleset.RulesReadBack | scripts/executor-profile-policy.ts:595-617 | An object written out as rules is read back with the same rules in the same order. |
| PermissionRuleset.LastRuleMovesForward | scripts/executor-profile-policy.ts:595-710 | A repeated rule loses its last place: the converted object puts it before a deny it used to follow, unlike the canonical list. |
| PermissionRuleset.NamedInOrder | scripts/executor-profile-policy.ts:595-617 | Permissions stand in the order in which the list first named them. |
| PermissionRuleset.ListOverlayTerminal | scripts/executor-profile-policy.ts:595-734 | The overlay over a converted list passes the terminal check exactly if the list does not name a protected permission before its first `*` while last giving some `*` pattern something other than deny, whose joined key no permission named after the first `*` repeats. |
| DenyOverlay.OverlaidShape | scripts/executor-profile-policy.ts:660-686 | The overlay keeps every inherited key at its place, changes only protected ones and appends the missing ones. |
| DenyOverlay.DenyAllShape | scripts/executor-profile-policy.ts:660-686 | Denying leaves the denied patterns last in a table, all of them denies, the rest as inherited. |
| DenyOverlay.OverlayTerminal | scripts/executor-profile-policy.ts:660-734 | For any table of denied rows and any inherited object: the overlay passes the terminal check exactly if no inherited `*` after an inherited protected key has a non-deny entry whose joined key no later rule repeats. |
| DenyOverlay.UnambiguousClash | scripts/executor-profile-policy.ts:688-710 | Without a name that starts with `*` and U+0000 that is any non-deny entry. |
| DenyOverlay.HiddenClash | scripts/executor-profile-policy.ts:688-734 | With one, the check can pass over an allow under `*` after a protected key. |
| DenyOverlay.FleetOverlayTerminal | scripts/executor-profile-policy.ts:660-734 | The same for the fleet's own rows and patterns. |
| LaunchParts.TerminalExactly | scripts/executor-profile-policy.ts:712-734 | Rules end in a deny exactly if the last one for the permission and pattern is a deny, and every later one that applies is. |
| LaunchParts.ArgumentsExactly | scripts/executor-profile-policy.ts:672-672 | Every denied executable pattern stands there twice, alone and before any arguments, in order. |
| ShellQuote.UnescapedExact | scripts/executor-profile-policy.ts:240-242 | The quoted-body recogniser accepts exactly what quoting produces and tells what was quoted. |
| ShellQuote.QuotedToken | scripts/executor-profile-policy.ts:240-242 | A plain prefix and a quoted value are read by the shell as one word with exactly that value. |
| ShellQuote.SpacedReads | scripts/executor-profile-policy.ts:240-242 | Tokens separated by spaces are read back word for word. |
| LaunchAdmission.OpenCodeControlPort | scripts/executor-profile-policy.ts:749-753 | The hash loop gives a port from 10000 to 59999 determined by the name. |
| LaunchParts.PortExactly | scripts/executor-profile-policy.ts:749-753 | The port is 10000 plus, modulo 50000, the number whose digits to base 31 are the name's characters, kept to 32 bits. |
| LaunchParts.DigitsExactly | scripts/executor-profile-policy.ts:774-774 | It is written as its decimal digits without a leading zero: read as decimal they give it back. |
| LaunchParts.ExecutableExactly | scripts/executor-profile-policy.ts:215-219 | An executable is an absolute path to a file `opencode` through directories of plain names. |
| LaunchParts.SessionExactly | scripts/executor-profile-policy.ts:526-527 | A session id is `ses_` and 6 to 128 letters, digits, underscores or hyphens. |
| LaunchAdmission.BuiltIsAdmitted | scripts/executor-profile-policy.ts:755-819 | A built command in which nothing spells the assignment again is admitted. |
| LaunchAdmission.AdmittedIsBuilt | scripts/executor-profile-policy.ts:787-805 | An admitted command is one that building writes, for the checked configuration, agent and executable. |
| LaunchAdmission.AdmittedExactlyBuilt | scripts/executor-profile-policy.ts:755-805 | The text check admits a command exactly if it is the command of some such launch. |
| LaunchAdmission.CommandReadsBack | scripts/executor-profile-policy.ts:755-777 | The shell splits a built command into exactly the words it was built from (section 2.2 of the POSIX.1-2017 Shell Command Language). |
| LaunchAdmission.AdmittedReadsBack | scripts/executor-profile-policy.ts:787-819 | Splitting any admitted command gives back exactly the checked configuration text as the value of the assignment. |
| LaunchAdmission.OverlayAdmission | scripts/executor-profile-policy.ts:755-819 | A built overlay command passes the whole launch check exactly if no root and no agent name spells the assignment and the inherited permissions do not clash, or the agent has one of the two names the overlay fills in itself. |
| ManagedBlock.CountLiteral | scripts/bootstrap.ts:45-56 | The search loop counts all occurrences of a marker. |
| ManagedBlock.AgentsFile.WriteBytes | scripts/bootstrap.ts:75-90 | The write loop writes a prefix of the data, and all of it exactly when it succeeds. |
| ManagedBlock.AgentsFile.Adopt | scripts/bootstrap.ts:164-210 | Adoption decides as `Adopted`, touches the file only when accepted and leaves the adopted bytes. |
| ManagedBlock.AcceptedExactly | scripts/bootstrap.ts:157-210 | Accepted exactly: a marker-free source over no file, a marker-free file, or a file with one well-formed interval. |
| ManagedBlock.RefusedExactly | scripts/bootstrap.ts:157-200 | Which refusal is given, by the markers in the source and how many of each the target has. |
| ManagedBlock.StartsOnOwnLine | scripts/bootstrap.ts:186-188 | An appended block starts on a line of its own, with a newline put before it exactly if there is none. |
| ManagedBlock.EndsOnOwnLine | scripts/bootstrap.ts:58-61 | What stands before the end marker is the source, ended by a newline, added exactly if there is none. |
| ManagedBlock.AdoptedForm | scripts/bootstrap.ts:180-206 | What is written is the new interior between the same surroundings, every byte of them kept. |
| ManagedBlock.OneBlock | scripts/bootstrap.ts:63-73 | The result has exactly one start and one end marker. |
| ManagedBlock.LastWriterWins | scripts/bootstrap.ts:168-210 | adopt(S2, adopt(S1, t)) = adopt(S2, t) for every accepted t. |
| ManagedBlock.AdoptIdempotent | scripts/bootstrap.ts:168-210 | Adopting the same source again changes nothing. |
| ImportClosure.StaticDependencyClosure | scripts/merge-adoption-effect.ts:148-168 | The worklist terminates and returns the least set with the entrypoints, closed under resolved imports and holding package.json when a member uses a `#` import. |
| ImportClosure.ScanSource | scripts/merge-adoption-effect.ts:157-165 | Scanning one source marks package.json at once and queues every resolved import not yet visited. |
| ImportClosure.ImportsExactly | scripts/merge-adoption-effect.ts:155-165 | A file with one of five endings imports what its nonempty specifiers resolve to, and asks for package.json by one that begins with `#`. |
| ImportClosure.ClosureIsReachedPlusPackage | scripts/merge-adoption-effect.ts:160-161 | Marking package.json early loses no file: the result is what imports alone reach, plus package.json when a reached source uses `#`. |
| AdoptionEffect.Survey | scripts/merge-adoption-effect.ts:551-569 | The first pass observes both project-bound kinds up front and turns every member of a shared identity into unknown. |
| AdoptionEffect.JudgeAll | scripts/merge-adoption-effect.ts:570-637 | The second pass gives each consumer the row it deserves by itself and records the restarts called. |
| AdoptionEffect.RestartedExactly | scripts/merge-adoption-effect.ts:551-637 | A consumer is restarted exactly if restarting is asked for, its controller can, and its one instance, shared with no other of its kind, runs since before the instant it is measured by. |
| AdoptionEffect.OwnVerifiedExactly | scripts/merge-adoption-effect.ts:570-637 | A row holds by itself exactly if its instance does not run on, or is known and runs since the instant, or was restarted and read back running since, as another process. |
| AdoptionEffect.ActionExactly | scripts/merge-adoption-effect.ts:570-637 | What each row says was done, and that it is judged from the first observation unless that was shared. |
| AdoptionEffect.CompareAll | scripts/merge-adoption-effect.ts:638-657 | The third pass unverifies exactly the rows that end up sharing a process identity. |
| AdoptionEffect.VerifyAdoptionEffect | scripts/merge-adoption-effect.ts:547-684 | The effect is verified exactly if the live check passes and every row holds by itself and aliases no other. |
| AdoptionEffect.VerifiedIsFresh | scripts/merge-adoption-effect.ts:570-637 | A verified running consumer started strictly after its cutoff, with an identity when project-bound. |
| AdoptionEffect.VerifiedAreDistinct | scripts/merge-adoption-effect.ts:638-657 | Two verified running rows of one project-bound kind never share a process identity. |
| AdoptionEffect.RestartNeverShared | scripts/merge-adoption-effect.ts:551-569 | A restart is called only on an instance whose first identity no other of its kind had. |
| AdoptionEffect.RestartIsAnother | scripts/merge-adoption-effect.ts:606-637 | A verified restart of a project-bound consumer runs as another process than the stale one. |
| DuplicateIndex.Blocks | scripts/lint-self-architect.ts:166-175 | All blocks of the size that are not wholly blank, in order, each with its text and lines. |
| DuplicateIndex.AddFile | scripts/lint-self-architect.ts:216-234 | A file's blocks are added everywhere when seeding and only to known texts otherwise. |
| DuplicateIndex.BuildIndex | scripts/lint-self-architect.ts:216-234 | After both passes the index has an entry for each text of the seeds, with its places in all files. |
| DuplicateIndex.NovelAtPath | scripts/lint-self-architect.ts:241-256 | Novelty at a path, through the cache of base blocks, is absence of the text from the file's base version under its old name. |
| DuplicateIndex.UnindexedIsUnreported | scripts/lint-self-architect.ts:216-270 | A text the seeded index does not know would not be reported by a plain index over all files either. |
| DuplicateIndex.EntryIsAllPlaces | scripts/lint-self-architect.ts:216-234 | An entry lists every place of its text in any file, each once. |
| DuplicateIndex.DuplicateFindings | scripts/lint-self-architect.ts:207-273 | The seeded index reports exactly the texts a plain index over all files would, filtered by groups, suppressions, introduced paths and novelty, each with all its places. |
| DuplicateMeaning.ReportedExactly | scripts/lint-self-architect.ts:207-273 | A text is to be reported exactly if it is consecutive lines, not all blank, of two files, no suppression names just the files that have it, and, once any file counts as introduced, an introduced one has it that did not before, under its old path. |
| Glob.GlobToRegExp | scripts/merge-triage-evidence.ts:118-141 | The one-pass loop prints a pattern which, read by the ECMAScript pattern grammar, accepts exactly what the recursive glob reading matches without crossing line terminators. |
| Glob.BodyReads | scripts/merge-triage-evidence.ts:118-141 | The printed text is always a well-formed pattern, and literals stay literals in it. |
| Glob.GlobMeaning | scripts/merge-triage-evidence.ts:118-141 | The expression read back accepts a path exactly if the recursive reading matches it. |
| Glob.CompilerKeepsMeaning | scripts/merge-triage-evidence.ts:118-146 | On paths of one line the compiled pattern accepts exactly what the glob means. |
| Glob.NeverTooMuch | scripts/merge-triage-evidence.ts:118-146 | A compiled glob never accepts a path its glob does not match. |
| Glob.DoubleStarIsOneLine | scripts/merge-triage-evidence.ts:118-146 | With line terminators the meaning is not kept: a lone double star matches every path but is accepted exactly on those of one line. |
| TriageEvidence.RecordMeaning | scripts/merge-triage-evidence.ts:217-259 | The matched paths of a record are exactly the changed paths some pattern hits, and it says `intersection` exactly if there is one. |
| TriageEvidence.NoIntersection | scripts/merge-triage-evidence.ts:240-255 | `no_intersection` means that no changed path matches any pattern. |
| TriageEvidence.BuiltExactly | scripts/merge-triage-evidence.ts:217-259 | A record is built exactly if every name passes the first normalization, every changed path the second, and every pattern that does not comes, for each changed path, after one that matches it in sorted order. |
| TriageEvidence.SomeMatchesEnds | scripts/merge-triage-evidence.ts:143-146 | Comparing one path comes to an end exactly if every unsafe pattern has a match in front of it. |
| TriageEvidence.SecondPass | scripts/merge-triage-evidence.ts:97-103 | The second normalization refuses a name the first one took exactly when what is left, trimmed, is empty, absolute or climbs out. |
| TriageEvidence.TakenThenRefused | scripts/merge-triage-evidence.ts:97-146 | `.//a` is taken by the first normalization and makes the comparison fail. |
| Snapshot.ValidateInspectionSnapshot | scripts/browser-gpt-page-probe.ts:808-857 | The loop accepts exactly the snapshots whose counts and nodes are valid, in document order, with each role's ordinals consecutive. |
| Snapshot.NodeExactly | scripts/browser-gpt-page-probe.ts:466-502 | When a message is taken: counts in range, below what was observed of its role, its author of that role, and an id that is plain, unique and shown by its attribute, up to 160 characters, or none. |
| Snapshot.CountsExactly | scripts/browser-gpt-page-probe.ts:825-842 | When the counts of a page hold: they add up, and the list is whole, or holds 100 messages and leaves some out. |
| Snapshot.RoleWindow | scripts/browser-gpt-page-probe.ts:466-482 | The ordinals listed for a role form one window within what was observed. |
| Snapshot.ListsEveryMessageOnce | scripts/browser-gpt-page-probe.ts:837-857 | An accepted snapshot that was not cut lists each role's messages as exactly 0, 1, ..., n-1. |
| Snapshot.CompleteIsAccepted | scripts/browser-gpt-page-probe.ts:837-857 | Conversely, valid nodes in document order are accepted exactly if each role's ordinals are exactly 0, 1, ..., n-1. |
| Snapshot.CutLeavesOutTheRest | scripts/browser-gpt-page-probe.ts:837-857 | A cut snapshot lists one unbroken stretch per role and leaves out exactly the messages over the limit. |
| Snapshot.NoMessageTwice | scripts/browser-gpt-page-probe.ts:846-857 | No accepted snapshot lists a message twice; later nodes of a role have larger ordinals. |

## Left out

- OpenCode HTTP delivery (`scripts/cursor-unsent-composer-submit.ts:1321-1427`): a second delivery state machine with its own evidence; only the Cursor branch is modelled.
- Delivery without a liveness seam: the older test-only callers; production always has one. Watch mode is modelled with and without it.
- Choice of a tick's rows: selection by age, caps, the time budget, settled and unresolved targets, and inbox parsing; a tick's rows and what it knows to be active are inputs.
- Lookup of a single submission and its mailbox reading: whether the mailbox has an unread row for a message is an input of a release.
- First-seen time, origin and process fields of an episode: recorded for diagnostics, read by no decision.
- Reconcile state and watch observations on disk: the ledger file's format and the last-observation rows; the watch store's rows are modelled.
- Unboxed and OpenCode composer readings: parameters of the pointer reader; the round trip is proved for boxed composers, whose readings come first.
- Drain.DrainDiscipline: mail recipients are compared as one tick resolves them; Run resolution is an input per tick.
- Signals and cleanup grace in the launcher: process management; the terminal outcomes they lead to are steps of the launcher in `OwnerWait`.
- Launcher lines: a line is taken to parse as at most one of heartbeat, cancellation receipt and turn result, which their schemas give.
- Start-failure envelope: it names no invocation, so waits selected by index refuse it; acceptance is stated for reaper envelopes only.
- Delivery states of a turn result, GitHub effect and page evidence: contents of an envelope; arbitrary in the race.
- Reading the terminal path: testing for the file and reading it are one step, since what is there is complete and never changes; other files of the protocol are inputs.
- Waits on another host: the kernel is that of the host the launcher ran on; a wait elsewhere that shares the files reads another boot id and takes the launcher for dead.
- Owner authority and the assignment fence: whether a look is lawful is an input at every step.
- OpenCode variant catalog and resolved-agent parsing: catalogue bookkeeping around the scanner that is modelled.
- Property order of integer-like names: a permission or pattern spelled like an array index would move to the front of an object; the models take objects in insertion order.
- The name `__proto__`: a rule for the permission `__proto__` writes its pattern into the prototype that all objects share, and the pattern `__proto__` is lost when its permission already has a table (`scripts/executor-profile-policy.ts:605-609`); the models take the two like any other name.
- JSON text and SHA-256: JSON encoding is an inverse pair, digests are opaque.
- Target path checks of AGENTS.md adoption: symbolic links, identity with the source and permissions of the target; the byte part is modelled.
- Mapping of changed paths to consumers, and the process controllers: registry and `/proc` reading; observations, restarts and read-backs are inputs.
- Order of findings and of their locations in the duplicate report: the sort by locale is not modelled, the contents are exact.
- Path normalization in the duplicate report: paths and suppression entries are taken as already normalized; case folding is an input.
- Paired-edit and similarity heuristics of the lint: independent of the duplicate index.
- Code units beyond the basic plane: text is a sequence of characters; where the code works on UTF-16 halves (a `?` in a glob, a length limit) such characters count as one here.
- Text summaries and attribute allow-list of page nodes: hashes and lengths; one flag per node stands for them.
- Harvest windows, readiness polling and exclusive export of the page probe: I/O loops around the snapshot.
- `scripts/chatgpt-browser-turn.ts`: its send, lock and incident semantics live elsewhere.
- Freedom from starvation over capped ticks: not promised by the code.
