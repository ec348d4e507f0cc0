/**
 Delivery of orchestration mail to a Cursor composer. A ledger of per-message episodes decides
 when Enter may be pressed. `Delivered` and its parts specify one delivery as a function of the ledger and
 of what the pane shows; `Reconciler` is the ledger object the script updates in place.
 */
module Delivery {
  import opened Basics
  import opened Mail

  const WINDOW := 60_000
  const MAX_BACKOFF := 30 * 60_000
  const ABSENT_BACKOFF := 5_000

  datatype Phase = Claimed | PointerVisible | Confirmed | Refused

  datatype Reason =
    | AlreadyConsumed | IdentityIncomplete | AlreadyClaimed | FamilyUnbound | PaneUnreadable
    | TargetMismatch | WorkerGone | AlreadyDelivered | Backoff
    | PreviewUnrecognized | PointerAbsent | NotPointer
    | PointerConsumed | EnterSent | SubmissionUnconfirmed | SendFailure

  datatype Episode = Episode(
    messageId: string, runId: string, recipient: string, workerKey: string, stableKey: Option<string>,
    nextEligibleAt: int, backoffMs: Option<int>, phase: Phase, reason: Option<Reason>)

  type Ledger = map<string, Episode>

  datatype Family = Unbound | Cursor
  datatype Liveness = Idle | Busy | Gone | Unknown
  datatype Dispatch = Dispatched | SendFailed | DispatchUnknown

  /** One read of the pane: what the composer classifiers make of it. */
  datatype Screen = Unreadable | Shown(empty: bool, pointer: Option<string>, recognized: bool)

  /** Everything one delivery may observe of the worker, in the order it asks. */
  datatype Pane = Pane(
    family: Family, first: Screen, afterGrace: Screen, liveness: Liveness,
    familyAtEnter: Family, livenessAtEnter: Liveness, dispatch: Dispatch, afterEnter: Screen)

  /** What became of one Enter. */
  datatype Outcome = Failed | Unconfirmed | Consumed

  datatype Report = Report(reason: Reason, press: Option<Outcome>)

  datatype Result = Result(ledger: Ledger, report: Report)

  predicate IdentityComplete(w: Worker) {
    w.runtime != "" && Trim(w.id) != "" && Trim(w.generation) != ""
  }

  function StableKeyOr(w: Worker, other: Option<string>): Option<string> {
    if w.stableKey.Some? && Trim(w.stableKey.value) != "" then Some(Trim(w.stableKey.value)) else other
  }

  ghost function LegacyKeys(eps: Ledger, key: string, id: string): set<string> {
    set k | k in eps && k != key && eps[k].messageId == id
  }

  /** The ledger after a claim recorded under an older key has been moved to the message's own key. */
  ghost function Lift(eps: Ledger, m: Message, w: Worker): Ledger {
    var key := EpisodeKey(m, w);
    if key in eps || LegacyKeys(eps, key, m.id) == {} then
      eps
    else
      var k :| k in LegacyKeys(eps, key, m.id);
      (eps - {k})[key := eps[k].(workerKey := WorkerKey(w), stableKey := StableKeyOr(w, eps[k].stableKey))]
  }

  function Lookup(eps: Ledger, key: string): Option<Episode> {
    if key in eps then Some(eps[key]) else None
  }

  /** Another episode of this worker holds the same pointer and is not yet due. */
  predicate PendingPointerClaim(eps: Ledger, m: Message, w: Worker, now: int, key: string) {
    exists k :: k in eps && PendingAt(eps, m, w, now, key, k)
  }

  predicate PendingAt(eps: Ledger, m: Message, w: Worker, now: int, key: string, k: string)
    requires k in eps
  {
    && k != key
    && eps[k].phase == PointerVisible
    && eps[k].workerKey == WorkerKey(w)
    && now < eps[k].nextEligibleAt
    && BuildDeliveryPointer(Message(eps[k].messageId, eps[k].runId, eps[k].recipient, false)) == BuildDeliveryPointer(m)
  }

  function Prior(e: Option<Episode>): int {
    if e.Some? then e.value.backoffMs.GetOr(WINDOW) else WINDOW
  }

  function Doubled(backoff: int): int {
    Min(backoff * 2, MAX_BACKOFF)
  }

  function Fresh(m: Message, w: Worker, now: int): Episode {
    Episode(m.id, m.runId, m.recipient, WorkerKey(w), StableKeyOr(w, None),
            now + WINDOW, Some(Doubled(WINDOW)), PointerVisible, None)
  }

  /** The Enter itself: skipped for a worker that is gone, confirmed only by the pointer disappearing. */
  function Settled(pane: Pane, pointer: string): Report {
    if pane.familyAtEnter == Unbound then Report(FamilyUnbound, None)
    else if pane.livenessAtEnter == Gone then Report(WorkerGone, None)
    else if pane.dispatch == SendFailed then Report(SendFailure, Some(Failed))
    else if pane.afterEnter.Shown? && pane.afterEnter.pointer != Some(pointer) then Report(EnterSent, Some(Consumed))
    else Report(SubmissionUnconfirmed, Some(Unconfirmed))
  }

  /** Enter goes out only to a bound family and a worker that is not gone; only the pointer's absence confirms it. */
  method SettleComposer(pane: Pane, pointer: string) returns (report: Report)
    ensures report.press.None? <==> pane.familyAtEnter == Unbound || pane.livenessAtEnter == Gone
    ensures report.press.Some? ==> (report.press == Some(Failed) <==> pane.dispatch == SendFailed)
    ensures report.press.Some? ==>
              (report.press == Some(Consumed) <==>
               pane.dispatch != SendFailed && pane.afterEnter.Shown? && pane.afterEnter.pointer != Some(pointer))
    ensures report == Settled(pane, pointer)
  {
    if pane.familyAtEnter == Unbound {
      return Report(FamilyUnbound, None);
    }
    if pane.livenessAtEnter == Gone {
      return Report(WorkerGone, None);
    }
    if pane.dispatch == SendFailed {
      return Report(SendFailure, Some(Failed));
    }
    var consumed := pane.afterEnter.Shown? && pane.afterEnter.pointer != Some(pointer);
    if !consumed {
      return Report(SubmissionUnconfirmed, Some(Unconfirmed));
    }
    return Report(EnterSent, Some(Consumed));
  }

  /** One Enter for a shown pointer, and what its outcome does to the claim. */
  function Press(eps: Ledger, m: Message, w: Worker, now: int, pane: Pane, pointer: string): Result {
    var key := EpisodeKey(m, w);
    var prior := Prior(Lookup(eps, key));
    var claim := if key in eps then eps[key] else Fresh(m, w, now);
    var claimed := eps[key := claim];
    var report := Settled(pane, pointer);
    match report.press
    case None =>
      Result(claimed, report)
    case Some(Failed) =>
      Result(claimed[key := claim.(backoffMs := None, phase := PointerVisible, nextEligibleAt := now)], report)
    case Some(Consumed) =>
      Result(claimed[key := claim.(reason := Some(EnterSent), phase := Confirmed, nextEligibleAt := now + WINDOW)], report)
    case Some(Unconfirmed) =>
      Result(claimed[key := claim.(phase := PointerVisible, nextEligibleAt := now + prior, backoffMs := Some(Doubled(prior)))],
             report)
  }

  /** No pointer is shown: refuse, wait, or take its absence after a claim as the consumption witness. */
  function Absent(eps: Ledger, m: Message, w: Worker, now: int, pane: Pane, screen: Screen): Result
    requires screen.Shown?
  {
    var key := EpisodeKey(m, w);
    var existing := Lookup(eps, key);
    if existing.None? || existing.value.phase != PointerVisible then
      var absent := screen.empty && screen.recognized;
      var reason := if !screen.recognized then PreviewUnrecognized else if absent then PointerAbsent else NotPointer;
      var next := Doubled(Prior(existing));
      Result(eps[key := Fresh(m, w, now).(
                   reason := Some(reason), phase := Refused,
                   nextEligibleAt := if absent then now + ABSENT_BACKOFF else now + next,
                   backoffMs := if absent then None else Some(next))],
             Report(reason, None))
    else if !screen.empty then
      Result(eps, Report(NotPointer, None))
    else if pane.liveness == Gone then
      Result(eps, Report(WorkerGone, None))
    else
      Result(eps[key := existing.value.(reason := Some(PointerConsumed), phase := Confirmed, nextEligibleAt := now + WINDOW)],
             Report(PointerConsumed, None))
  }

  /** A confirmed episode whose pointer is on screen again once its window has passed. */
  predicate Contradicted(eps: Ledger, key: string, now: int, screen: Screen) {
    key in eps && eps[key].phase == Confirmed && screen.Shown? && screen.pointer.Some? && eps[key].nextEligibleAt <= now
  }

  function SettledScreen(pane: Pane): Screen {
    if pane.first.Shown? && pane.first.empty then pane.afterGrace else pane.first
  }

  function Observe(eps: Ledger, m: Message, w: Worker, now: int, pane: Pane): Result {
    var key := EpisodeKey(m, w);
    var screen := SettledScreen(pane);
    if screen.Unreadable? then
      Result(eps, Report(PaneUnreadable, None))
    else if screen.pointer.Some? && !PointerMatchesDelivery(screen.pointer.value, m, w) then
      Result(eps, Report(TargetMismatch, None))
    else if Contradicted(eps, key, now, screen) then
      if pane.liveness == Gone then
        Result(eps, Report(WorkerGone, None))
      else
        Press(eps[key := eps[key].(phase := PointerVisible, nextEligibleAt := now)], m, w, now, pane, screen.pointer.value)
    else if key in eps && eps[key].phase == Confirmed then
      Result(eps, Report(AlreadyDelivered, None))
    else if key in eps && now < eps[key].nextEligibleAt then
      Result(eps, Report(Backoff, None))
    else if screen.pointer.None? then
      Absent(eps, m, w, now, pane, screen)
    else
      Press(eps, m, w, now, pane, screen.pointer.value)
  }

  /** The ledger without a refusal that is due again or a claim whose process never finished. */
  function Released(eps: Ledger, key: string): Ledger {
    if key in eps && (eps[key].phase == Refused || eps[key].phase == Claimed) then eps - {key} else eps
  }

  ghost function Delivered(eps: Ledger, m: Message, w: Worker, now: int, pane: Pane, allowConsumedRetry: bool): Result {
    if m.consumed && !allowConsumedRetry then
      Result(eps, Report(AlreadyConsumed, None))
    else if !IdentityComplete(w) then
      Result(eps, Report(IdentityIncomplete, None))
    else
      var lifted := Lift(eps, m, w);
      var key := EpisodeKey(m, w);
      if key in lifted && lifted[key].phase == Refused && now < lifted[key].nextEligibleAt then
        Result(lifted, Report(lifted[key].reason.GetOr(PointerAbsent), None))
      else
        var base := Released(lifted, key);
        if PendingPointerClaim(base, m, w, now, key) then
          Result(base, Report(AlreadyClaimed, None))
        else if pane.family == Unbound then
          Result(base, Report(FamilyUnbound, None))
        else
          Observe(base, m, w, now, pane)
  }

  /** The message a ledger key names, when it is a per-message key. */
  function KeyMessage(key: string): Option<string> {
    var i := LastNul(key);
    if i < |"\0message"| || key[i - |"\0message"|..i] != "\0message" then None else Some(key[i + 1..])
  }

  function LastNul(s: string): (i: int)
    ensures -1 <= i < |s|
    ensures i >= 0 ==> s[i] == '\0' && NulFree(s[i + 1..])
    ensures i < 0 ==> NulFree(s)
  {
    if s == [] then -1
    else if s[|s| - 1] == '\0' then |s| - 1
    else
      var i := LastNul(s[..|s| - 1]);
      assert i >= 0 ==> s[i + 1..] == s[..|s| - 1][i + 1..] + [s[|s| - 1]];
      i
  }

  lemma KeyNamesMessage(m: Message, w: Worker)
    requires NulFree(m.id)
    ensures KeyMessage(EpisodeKey(m, w)) == Some(m.id)
  {
    var key := EpisodeKey(m, w);
    var head := RecipientEpisodeKey(w) + "\0message";
    var i := LastNul(key);
    assert key[|head|] == '\0';
    assert i >= 0 && key == key[..i] + "\0" + key[i + 1..];
    NulTailUnique(key[..i], key[i + 1..], head, m.id);
    assert head[|head| - |"\0message"|..] == "\0message";
  }

  function Rank(p: Phase): int {
    match p
    case Confirmed => 3
    case PointerVisible => 2
    case _ => 1
  }

  /** The older claim of one unread message moves to its current key unless a stronger one is there. */
  ghost function MigrateOne(eps: Ledger, id: string, key: string): Ledger {
    if LegacyKeys(eps, key, id) == {} then
      eps
    else
      var k :| k in LegacyKeys(eps, key, id);
      (if key !in eps || Rank(eps[k].phase) > Rank(eps[key].phase) then eps[key := eps[k]] else eps) - {k}
  }

  ghost function Migrate(eps: Ledger, unread: seq<(string, string)>): Ledger {
    if unread == [] then eps
    else MigrateOne(Migrate(eps, unread[..|unread| - 1]), unread[|unread| - 1].0, unread[|unread| - 1].1)
  }

  function ConsumedKeys(eps: Ledger, keys: set<string>, active: set<string>): set<string> {
    set k | k in eps && k in keys && eps[k].messageId !in active
  }

  function InactiveKeys(eps: Ledger, active: set<string>): set<string> {
    set k | k in eps && eps[k].messageId !in active
  }

  /**
   What a tick does to the ledger before it delivers anything: with every active row resolved, claims are
   moved to their current keys, and then episodes of consumed messages and those under other keys go;
   otherwise only inactive messages lose theirs.
   */
  ghost function Maintained(
    eps: Ledger, resolved: bool, unread: seq<(string, string)>, keys: set<string>, active: set<string>): Ledger
  {
    if resolved then
      var kept := Migrate(eps, unread) - ConsumedKeys(Migrate(eps, unread), keys, active);
      kept - (kept.Keys - keys)
    else
      eps - InactiveKeys(eps, active)
  }

  /**
   What becomes of the episodes of a message that was found consumed or not retrievable: with no unread row for
   its key left in the mailbox, the one under its key and any other of the message go.
   */
  function MailboxEmptied(eps: Ledger, m: Message, w: Worker, unread: bool): Ledger {
    if unread then eps else eps - OwnKeys(eps, m, w)
  }

  function OwnKeys(eps: Ledger, m: Message, w: Worker): set<string> {
    set k | k in eps && (k == EpisodeKey(m, w) || eps[k].messageId == m.id)
  }

  function PointerLedgerKey(m: Message, w: Worker): string {
    RecipientEpisodeKey(w) + "\0pointer" + "\0" + BuildDeliveryPointer(m)
  }

  /** One row of a reconcile tick: a retrievable message, its resolved worker, and what its pane will show. */
  datatype Row = Row(message: Message, worker: Worker, pane: Pane, allowConsumedRetry: bool)

  datatype Tick = Tick(ledger: Ledger, coalesced: set<string>, reports: seq<Report>)

  /** The report stands for a pointer that was Entered or seen to be consumed. */
  predicate PointerAttempted(r: Report) {
    r.press == Some(Consumed) || r.press == Some(Unconfirmed) || r.reason == PointerConsumed
  }

  ghost function TickRow(t: Tick, row: Row, now: int): Tick {
    var pointerKey := PointerLedgerKey(row.message, row.worker);
    if pointerKey in t.coalesced then
      t.(reports := t.reports + [Report(AlreadyClaimed, None)])
    else
      var r := Delivered(t.ledger, row.message, row.worker, now, row.pane, row.allowConsumedRetry);
      Tick(r.ledger,
           if PointerAttempted(r.report) then t.coalesced + {pointerKey} else t.coalesced,
           t.reports + [r.report])
  }

  ghost function TickRows(eps: Ledger, rows: seq<Row>, now: int): Tick {
    if rows == [] then Tick(eps, {}, []) else TickRow(TickRows(eps, rows[..|rows| - 1], now), rows[|rows| - 1], now)
  }

  /** Within one tick a pointer that was Entered on a recipient is not Entered there again, for any message. */
  lemma {:induction false} OncePerPointerPerTick(eps: Ledger, rows: seq<Row>, now: int)
    ensures var t := TickRows(eps, rows, now);
            && |t.reports| == |rows|
            && (forall i :: 0 <= i < |rows| && PointerAttempted(t.reports[i]) ==>
                              PointerLedgerKey(rows[i].message, rows[i].worker) in t.coalesced)
            && (forall i, j :: 0 <= i < j < |rows| && PointerAttempted(t.reports[i])
                               && PointerLedgerKey(rows[i].message, rows[i].worker) == PointerLedgerKey(rows[j].message, rows[j].worker)
                               ==> t.reports[j] == Report(AlreadyClaimed, None))
  {
    hide PointerLedgerKey, Delivered;
    if rows != [] {
      OncePerPointerPerTick(eps, rows[..|rows| - 1], now);
    }
  }

  /** At most one episode of the message sits under a key other than its own. */
  ghost predicate OneStray(eps: Ledger, key: string, id: string) {
    forall j, k :: j in LegacyKeys(eps, key, id) && k in LegacyKeys(eps, key, id) ==> j == k
  }

  /** No message owns two episodes, and a per-message key holds that message's episode. */
  ghost predicate WellKeyed(eps: Ledger) {
    && (forall j, k :: j in eps && k in eps && eps[j].messageId == eps[k].messageId ==> j == k)
    && (forall k :: k in eps && KeyMessage(k).Some? ==> eps[k].messageId == KeyMessage(k).value)
  }

  /** The reconcile ledger as the script keeps it: one object, updated in place. */
  class Reconciler {
    var episodes: map<string, Episode>

    ghost predicate Valid()
      reads this
    {
      WellKeyed(episodes)
    }

    constructor ()
      ensures Valid() && episodes == map[]
    {
      episodes := map[];
    }

    /** Moves a claim kept under another key for the same message to the message's own key. */
    method LiftLegacy(m: Message, w: Worker)
      requires Valid()
      modifies this
      ensures episodes == old(Lift(episodes, m, w))
    {
      var key := EpisodeKey(m, w);
      if key in episodes {
        return;
      }
      if k :| k in episodes && k != key && episodes[k].messageId == m.id {
        assert LegacyKeys(episodes, key, m.id) == {k};
        var row := episodes[k].(workerKey := WorkerKey(w), stableKey := StableKeyOr(w, episodes[k].stableKey));
        episodes := episodes - {k};
        episodes := episodes[key := row];
      } else {
        assert LegacyKeys(episodes, key, m.id) == {};
      }
    }

    /** One delivery of one message to one worker's composer. */
    method Deliver(m: Message, w: Worker, now: int, pane: Pane, allowConsumedRetry: bool) returns (report: Report)
      requires Valid() && NulFree(m.id)
      modifies this
      ensures Result(episodes, report) == old(Delivered(episodes, m, w, now, pane, allowConsumedRetry))
      ensures Valid()
    {
      hide EpisodeKey, WellKeyed, WorkerKey, StableKeyOr, BuildDeliveryPointer, Observe;
      DeliveredWellKeyed(episodes, m, w, now, pane, allowConsumedRetry);
      if m.consumed && !allowConsumedRetry {
        return Report(AlreadyConsumed, None);
      }
      if !IdentityComplete(w) {
        return Report(IdentityIncomplete, None);
      }
      var key := EpisodeKey(m, w);
      LiftLegacy(m, w);
      var existing := Lookup(episodes, key);
      if existing.Some? && existing.value.phase == Refused {
        if now < existing.value.nextEligibleAt {
          return Report(existing.value.reason.GetOr(PointerAbsent), None);
        }
        episodes := episodes - {key};
        existing := None;
      }
      if existing.Some? && existing.value.phase == Claimed {
        episodes := episodes - {key};
        existing := None;
      }
      if PendingPointerClaim(episodes, m, w, now, key) {
        return Report(AlreadyClaimed, None);
      }
      if pane.family == Unbound {
        return Report(FamilyUnbound, None);
      }
      report := ObservePane(m, w, now, pane);
    }

    /** Reads the pane and settles the claim that stands for the message, if any. */
    method ObservePane(m: Message, w: Worker, now: int, pane: Pane) returns (report: Report)
      requires EpisodeKey(m, w) in episodes ==> episodes[EpisodeKey(m, w)].phase in {PointerVisible, Confirmed}
      modifies this
      ensures Result(episodes, report) == old(Observe(episodes, m, w, now, pane))
    {
      hide EpisodeKey, PointerMatchesDelivery, WorkerKey, StableKeyOr;
      var key := EpisodeKey(m, w);
      var existing := Lookup(episodes, key);
      var screen := pane.first;
      if screen.Shown? && screen.empty {
        screen := pane.afterGrace;
      }
      if screen.Unreadable? {
        return Report(PaneUnreadable, None);
      }
      if screen.pointer.Some? && !PointerMatchesDelivery(screen.pointer.value, m, w) {
        return Report(TargetMismatch, None);
      }
      if existing.Some? && existing.value.phase == Confirmed {
        if screen.pointer.None? || now < existing.value.nextEligibleAt {
          return Report(AlreadyDelivered, None);
        }
        if pane.liveness == Gone {
          return Report(WorkerGone, None);
        }
        existing := Some(existing.value.(phase := PointerVisible, nextEligibleAt := now));
        episodes := episodes[key := existing.value];
      }
      var prior := Prior(existing);
      if existing.Some? && now < existing.value.nextEligibleAt {
        return Report(Backoff, None);
      }
      if screen.pointer.None? {
        if existing.None? {
          var absent := screen.empty && screen.recognized;
          var reason := if !screen.recognized then PreviewUnrecognized else if absent then PointerAbsent else NotPointer;
          episodes := episodes[key := Episode(
            m.id, m.runId, m.recipient, WorkerKey(w), StableKeyOr(w, None),
            if absent then now + ABSENT_BACKOFF else now + Doubled(prior),
            if absent then None else Some(Doubled(prior)), Refused, Some(reason))];
          return Report(reason, None);
        }
        if !screen.empty {
          return Report(NotPointer, None);
        }
        if pane.liveness == Gone {
          return Report(WorkerGone, None);
        }
        episodes := episodes[key := existing.value.(
          reason := Some(PointerConsumed), phase := Confirmed, nextEligibleAt := now + WINDOW)];
        return Report(PointerConsumed, None);
      }
      if existing.None? {
        episodes := episodes[key := Episode(
          m.id, m.runId, m.recipient, WorkerKey(w), StableKeyOr(w, None),
          now + prior, Some(Doubled(prior)), PointerVisible, None)];
      }
      report := SettleComposer(pane, screen.pointer.value);
      var row := episodes[key];
      if report.press == Some(Consumed) {
        episodes := episodes[key := row.(reason := Some(EnterSent), phase := Confirmed, nextEligibleAt := now + WINDOW)];
      } else if report.press == Some(Unconfirmed) {
        episodes := episodes[key := row.(
          phase := PointerVisible, nextEligibleAt := now + prior, backoffMs := Some(Doubled(prior)))];
      } else if report.press == Some(Failed) {
        episodes := episodes[key := row.(backoffMs := None, phase := PointerVisible, nextEligibleAt := now)];
      }
    }

    /** The delivery loop of a tick: one attempt a row, skipping pointers this tick already attempted. */
    method DeliverRows(rows: seq<Row>, now: int) returns (reports: seq<Report>)
      requires Valid() && forall row :: row in rows ==> NulFree(row.message.id)
      modifies this
      ensures Valid()
      ensures var t := old(TickRows(episodes, rows, now)); episodes == t.ledger && reports == t.reports
    {
      hide PointerLedgerKey, Delivered, WellKeyed;
      ghost var start := episodes;
      var coalesced: set<string> := {};
      reports := [];
      var n := 0;
      while n < |rows|
        invariant 0 <= n <= |rows|
        invariant Valid()
        invariant TickRows(start, rows[..n], now) == Tick(episodes, coalesced, reports)
      {
        var row := rows[n];
        assert row in rows && rows[..n + 1][..n] == rows[..n];
        var pointerKey := PointerLedgerKey(row.message, row.worker);
        var report;
        if pointerKey in coalesced {
          report := Report(AlreadyClaimed, None);
        } else {
          report := Deliver(row.message, row.worker, now, row.pane, row.allowConsumedRetry);
          if PointerAttempted(report) {
            coalesced := coalesced + {pointerKey};
          }
        }
        reports := reports + [report];
        n := n + 1;
      }
      assert rows[..n] == rows;
    }

    /** The upkeep at the start of a reconcile tick. */
    method Maintain(resolved: bool, unread: seq<(string, string)>, keys: set<string>, active: set<string>)
      requires forall p :: p in unread ==> OneStray(episodes, p.1, p.0)
      requires forall i, j :: 0 <= i < j < |unread| ==> unread[i].0 != unread[j].0
      modifies this
      ensures episodes == old(Maintained(episodes, resolved, unread, keys, active))
    {
      if resolved {
        MigrateLegacyEpisodeKeys(unread);
        DeleteAll(ConsumedKeys(episodes, keys, active));
        DeleteAll(episodes.Keys - keys);
      } else {
        DeleteAll(InactiveKeys(episodes, active));
      }
    }

    method MigrateLegacyEpisodeKeys(unread: seq<(string, string)>)
      requires forall p :: p in unread ==> OneStray(episodes, p.1, p.0)
      requires forall i, j :: 0 <= i < j < |unread| ==> unread[i].0 != unread[j].0
      modifies this
      ensures episodes == old(Migrate(episodes, unread))
    {
      ghost var start := episodes;
      var n := 0;
      while n < |unread|
        invariant 0 <= n <= |unread|
        invariant episodes == Migrate(start, unread[..n])
        invariant forall i :: n <= i < |unread| ==> OneStray(episodes, unread[i].1, unread[i].0)
      {
        var (id, key) := unread[n];
        ghost var before := episodes;
        assert unread[..n + 1][..n] == unread[..n];
        if k :| k in episodes && k != key && episodes[k].messageId == id {
          assert OneStray(before, unread[n].1, unread[n].0) && k in LegacyKeys(before, key, id);
          assert LegacyKeys(episodes, key, id) == {k};
          if key !in episodes || Rank(episodes[k].phase) > Rank(episodes[key].phase) {
            episodes := episodes[key := episodes[k]];
          }
          episodes := episodes - {k};
        } else {
          assert LegacyKeys(episodes, key, id) == {};
        }
        forall i | n < i < |unread| ensures OneStray(episodes, unread[i].1, unread[i].0) {
          assert OneStray(before, unread[i].1, unread[i].0);
          assert LegacyKeys(episodes, unread[i].1, unread[i].0) <= LegacyKeys(before, unread[i].1, unread[i].0);
        }
        n := n + 1;
      }
      assert unread[..n] == unread;
    }

    method ReleaseEpisodeWhenMailboxEmpty(m: Message, w: Worker, unread: bool)
      modifies this
      ensures episodes == old(MailboxEmptied(episodes, m, w, unread))
    {
      if !unread {
        DeleteAll(OwnKeys(episodes, m, w));
      }
    }

    method DeleteAll(doomed: set<string>)
      modifies this
      ensures episodes == old(episodes) - doomed
    {
      var rest := doomed;
      while rest != {}
        invariant rest <= doomed
        invariant episodes == old(episodes) - (doomed - rest)
      {
        var k :| k in rest;
        episodes := episodes - {k};
        rest := rest - {k};
      }
    }
  }

  /** What the outcome of an Enter leaves under the message's key. */
  predicate Recorded(r: Result, key: string, now: int, pane: Pane) {
    match r.report.press
    case None => true
    case Some(o) =>
      && key in r.ledger && pane.familyAtEnter == Cursor && pane.livenessAtEnter != Gone
      && SettledScreen(pane).Shown? && SettledScreen(pane).pointer.Some?
      && var e, gone := r.ledger[key], pane.afterEnter.Shown? && pane.afterEnter.pointer != SettledScreen(pane).pointer;
      match o
      case Failed =>
        pane.dispatch == SendFailed && e.phase == PointerVisible && e.nextEligibleAt == now && e.backoffMs == None
      case Consumed =>
        pane.dispatch != SendFailed && gone && e.phase == Confirmed && e.nextEligibleAt == now + WINDOW
      case Unconfirmed =>
        pane.dispatch != SendFailed && !gone && e.phase == PointerVisible && e.backoffMs == Some(Doubled(e.nextEligibleAt - now))
  }

  predicate ConfirmedAt(eps: Ledger, key: string) {
    key in eps && eps[key].phase == Confirmed
  }

  /** An episode gets confirmed only by an Enter that was consumed, or by the pointer's absence after a claim. */
  predicate Witnessed(was: Ledger, r: Result, key: string) {
    ConfirmedAt(r.ledger, key) && !ConfirmedAt(was, key) ==>
      r.report.press == Some(Consumed) || (r.report.reason == PointerConsumed && key in was && was[key].phase == PointerVisible)
  }

  /**
   What an Enter leaves in the ledger, by its outcome, and the only two ways an episode gets confirmed: the
   pointer was gone after its Enter, or it was absent when a claim on it was observed.
   */
  lemma OutcomeRecorded(eps: Ledger, m: Message, w: Worker, now: int, pane: Pane, allow: bool)
    ensures var r, key := Delivered(eps, m, w, now, pane, allow), EpisodeKey(m, w);
            Recorded(r, key, now, pane) && Witnessed(Lift(eps, m, w), r, key)
  {
    var key := EpisodeKey(m, w);
    LiftOfOwn(eps, m, w);
    ObserveRecorded(Released(Lift(eps, m, w), key), m, w, now, pane);
    hide EpisodeKey, PendingPointerClaim, Lift, Observe, IdentityComplete;
  }

  // ----- a delivery decided -----

  /** The claim a delivery starts from: the message's own or one moved to its key, but no spent refusal or lease. */
  ghost function ClaimOf(eps: Ledger, m: Message, w: Worker): Option<Episode> {
    Lookup(Released(Lift(eps, m, w), EpisodeKey(m, w)), EpisodeKey(m, w))
  }

  /** Nothing keeps the delivery from looking at the pane. */
  ghost predicate Looks(eps: Ledger, m: Message, w: Worker, now: int, pane: Pane, allow: bool) {
    var key := EpisodeKey(m, w);
    var lifted := Lift(eps, m, w);
    && (m.consumed ==> allow) && IdentityComplete(w) && pane.family == Cursor
    && !(HasPhase(Lookup(lifted, key), Refused) && !Due(Lookup(lifted, key), now))
    && !PendingPointerClaim(Released(lifted, key), m, w, now, key)
  }

  predicate Due(claim: Option<Episode>, now: int) {
    claim.Some? ==> claim.value.nextEligibleAt <= now
  }

  predicate HasPhase(claim: Option<Episode>, phase: Phase) {
    claim.Some? && claim.value.phase == phase
  }

  /** The pane as it has settled shows the message's own pointer, or no pointer. */
  predicate ShowsOwn(m: Message, w: Worker, pane: Pane) {
    var screen := SettledScreen(pane);
    screen.Shown? && screen.pointer.Some? && PointerMatchesDelivery(screen.pointer.value, m, w)
  }

  predicate ShowsNone(pane: Pane) {
    SettledScreen(pane).Shown? && SettledScreen(pane).pointer.None?
  }

  /** A confirmed claim is taken back when its pointer is on the pane again after its window. */
  predicate TakenBack(claim: Option<Episode>, m: Message, w: Worker, now: int, pane: Pane) {
    HasPhase(claim, Confirmed) && Due(claim, now) && ShowsOwn(m, w, pane) && pane.liveness != Gone
  }

  /**
   Enter is pressed exactly if no wait is on, the pane shows the message's own pointer, and at the Enter the family
   is still bound and the worker not gone; over a confirmed claim the worker must not have been gone before either.
   */
  predicate WantsEnter(claim: Option<Episode>, m: Message, w: Worker, now: int, pane: Pane) {
    && Due(claim, now) && ShowsOwn(m, w, pane) && (HasPhase(claim, Confirmed) ==> pane.liveness != Gone)
    && pane.familyAtEnter == Cursor && pane.livenessAtEnter != Gone
  }

  /** The pointer is gone from an empty composer after a claim on it, and the worker with its composer is not. */
  predicate WitnessesAbsence(claim: Option<Episode>, now: int, pane: Pane) {
    && HasPhase(claim, PointerVisible) && Due(claim, now)
    && ShowsNone(pane) && SettledScreen(pane).empty && pane.liveness != Gone
  }

  /** The refusal when there is no claim and no pointer: brief for an empty composer, else with the doubled first wait. */
  function Refusal(m: Message, w: Worker, now: int, screen: Screen): Episode
    requires screen.Shown?
  {
    var absent := screen.empty && screen.recognized;
    Episode(m.id, m.runId, m.recipient, WorkerKey(w), StableKeyOr(w, None),
            now + (if absent then 5_000 else 120_000), if absent then None else Some(120_000), Refused,
            Some(if !screen.recognized then PreviewUnrecognized else if absent then PointerAbsent else NotPointer))
  }

  /** What an Enter turns a claim into; a new claim names the message and the worker. */
  function Marked(claim: Option<Episode>, m: Message, w: Worker, now: int, o: Outcome): Episode {
    var prior := if claim.Some? then claim.value.backoffMs.GetOr(60_000) else 60_000;
    var e := claim.GetOr(Episode(m.id, m.runId, m.recipient, WorkerKey(w), StableKeyOr(w, None), now, Some(120_000), PointerVisible, None));
    match o
    case Failed => e.(phase := PointerVisible, nextEligibleAt := now, backoffMs := None)
    case Unconfirmed => e.(phase := PointerVisible, nextEligibleAt := now + prior, backoffMs := Some(Min(prior * 2, 1_800_000)))
    case Consumed => e.(phase := Confirmed, nextEligibleAt := now + 60_000, reason := Some(EnterSent))
  }

  /** The claim an Enter that did not come about leaves: a new one, the old one, or a confirmed one taken back. */
  function Standing(claim: Option<Episode>, m: Message, w: Worker, now: int): Episode {
    if claim.None? then
      Episode(m.id, m.runId, m.recipient, WorkerKey(w), StableKeyOr(w, None), now + 60_000, Some(120_000), PointerVisible, None)
    else if claim.value.phase == Confirmed then
      claim.value.(phase := PointerVisible, nextEligibleAt := now)
    else
      claim.value
  }

  /** With no Enter and no witnessed absence the ledger stays, but for a refusal, a new claim, or one taken back. */
  ghost predicate Kept(base: Ledger, m: Message, w: Worker, now: int, pane: Pane, r: Result) {
    var key := EpisodeKey(m, w);
    var claim := Lookup(base, key);
    && (claim.None? && ShowsNone(pane) ==>
          r.ledger == base[key := Refusal(m, w, now, SettledScreen(pane))] && Some(r.report.reason) == r.ledger[key].reason)
    && (ShowsOwn(m, w, pane) && (claim.None? || TakenBack(claim, m, w, now, pane)) ==>
          r.ledger == base[key := Standing(claim, m, w, now)])
    && (!(claim.None? && ShowsNone(pane)) && !(ShowsOwn(m, w, pane) && (claim.None? || TakenBack(claim, m, w, now, pane))) ==>
          r.ledger == base)
  }

  /** A look at the pane, decided: when it presses, when it takes absence for consumption, and what it writes. */
  ghost predicate Decided(base: Ledger, m: Message, w: Worker, now: int, pane: Pane, r: Result) {
    var key := EpisodeKey(m, w);
    var claim := Lookup(base, key);
    && (r.report.press.Some? <==> WantsEnter(claim, m, w, now, pane))
    && (r.report.press.Some? ==> r.ledger == base[key := Marked(claim, m, w, now, r.report.press.value)])
    && (WitnessesAbsence(claim, now, pane) ==>
          r.ledger == base[key := claim.value.(reason := Some(PointerConsumed), phase := Confirmed, nextEligibleAt := now + 60_000)])
    && (r.report.press.None? && !WitnessesAbsence(claim, now, pane) ==> Kept(base, m, w, now, pane, r))
  }

  /** Why a look pressed nothing. */
  ghost predicate Explained(base: Ledger, m: Message, w: Worker, now: int, pane: Pane, reason: Reason) {
    var claim, screen := Lookup(base, EpisodeKey(m, w)), SettledScreen(pane);
    && (reason == PaneUnreadable <==> screen.Unreadable?)
    && (reason == TargetMismatch <==> screen.Shown? && screen.pointer.Some? && !ShowsOwn(m, w, pane))
    && (reason == PointerConsumed <==> WitnessesAbsence(claim, now, pane))
    && (reason == AlreadyDelivered <==>
          HasPhase(claim, Confirmed) && (ShowsNone(pane) || (ShowsOwn(m, w, pane) && !Due(claim, now))))
    && (reason == Backoff <==>
          claim.Some? && claim.value.phase != Confirmed && !Due(claim, now) && (ShowsNone(pane) || ShowsOwn(m, w, pane)))
  }

  /** What a ledger is looked at with: no refusal and no lease under the message's key. */
  predicate ClaimStands(claim: Option<Episode>) {
    claim.Some? ==> claim.value.phase == PointerVisible || claim.value.phase == Confirmed
  }

  /**
   A delivery that looks does exactly what `Decided` says, on the ledger with the claim at its key; so an episode that
   was not confirmed is confirmed after it exactly if an Enter was consumed or the absence was witnessed. One that
   does not look presses nothing and leaves a claim as it is.
   */
  lemma DeliveryDecides(eps: Ledger, m: Message, w: Worker, now: int, pane: Pane, allow: bool)
    ensures var r, key, claim := Delivered(eps, m, w, now, pane, allow), EpisodeKey(m, w), ClaimOf(eps, m, w);
            && (Looks(eps, m, w, now, pane, allow) ==>
                  && Decided(Released(Lift(eps, m, w), key), m, w, now, pane, r)
                  && Explained(Released(Lift(eps, m, w), key), m, w, now, pane, r.report.reason)
                  && (!HasPhase(claim, Confirmed) ==>
                        (ConfirmedAt(r.ledger, key) <==> r.report.press == Some(Consumed) || WitnessesAbsence(claim, now, pane))))
            && (!Looks(eps, m, w, now, pane, allow) ==>
                  r.report.press.None? && (claim.Some? ==> ClaimOf(r.ledger, m, w) == claim))
  {
    var key := EpisodeKey(m, w);
    var base := Released(Lift(eps, m, w), key);
    if Looks(eps, m, w, now, pane, allow) {
      ObserveDecides(base, m, w, now, pane);
      ObserveExplains(base, m, w, now, pane);
      DecidedConfirms(base, m, w, now, pane, Observe(base, m, w, now, pane));
    } else {
      NotLookingKeeps(eps, m, w, now, pane, allow);
    }
    hide EpisodeKey, PendingPointerClaim, IdentityComplete, Observe, Lift, Decided, Explained, WitnessesAbsence;
  }

  lemma NotLookingKeeps(eps: Ledger, m: Message, w: Worker, now: int, pane: Pane, allow: bool)
    requires !Looks(eps, m, w, now, pane, allow)
    ensures var r, claim := Delivered(eps, m, w, now, pane, allow), ClaimOf(eps, m, w);
            r.report.press.None? && (claim.Some? ==> ClaimOf(r.ledger, m, w) == claim)
  {
    var key := EpisodeKey(m, w);
    LiftOfOwn(Lift(eps, m, w), m, w);
    LiftOfOwn(Released(Lift(eps, m, w), key), m, w);
    hide EpisodeKey, PendingPointerClaim, IdentityComplete, Observe, Lift;
  }

  lemma DecidedConfirms(base: Ledger, m: Message, w: Worker, now: int, pane: Pane, r: Result)
    requires Decided(base, m, w, now, pane, r) && ClaimStands(Lookup(base, EpisodeKey(m, w)))
    ensures var key, claim := EpisodeKey(m, w), Lookup(base, EpisodeKey(m, w));
            !HasPhase(claim, Confirmed) ==>
              (ConfirmedAt(r.ledger, key) <==> r.report.press == Some(Consumed) || WitnessesAbsence(claim, now, pane))
  {
    hide EpisodeKey, PointerMatchesDelivery, WorkerKey, StableKeyOr;
  }

  lemma ObserveDecides(base: Ledger, m: Message, w: Worker, now: int, pane: Pane)
    requires ClaimStands(Lookup(base, EpisodeKey(m, w)))
    ensures Decided(base, m, w, now, pane, Observe(base, m, w, now, pane))
  {
    hide EpisodeKey, PointerMatchesDelivery, WorkerKey, StableKeyOr;
  }

  lemma ObserveExplains(base: Ledger, m: Message, w: Worker, now: int, pane: Pane)
    requires ClaimStands(Lookup(base, EpisodeKey(m, w)))
    ensures Explained(base, m, w, now, pane, Observe(base, m, w, now, pane).report.reason)
  {
    hide EpisodeKey, PointerMatchesDelivery, WorkerKey, StableKeyOr;
  }

  lemma LiftOfOwn(eps: Ledger, m: Message, w: Worker)
    ensures EpisodeKey(m, w) in eps ==> Lift(eps, m, w) == eps
  {
  }

  lemma ObserveRecorded(base: Ledger, m: Message, w: Worker, now: int, pane: Pane)
    ensures var r, key := Observe(base, m, w, now, pane), EpisodeKey(m, w);
            Recorded(r, key, now, pane) && Witnessed(base, r, key)
  {
    hide EpisodeKey, PointerMatchesDelivery, Press, Absent;
    var key, screen := EpisodeKey(m, w), SettledScreen(pane);
    if screen.Shown? && screen.pointer.Some? {
      var eps := if Contradicted(base, key, now, screen) then base[key := base[key].(phase := PointerVisible, nextEligibleAt := now)] else base;
      PressRecorded(eps, m, w, now, pane);
    } else if screen.Shown? {
      AbsentRecorded(base, m, w, now, pane);
    }
  }

  lemma PressRecorded(eps: Ledger, m: Message, w: Worker, now: int, pane: Pane)
    requires SettledScreen(pane).Shown? && SettledScreen(pane).pointer.Some?
    ensures var r, key := Press(eps, m, w, now, pane, SettledScreen(pane).pointer.value), EpisodeKey(m, w);
            Recorded(r, key, now, pane) && (ConfirmedAt(r.ledger, key) && !ConfirmedAt(eps, key) ==> r.report.press == Some(Consumed))
  {
    hide EpisodeKey, WorkerKey, StableKeyOr, SettledScreen;
  }

  lemma AbsentRecorded(eps: Ledger, m: Message, w: Worker, now: int, pane: Pane)
    requires SettledScreen(pane).Shown?
    ensures var r, key := Absent(eps, m, w, now, pane, SettledScreen(pane)), EpisodeKey(m, w);
            r.report.press.None? && Witnessed(eps, r, key)
  {
    hide EpisodeKey, WorkerKey, StableKeyOr, SettledScreen;
  }

  /** A delivery writes at most its own message's entry. */
  lemma ObserveWritesOwnKey(eps: Ledger, m: Message, w: Worker, now: int, pane: Pane)
    requires EpisodeKey(m, w) in eps ==> eps[EpisodeKey(m, w)].messageId == m.id
    ensures var key, l := EpisodeKey(m, w), Observe(eps, m, w, now, pane).ledger;
            l == eps || (key in l && l == eps[key := l[key]] && l[key].messageId == m.id)
  {
    hide EpisodeKey, PointerMatchesDelivery, WorkerKey, BuildDeliveryPointer;
  }

  lemma PutWellKeyed(eps: Ledger, key: string, row: Episode)
    requires WellKeyed(eps)
    requires KeyMessage(key) == Some(row.messageId)
    requires forall k :: k in eps && eps[k].messageId == row.messageId ==> k == key
    ensures WellKeyed(eps[key := row])
  {
    hide KeyMessage;
  }

  lemma LiftWellKeyed(eps: Ledger, m: Message, w: Worker)
    requires WellKeyed(eps) && NulFree(m.id)
    ensures WellKeyed(Lift(eps, m, w))
    ensures forall k :: k in Lift(eps, m, w) && Lift(eps, m, w)[k].messageId == m.id ==> k == EpisodeKey(m, w)
  {
    KeyNamesMessage(m, w);
    var key := EpisodeKey(m, w);
    if key !in eps && LegacyKeys(eps, key, m.id) != {} {
      var lifted := Lift(eps, m, w);
      var k :| k in LegacyKeys(eps, key, m.id) && lifted == (eps - {k})[key := lifted[key]] && lifted[key].messageId == m.id;
      PutWellKeyed(eps - {k}, key, lifted[key]);
    } else {
      assert forall k :: k in eps && k != key && eps[k].messageId == m.id ==> k in LegacyKeys(eps, key, m.id);
    }
  }

  lemma DeliveredStages(eps: Ledger, m: Message, w: Worker, now: int, pane: Pane, allow: bool)
    ensures var key, lifted := EpisodeKey(m, w), Lift(eps, m, w);
            var base := Released(lifted, key);
            var l := Delivered(eps, m, w, now, pane, allow).ledger;
            l == eps || l == lifted || l == base || l == Observe(base, m, w, now, pane).ledger
  {
    hide EpisodeKey, WorkerKey, BuildDeliveryPointer, Observe, Lift;
  }

  /** Every delivery keeps one episode per message, each under a key that names it. */
  lemma DeliveredWellKeyed(eps: Ledger, m: Message, w: Worker, now: int, pane: Pane, allow: bool)
    requires WellKeyed(eps) && NulFree(m.id)
    ensures WellKeyed(Delivered(eps, m, w, now, pane, allow).ledger)
  {
    hide EpisodeKey, Observe, KeyMessage, Lift, Delivered;
    KeyNamesMessage(m, w);
    LiftWellKeyed(eps, m, w);
    DeliveredStages(eps, m, w, now, pane, allow);
    var key := EpisodeKey(m, w);
    var lifted := Lift(eps, m, w);
    var base := Released(lifted, key);
    ObservedWellKeyed(base, m, w, now, pane);
  }

  lemma ObservedWellKeyed(base: Ledger, m: Message, w: Worker, now: int, pane: Pane)
    requires WellKeyed(base) && KeyMessage(EpisodeKey(m, w)) == Some(m.id)
    requires forall k :: k in base && base[k].messageId == m.id ==> k == EpisodeKey(m, w)
    ensures WellKeyed(Observe(base, m, w, now, pane).ledger)
  {
    var key := EpisodeKey(m, w);
    ObserveWritesOwnKey(base, m, w, now, pane);
    var l := Observe(base, m, w, now, pane).ledger;
    if l != base {
      PutWellKeyed(base, key, l[key]);
    }
  }
}
