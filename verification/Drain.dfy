/**
 The stale-pointer drain of a reconcile tick: a pointer left in a composer after its mail was read is
 Entered once, after it has been seen unchanged for a while.
 */
module Drain {
  import opened Basics
  import opened Mail
  import opened Delivery

  const DRAIN_AFTER := 10_000

  datatype InboxRow = InboxRow(id: string, toHandle: string, read: bool)

  datatype DrainFamily = NoFamily | OpenCode | CursorComposer

  /**
   What the drain finds at one worker: its family, its liveness, the screen and when it was read, and what an
   Enter would meet and when it would be pressed.
   */
  datatype Probe = Probe(
    worker: Worker, family: DrainFamily, liveness: Delivery.Liveness, screen: Screen, readAt: int, pane: Pane, pressedAt: int)

  /** One tick: its clock reading, the roster with its probes, the workers already delivered to, and where Runs resolve. */
  datatype Tick = Tick(
    now: int, probes: seq<Probe>, touched: set<string>, inbox: seq<InboxRow>, runWorkers: map<string, string>)

  datatype Stale = Stale(pointer: string, firstSeenAt: int)

  datatype Memory = Memory(stale: map<string, Stale>, submitted: map<string, string>)

  datatype Event =
    | Saw(key: string, at: int, readAt: int, abandoned: Option<string>)
    | Pressed(key: string, at: int, pressedAt: int, pointer: string, outcome: Outcome)

  predicate Live(w: Worker) {
    w.runtime == "orca" && "term_" <= w.id
  }

  /** The argument of a check command with the given option. */
  function Argument(pointer: string, option: string): Option<string> {
    var head := BARE_CHECK + option;
    if head <= pointer && pointer[|head|..] != "" && NoSpace(pointer[|head|..]) then Some(pointer[|head|..]) else None
  }

  /** The recipient a shown pointer was meant for, if it is this worker's own terminal or a Run it owns. */
  function TargetRecipient(pointer: string, w: Worker, runWorkers: map<string, string>): Option<string> {
    var terminal := Argument(pointer, " --terminal ");
    var run := Argument(pointer, " --run ");
    if terminal.Some? then
      if terminal.value == w.id then Some(w.id) else None
    else if run.Some? && run.value in runWorkers && runWorkers[run.value] == WorkerKey(w) then
      Some("run:" + run.value)
    else
      None
  }

  predicate Unread(row: InboxRow, recipient: string) {
    Trim(row.id) != "" && Trim(row.toHandle) == recipient && !row.read
  }

  predicate HasUnread(inbox: seq<InboxRow>, recipient: string) {
    exists i :: 0 <= i < |inbox| && Unread(inbox[i], recipient)
  }

  /** The pointer at rest in a composer whose target is this worker and has nothing left to read. */
  function Abandoned(p: Probe, t: Tick): Option<string> {
    if p.family != CursorComposer || p.liveness !in {Idle, Busy} || p.screen.Unreadable? || p.screen.pointer.None? then
      None
    else
      var recipient := TargetRecipient(p.screen.pointer.value, p.worker, t.runWorkers);
      if recipient.None? || HasUnread(t.inbox, recipient.value) then None else p.screen.pointer
  }

  function SubmittedAt(m: Memory, key: string): Option<string> {
    if key in m.submitted then Some(m.submitted[key]) else None
  }

  predicate Ripe(m: Memory, key: string, now: int, pointer: string) {
    && SubmittedAt(m, key) != Some(pointer)
    && key in m.stale && m.stale[key].pointer == pointer && now - m.stale[key].firstSeenAt >= DRAIN_AFTER
  }

  function PressOf(m: Memory, key: string, now: int, abandoned: Option<string>, pane: Pane): Option<Outcome> {
    if abandoned.Some? && Ripe(m, key, now, abandoned.value) then Settled(pane, abandoned.value).press else None
  }

  function Looked(m: Memory, key: string, now: int, abandoned: Option<string>, pane: Pane): Memory {
    var press := PressOf(m, key, now, abandoned, pane);
    if abandoned.None? || SubmittedAt(m, key) == abandoned then
      m.(stale := m.stale - {key})
    else if key !in m.stale || m.stale[key].pointer != abandoned.value then
      m.(stale := m.stale[key := Stale(abandoned.value, now)])
    else if press.None? || press == Some(Failed) then
      m
    else
      Memory(if press == Some(Consumed) then m.stale - {key} else m.stale, m.submitted[key := abandoned.value])
  }

  function LookEvents(m: Memory, now: int, p: Probe, abandoned: Option<string>): seq<Event> {
    var key := WorkerKey(p.worker);
    var press := PressOf(m, key, now, abandoned, p.pane);
    [Saw(key, now, p.readAt, abandoned)]
    + (if press.None? then [] else [Pressed(key, now, p.pressedAt, abandoned.value, press.value)])
  }

  predicate Probed(p: Probe, t: Tick) {
    Live(p.worker) && WorkerKey(p.worker) !in t.touched
  }

  /** A memory and the Enters and observations that led to it. */
  datatype History = History(memory: Memory, trace: seq<Event>)

  function AfterProbe(h: History, p: Probe, t: Tick): History {
    if !Probed(p, t) then h
    else
      var key := WorkerKey(p.worker);
      History(Looked(h.memory, key, t.now, Abandoned(p, t), p.pane),
              h.trace + LookEvents(h.memory, t.now, p, Abandoned(p, t)))
  }

  function AfterProbes(h: History, t: Tick, n: nat): History
    requires n <= |t.probes|
  {
    if n == 0 then h else AfterProbe(AfterProbes(h, t, n - 1), t.probes[n - 1], t)
  }

  function LiveKeys(probes: seq<Probe>): set<string> {
    set i | 0 <= i < |probes| && Live(probes[i].worker) :: WorkerKey(probes[i].worker)
  }

  function AfterTick(h: History, t: Tick): History {
    var looked := AfterProbes(h, t, |t.probes|);
    looked.(memory := looked.memory.(stale := map k | k in looked.memory.stale && k in LiveKeys(t.probes) :: looked.memory.stale[k]))
  }

  /** A tick as far as it came: how many probes it looked at, and whether it came to save what it remembered. */
  datatype Turn = Turn(tick: Tick, looked: nat, saved: bool)

  predicate WellFormed(turns: seq<Turn>) {
    forall k :: 0 <= k < |turns| ==>
      turns[k].looked <= |turns[k].tick.probes| && (turns[k].saved ==> turns[k].looked == |turns[k].tick.probes|)
  }

  /** What is remembered after a run: a turn that did not save changed nothing, whatever it Entered. */
  function Run(turns: seq<Turn>): History
    requires WellFormed(turns)
  {
    if turns == [] then History(Memory(map[], map[]), [])
    else
      var before, last := Run(turns[..|turns| - 1]), turns[|turns| - 1];
      if last.saved then AfterTick(before, last.tick) else before
  }

  /** The observations and Enters the last turn of a run knows of by its end. */
  function Known(turns: seq<Turn>): seq<Event>
    requires WellFormed(turns)
  {
    if turns == [] then []
    else AfterProbes(Run(turns[..|turns| - 1]), turns[|turns| - 1].tick, turns[|turns| - 1].looked).trace
  }

  /** How many Enters were followed by the pointer leaving the composer. */
  function Nudges(trace: seq<Event>): nat {
    if trace == [] then 0
    else
      var e := trace[|trace| - 1];
      Nudges(trace[..|trace| - 1]) + if e.Pressed? && e.outcome == Consumed then 1 else 0
  }

  lemma NudgesAppend(trace: seq<Event>, e: Event)
    ensures Nudges(trace + [e]) == Nudges(trace) + if e.Pressed? && e.outcome == Consumed then 1 else 0
  {
    assert (trace + [e])[..|trace|] == trace;
  }

  /** The part of the reconcile state the drain updates in place. */
  class Drainer {
    var staleObservations: map<string, Stale>
    var submittedFingerprint: map<string, string>
    ghost var trace: seq<Event>

    ghost function Value(): History
      reads this
    {
      History(Memory(staleObservations, submittedFingerprint), trace)
    }

    constructor ()
      ensures Value() == Run([])
    {
      staleObservations, submittedFingerprint, trace := map[], map[], [];
    }

    method LookAt(p: Probe, t: Tick) returns (nudged: bool)
      requires Probed(p, t)
      modifies this
      ensures Value() == AfterProbe(old(Value()), p, t)
      ensures Nudges(trace) == Nudges(old(trace)) + if nudged then 1 else 0
    {
      hide WorkerKey, TargetRecipient, HasUnread, Settled, Nudges;
      var key := WorkerKey(p.worker);
      nudged := false;
      NudgesAppend(trace, Saw(key, t.now, p.readAt, Abandoned(p, t)));
      trace := trace + [Saw(key, t.now, p.readAt, Abandoned(p, t))];
      if p.family != CursorComposer || (p.liveness != Idle && p.liveness != Busy) || p.screen.Unreadable? || p.screen.pointer.None? {
        staleObservations := staleObservations - {key};
        return;
      }
      var pointer := p.screen.pointer.value;
      var recipient := TargetRecipient(pointer, p.worker, t.runWorkers);
      if recipient.None? || HasUnread(t.inbox, recipient.value) {
        staleObservations := staleObservations - {key};
        return;
      }
      if key in submittedFingerprint && submittedFingerprint[key] == pointer {
        staleObservations := staleObservations - {key};
        return;
      }
      if key !in staleObservations || staleObservations[key].pointer != pointer {
        staleObservations := staleObservations[key := Stale(pointer, t.now)];
        return;
      }
      if t.now - staleObservations[key].firstSeenAt < DRAIN_AFTER {
        return;
      }
      var report := SettleComposer(p.pane, pointer);
      if report.press.None? {
        return;
      }
      NudgesAppend(trace, Pressed(key, t.now, p.pressedAt, pointer, report.press.value));
      trace := trace + [Pressed(key, t.now, p.pressedAt, pointer, report.press.value)];
      if report.press.value != Failed {
        submittedFingerprint := submittedFingerprint[key := pointer];
      }
      if report.press.value == Consumed {
        staleObservations := staleObservations - {key};
        nudged := true;
      }
    }

    /** One drain over the roster; `nudged` counts the pointers seen to go. */
    method DrainStalePointers(t: Tick) returns (nudged: nat)
      modifies this
      ensures Value() == AfterTick(old(Value()), t)
      ensures Nudges(trace) == Nudges(old(trace)) + nudged
    {
      hide AfterProbe, WorkerKey, Nudges;
      var n := 0;
      nudged := 0;
      while n < |t.probes|
        invariant n <= |t.probes|
        invariant Value() == AfterProbes(old(Value()), t, n)
        invariant Nudges(trace) == Nudges(old(trace)) + nudged
      {
        if Probed(t.probes[n], t) {
          var gone := LookAt(t.probes[n], t);
          nudged := nudged + if gone then 1 else 0;
        } else {
          SkippedProbe(Value(), t.probes[n], t);
        }
        n := n + 1;
      }
      var live := LiveKeys(t.probes);
      staleObservations := map k | k in staleObservations && k in live :: staleObservations[k];
    }
  }

  lemma SkippedProbe(h: History, p: Probe, t: Tick)
    requires !Probed(p, t)
    ensures AfterProbe(h, p, t) == h
  {
  }

  predicate AcceptedPress(e: Event, key: string) {
    e.Pressed? && e.key == key && e.outcome != Failed
  }

  /** Observation `i` found the pointer at rest, and so did every later observation of that worker. */
  ghost predicate AtRestSince(trace: seq<Event>, i: int, key: string, at: int, pointer: string) {
    && 0 <= i < |trace| && trace[i].Saw? && trace[i].key == key && trace[i].at == at && trace[i].abandoned == Some(pointer)
    && forall j :: i < j < |trace| && trace[j].Saw? && trace[j].key == key ==> trace[j].abandoned == Some(pointer)
  }

  /** The pointer most recently Entered on the worker, leaving out Enters that failed. */
  function LastAccepted(trace: seq<Event>, key: string): Option<string> {
    if trace == [] then None
    else if AcceptedPress(trace[|trace| - 1], key) then Some(trace[|trace| - 1].pointer)
    else LastAccepted(trace[..|trace| - 1], key)
  }

  ghost predicate Remembers(h: History) {
    && (forall k :: k in h.memory.stale ==>
                      exists i :: AtRestSince(h.trace, i, k, h.memory.stale[k].firstSeenAt, h.memory.stale[k].pointer))
    && (forall k :: SubmittedAt(h.memory, k) == LastAccepted(h.trace, k))
  }

  /**
   By the readings ten seconds lie between the observation and the Enter; by the instants ten seconds, less what the
   read lagged behind its reading and more what the Enter did, and in any case the Enter's lag.
   */
  predicate Rested(saw: Event, e: Event) {
    && saw.Saw? && e.Pressed? && saw.at <= saw.readAt <= e.at <= e.pressedAt
    && e.at - saw.at >= DRAIN_AFTER
    && e.pressedAt - saw.readAt >= DRAIN_AFTER - (saw.readAt - saw.at) + (e.pressedAt - e.at)
    && e.pressedAt - saw.readAt >= e.pressedAt - e.at
  }

  /** An Enter at position `j` came after ten seconds of rest, and not right after the same pointer. */
  ghost predicate PressAllowed(trace: seq<Event>, j: int)
    requires 0 <= j < |trace| && trace[j].Pressed?
  {
    && (exists i, at :: RestedSince(trace, i, at, j))
    && LastAccepted(trace[..j], trace[j].key) != Some(trace[j].pointer)
  }

  ghost predicate RestedSince(trace: seq<Event>, i: int, at: int, j: int)
    requires 0 <= j < |trace| && trace[j].Pressed?
  {
    && 0 <= i < j && AtRestSince(trace[..j], i, trace[j].key, at, trace[j].pointer) && Rested(trace[i], trace[j])
  }

  /** Readings come before what they decide; what an earlier reading decided is over by the reading `now`, all by `end`. */
  predicate TimedBy(trace: seq<Event>, now: int, end: int) {
    forall i :: 0 <= i < |trace| ==> EventTimed(trace[i], now, end)
  }

  predicate EventTimed(e: Event, now: int, end: int) {
    e.at <= now && if e.Saw? then e.at <= e.readAt <= end && (e.readAt <= now || e.at == now) else e.at <= e.pressedAt
  }

  ghost predicate AllPressesAllowed(trace: seq<Event>) {
    forall j :: 0 <= j < |trace| && trace[j].Pressed? ==> PressAllowed(trace, j)
  }

  lemma AppendAllowed(trace: seq<Event>, e: Event)
    requires AllPressesAllowed(trace) && (e.Pressed? ==> PressAllowed(trace + [e], |trace|))
    ensures AllPressesAllowed(trace + [e])
  {
    hide AtRestSince, LastAccepted, Rested;
    forall j | 0 <= j < |trace + [e]| && (trace + [e])[j].Pressed? ensures PressAllowed(trace + [e], j) {
      if j < |trace| {
        assert (trace + [e])[..j] == trace[..j];
        assert PressAllowed(trace, j);
        var i, at :| RestedSince(trace, i, at, j);
        assert RestedSince(trace + [e], i, at, j);
      }
    }
  }

  lemma LastAcceptedAppend(trace: seq<Event>, e: Event, key: string)
    ensures LastAccepted(trace + [e], key) == if AcceptedPress(e, key) then Some(e.pointer) else LastAccepted(trace, key)
  {
    assert (trace + [e])[..|trace|] == trace;
  }

  lemma RestAppend(trace: seq<Event>, e: Event, i: int, key: string, at: int, pointer: string)
    requires AtRestSince(trace, i, key, at, pointer)
    requires e.Saw? && e.key == key ==> e.abandoned == Some(pointer)
    ensures AtRestSince(trace + [e], i, key, at, pointer)
  {
  }

  lemma ProbeKeeps(h: History, p: Probe, t: Tick, end: int)
    requires Remembers(h) && AllPressesAllowed(h.trace) && TimedBy(h.trace, t.now, end)
    requires t.now <= p.readAt <= p.pressedAt <= end
    ensures Remembers(AfterProbe(h, p, t)) && AllPressesAllowed(AfterProbe(h, p, t).trace)
    ensures TimedBy(AfterProbe(h, p, t).trace, t.now, end)
  {
    hide WorkerKey, Abandoned, Settled, AtRestSince, LastAccepted, PressAllowed, AllPressesAllowed;
    if Probed(p, t) {
      var key, shown := WorkerKey(p.worker), Abandoned(p, t);
      var next := AfterProbe(h, p, t);
      var saw := Saw(key, t.now, p.readAt, shown);
      var seen := h.trace + [saw];
      var press := PressOf(h.memory, key, t.now, shown, p.pane);
      AppendAllowed(h.trace, saw);
      SawKeeps(h, saw);
      if press.None? {
        assert next.trace == seen;
        forall k ensures SubmittedAt(next.memory, k) == LastAccepted(next.trace, k) {
          LastAcceptedAppend(h.trace, saw, k);
        }
      } else {
        var e := Pressed(key, t.now, p.pressedAt, shown.value, press.value);
        assert next.trace == seen + [e];
        forall k ensures SubmittedAt(next.memory, k) == LastAccepted(next.trace, k) {
          LastAcceptedAppend(h.trace, saw, k);
          LastAcceptedAppend(seen, e, k);
        }
        assert PressAllowed(next.trace, |seen|) by {
          LastAcceptedAppend(h.trace, saw, key);
          PressIsAllowed(seen, e, h.memory.stale[key].firstSeenAt, end);
        }
        AppendAllowed(seen, e);
        forall k | k in next.memory.stale
          ensures exists i :: AtRestSince(next.trace, i, k, next.memory.stale[k].firstSeenAt, next.memory.stale[k].pointer)
        {
          var i :| AtRestSince(seen, i, k, next.memory.stale[k].firstSeenAt, next.memory.stale[k].pointer);
          RestAppend(seen, e, i, k, next.memory.stale[k].firstSeenAt, next.memory.stale[k].pointer);
        }
      }
    }
  }

  lemma PressIsAllowed(seen: seq<Event>, e: Event, since: int, end: int)
    requires e.Pressed? && e.at <= e.pressedAt && e.at - since >= DRAIN_AFTER && LastAccepted(seen, e.key) != Some(e.pointer)
    requires TimedBy(seen, e.at, end) && exists i :: AtRestSince(seen, i, e.key, since, e.pointer)
    ensures PressAllowed(seen + [e], |seen|)
  {
    hide LastAccepted;
    var all := seen + [e];
    assert all[..|seen|] == seen;
    var i :| AtRestSince(seen, i, e.key, since, e.pointer);
    assert EventTimed(seen[i], e.at, end);
    assert RestedSince(all, i, since, |seen|);
  }

  /** What the memory holds once an observation is made is at rest since then, Enter or not. */
  lemma SawKeeps(h: History, saw: Event)
    requires Remembers(h) && saw.Saw?
    ensures var seen := h.trace + [saw];
            && (forall k :: k in h.memory.stale && (k != saw.key || saw.abandoned == Some(h.memory.stale[k].pointer)) ==>
                              exists i :: AtRestSince(seen, i, k, h.memory.stale[k].firstSeenAt, h.memory.stale[k].pointer))
            && (saw.abandoned.Some? ==> AtRestSince(seen, |h.trace|, saw.key, saw.at, saw.abandoned.value))
  {
    forall k | k in h.memory.stale && (k != saw.key || saw.abandoned == Some(h.memory.stale[k].pointer))
      ensures exists i :: AtRestSince(h.trace + [saw], i, k, h.memory.stale[k].firstSeenAt, h.memory.stale[k].pointer)
    {
      var i :| AtRestSince(h.trace, i, k, h.memory.stale[k].firstSeenAt, h.memory.stale[k].pointer);
      RestAppend(h.trace, saw, i, k, h.memory.stale[k].firstSeenAt, h.memory.stale[k].pointer);
    }
  }

  lemma {:induction false} ProbesKeep(h: History, t: Tick, n: nat, end: int)
    requires n <= |t.probes| && Remembers(h) && AllPressesAllowed(h.trace) && TimedBy(h.trace, t.now, end)
    requires forall k :: 0 <= k < |t.probes| ==> ProbeTimed(t, k, end)
    ensures Remembers(AfterProbes(h, t, n)) && AllPressesAllowed(AfterProbes(h, t, n).trace)
    ensures TimedBy(AfterProbes(h, t, n).trace, t.now, end)
  {
    hide Remembers, AfterProbe, AllPressesAllowed, TimedBy;
    if n > 0 {
      ProbesKeep(h, t, n - 1, end);
      assert ProbeTimed(t, n - 1, end);
      ProbeKeeps(AfterProbes(h, t, n - 1), t.probes[n - 1], t, end);
    }
  }

  predicate ProbeTimed(t: Tick, k: nat, end: int)
    requires k < |t.probes|
  {
    t.now <= t.probes[k].readAt <= t.probes[k].pressedAt <= end
  }

  /** Each reading is taken when all before it is done; panes are read after the reading, and Enters come last. */
  predicate Timely(turns: seq<Turn>, end: int) {
    turns == [] ||
    var last := turns[|turns| - 1].tick;
    && Timely(turns[..|turns| - 1], last.now) && last.now <= end
    && forall k :: 0 <= k < |last.probes| ==> ProbeTimed(last, k, end)
  }

  ghost predicate HistorySound(h: History, now: int, end: int) {
    Remembers(h) && AllPressesAllowed(h.trace) && TimedBy(h.trace, now, end)
  }

  lemma {:induction false} RunSound(turns: seq<Turn>, end: int)
    requires WellFormed(turns) && Timely(turns, end)
    ensures HistorySound(Run(turns), end, end) && AllPressesAllowed(Known(turns))
  {
    if turns == [] {
      NothingRun(end);
    } else {
      hide Remembers, AllPressesAllowed, TimedBy, AfterProbes, ProbeTimed;
      var before, last := turns[..|turns| - 1], turns[|turns| - 1];
      RunSound(before, last.tick.now);
      TimedLater(Run(before).trace, last.tick.now, last.tick.now, last.tick.now, end);
      ProbesKeep(Run(before), last.tick, last.looked, end);
      var looked := AfterProbes(Run(before), last.tick, last.looked);
      TimedLater(looked.trace, last.tick.now, end, end, end);
      TimedLater(Run(before).trace, last.tick.now, last.tick.now, end, end);
      if last.saved {
        TickSaved(Run(before), last.tick);
      }
    }
  }

  lemma NothingRun(end: int)
    ensures HistorySound(Run([]), end, end) && AllPressesAllowed([])
  {
  }

  lemma TimedLater(trace: seq<Event>, now: int, end: int, now': int, end': int)
    requires TimedBy(trace, now, end) && now <= now' && end <= end' && (now' == now || end <= now')
    ensures TimedBy(trace, now', end')
  {
  }

  lemma TickSaved(h: History, t: Tick)
    requires Remembers(AfterProbes(h, t, |t.probes|))
    ensures Remembers(AfterTick(h, t)) && AfterTick(h, t).trace == AfterProbes(h, t, |t.probes|).trace
  {
    hide AfterProbes, AtRestSince, LastAccepted, LiveKeys;
  }

  lemma {:induction false} LastAcceptedLies(trace: seq<Event>, i: int, key: string) returns (m: int)
    requires 0 <= i < |trace| && AcceptedPress(trace[i], key)
    ensures i <= m < |trace| && AcceptedPress(trace[m], key) && LastAccepted(trace, key) == Some(trace[m].pointer)
  {
    m := |trace| - 1;
    if !AcceptedPress(trace[m], key) {
      m := LastAcceptedLies(trace[..m], i, key);
    }
  }

  /**
   Over every run of ticks, those that end without saving included: an Enter by the drain follows an observation of
   that pointer on that worker, ten seconds before by the readings and as `Rested` says by the instants, with every
   remembered observation of the worker since finding it at rest; and between two remembered Enters of one pointer on
   one worker that did not fail there is one of a different pointer.
   */
  lemma DrainDiscipline(turns: seq<Turn>, end: int)
    requires WellFormed(turns) && Timely(turns, end)
    ensures var trace := Known(turns);
            && (forall j :: 0 <= j < |trace| && trace[j].Pressed? ==> exists i, at :: RestedSince(trace, i, at, j))
            && (forall i, j :: 0 <= i < j < |trace| && AcceptedPress(trace[i], trace[i].key) && AcceptedPress(trace[j], trace[i].key)
                               && trace[i].pointer == trace[j].pointer ==>
                                 exists m :: i < m < j && AcceptedPress(trace[m], trace[i].key) && trace[m].pointer != trace[j].pointer)
  {
    hide RestedSince, LastAccepted, Run, Known;
    var trace := Known(turns);
    RunSound(turns, end);
    forall j | 0 <= j < |trace| && trace[j].Pressed? ensures exists i, at :: RestedSince(trace, i, at, j) {
      assert PressAllowed(trace, j);
    }
    forall i, j | 0 <= i < j < |trace| && AcceptedPress(trace[i], trace[i].key) && AcceptedPress(trace[j], trace[i].key)
                  && trace[i].pointer == trace[j].pointer
      ensures exists m :: i < m < j && AcceptedPress(trace[m], trace[i].key) && trace[m].pointer != trace[j].pointer
    {
      assert PressAllowed(trace, j);
      var m := LastAcceptedLies(trace[..j], i, trace[i].key);
      assert trace[..j][m] == trace[m];
    }
  }

  // ----- what is remembered -----

  function Presses(trace: seq<Event>): seq<Event> {
    if trace == [] then []
    else Presses(trace[..|trace| - 1]) + if trace[|trace| - 1].Pressed? then [trace[|trace| - 1]] else []
  }

  /** The Enters of the last turn itself, saved or not. */
  function OwnPresses(turns: seq<Turn>): seq<Event>
    requires WellFormed(turns) && turns != []
  {
    var was := |Run(turns[..|turns| - 1]).trace|;
    if was <= |Known(turns)| then Presses(Known(turns)[was..]) else []
  }

  /** Every Enter of a run. */
  function AllPresses(turns: seq<Turn>): seq<Event>
    requires WellFormed(turns)
  {
    if turns == [] then [] else AllPresses(turns[..|turns| - 1]) + OwnPresses(turns)
  }

  /** No turn ended without saving after an Enter. */
  predicate LosesNothing(turns: seq<Turn>)
    requires WellFormed(turns)
  {
    turns == [] || (LosesNothing(turns[..|turns| - 1]) && (turns[|turns| - 1].saved || OwnPresses(turns) == []))
  }

  lemma {:induction false} PressesAppend(a: seq<Event>, b: seq<Event>)
    ensures Presses(a + b) == Presses(a) + Presses(b)
  {
    if b == [] {
      assert a + b == a;
    } else {
      PressesAppend(a, b[..|b| - 1]);
      assert (a + b)[..|a + b| - 1] == a + b[..|b| - 1] && (a + b)[|a + b| - 1] == b[|b| - 1];
      var last := if b[|b| - 1].Pressed? then [b[|b| - 1]] else [];
      assert (Presses(a) + Presses(b[..|b| - 1])) + last == Presses(a) + (Presses(b[..|b| - 1]) + last);
    }
  }

  lemma {:induction false} ProbesExtend(h: History, t: Tick, n: nat)
    requires n <= |t.probes|
    ensures h.trace <= AfterProbes(h, t, n).trace
  {
    hide Looked, LookEvents, Abandoned;
    if n > 0 {
      ProbesExtend(h, t, n - 1);
    }
  }

  /** In such a run every Enter is remembered, in order. */
  lemma {:induction false} NothingForgotten(turns: seq<Turn>)
    requires WellFormed(turns) && LosesNothing(turns)
    ensures AllPresses(turns) == Presses(Run(turns).trace)
  {
    if turns != [] {
      hide AfterProbes, Presses;
      var before, last := turns[..|turns| - 1], turns[|turns| - 1];
      NothingForgotten(before);
      var was := Run(before).trace;
      ProbesExtend(Run(before), last.tick, last.looked);
      assert Known(turns) == was + Known(turns)[|was|..];
      PressesAppend(was, Known(turns)[|was|..]);
    } else {
      assert Presses([]) == [];
    }
  }

  // ----- the limits -----

  /** A tick with one worker to look at. */
  function OneProbe(now: int, p: Probe, inbox: seq<InboxRow>, runs: map<string, string>): Tick {
    Tick.Tick(now, [p], {}, inbox, runs)
  }

  /** A worker on which a pointer stays at rest, even after an Enter that goes out. */
  predicate StaysAtRest(p: Probe, pointer: string, inbox: seq<InboxRow>, runs: map<string, string>) {
    && Live(p.worker) && Abandoned(p, OneProbe(0, p, inbox, runs)) == Some(pointer)
    && Settled(p.pane, pointer).press == Some(Unconfirmed)
  }

  lemma LookedOnce(h: History, p: Probe, pointer: string, now: int, inbox: seq<InboxRow>, runs: map<string, string>)
    requires StaysAtRest(p, pointer, inbox, runs)
    ensures var key, t := WorkerKey(p.worker), OneProbe(now, p, inbox, runs);
            AfterProbes(h, t, 1) == History(Looked(h.memory, key, now, Some(pointer), p.pane), h.trace + LookEvents(h.memory, now, p, Some(pointer)))
            && AfterTick(h, t).trace == AfterProbes(h, t, 1).trace
            && AfterTick(h, t).memory.submitted == AfterProbes(h, t, 1).memory.submitted
            && (key in AfterProbes(h, t, 1).memory.stale ==>
                  key in AfterTick(h, t).memory.stale && AfterTick(h, t).memory.stale[key] == AfterProbes(h, t, 1).memory.stale[key])
  {
    hide WorkerKey, Settled, Looked, LookEvents, TargetRecipient, HasUnread;
    var t := OneProbe(now, p, inbox, runs);
    assert Abandoned(p, t) == Abandoned(p, OneProbe(0, p, inbox, runs));
    assert AfterProbes(h, t, 0) == h;
    assert t.probes[0] == p && WorkerKey(p.worker) in LiveKeys(t.probes);
  }

  /** The second probe of the same worker, with its own instants. */
  function Again(p: Probe, readAt: int, pressedAt: int): Probe {
    p.(readAt := readAt, pressedAt := pressedAt)
  }

  /** A pointer seen at reading 0 and again at `later` is Entered then. */
  lemma PressedLater(
    p: Probe, pointer: string, a: int, later: int, b: int, inbox: seq<InboxRow>, runs: map<string, string>)
    returns (turns: seq<Turn>)
    requires StaysAtRest(p, pointer, inbox, runs) && 0 <= a <= later && later >= DRAIN_AFTER && 0 <= b
    ensures turns == [Turn(OneProbe(0, Again(p, a, a), inbox, runs), 1, true),
                      Turn(OneProbe(later, Again(p, later, later + b), inbox, runs), 1, true)]
    ensures WellFormed(turns) && Timely(turns, later + b)
    ensures var key := WorkerKey(p.worker);
            Known(turns) == [Saw(key, 0, a, Some(pointer)), Saw(key, later, later, Some(pointer)),
                             Pressed(key, later, later + b, pointer, Unconfirmed)]
  {
    var one, two := OneProbe(0, Again(p, a, a), inbox, runs), OneProbe(later, Again(p, later, later + b), inbox, runs);
    turns := [Turn(one, 1, true), Turn(two, 1, true)];
    var key := WorkerKey(p.worker);
    assert turns[..1] == [Turn(one, 1, true)] && turns[..1][..0] == [];
    var start := Run([]);
    AgainRests(p, pointer, a, a, inbox, runs);
    AgainRests(p, pointer, later, later + b, inbox, runs);
    LookedOnce(start, Again(p, a, a), pointer, 0, inbox, runs);
    var seen := Run(turns[..1]);
    assert seen == AfterTick(start, one);
    assert key in seen.memory.stale && seen.memory.stale[key] == Stale(pointer, 0);
    LookedOnce(seen, Again(p, later, later + b), pointer, later, inbox, runs);
    assert ProbeTimed(one, 0, later) && ProbeTimed(two, 0, later + b);
    assert Timely(turns[..1], later);
    hide WorkerKey, Settled, Abandoned;
  }

  lemma AgainRests(p: Probe, pointer: string, readAt: int, pressedAt: int, inbox: seq<InboxRow>, runs: map<string, string>)
    requires StaysAtRest(p, pointer, inbox, runs)
    ensures StaysAtRest(Again(p, readAt, pressedAt), pointer, inbox, runs)
  {
    hide TargetRecipient, HasUnread, Settled;
  }

  /**
   The bound on the instants is met: whatever the read and the Enter lag behind their readings, a run Enters with just
   ten seconds, or the read's lag if that is more, less the one lag and more the other in between. A read that lags
   ten seconds or more leaves no time at all before an Enter that does not lag.
   */
  lemma WaitByLags(p: Probe, pointer: string, a: int, b: int, inbox: seq<InboxRow>, runs: map<string, string>)
    returns (turns: seq<Turn>)
    requires StaysAtRest(p, pointer, inbox, runs) && 0 <= a && 0 <= b
    ensures WellFormed(turns) && exists end :: Timely(turns, end)
    ensures |Known(turns)| == 3 && Known(turns)[0].Saw? && Known(turns)[2].Pressed?
    ensures var wait := Known(turns)[2].pressedAt - Known(turns)[0].readAt;
            && wait == (if a <= DRAIN_AFTER then DRAIN_AFTER - a + b else b)
            && (a <= DRAIN_AFTER ==> (wait >= DRAIN_AFTER <==> a <= b))
  {
    var later := if a <= DRAIN_AFTER then DRAIN_AFTER else a;
    turns := PressedLater(p, pointer, a, later, b, inbox, runs);
    hide *;
    assert Timely(turns, later + b);
  }

  /** A tick that ends without saving forgets its Enters: the next one Enters the same pointer again at once. */
  lemma CutForgets(p: Probe, pointer: string, inbox: seq<InboxRow>, runs: map<string, string>) returns (turns: seq<Turn>)
    requires StaysAtRest(p, pointer, inbox, runs)
    ensures |turns| == 3 && WellFormed(turns) && !turns[1].saved && exists end :: Timely(turns, end)
    ensures var key := WorkerKey(p.worker);
            && OwnPresses(turns[..2]) == [Pressed(key, DRAIN_AFTER, DRAIN_AFTER, pointer, Unconfirmed)]
            && OwnPresses(turns) == [Pressed(key, DRAIN_AFTER + 1, DRAIN_AFTER + 1, pointer, Unconfirmed)]
  {
    hide OwnPresses, Run, Timely, WorkerKey, StaysAtRest, Known, Presses;
    var two := PressedLater(p, pointer, 0, DRAIN_AFTER, 0, inbox, runs);
    var other := PressedLater(p, pointer, 0, DRAIN_AFTER + 1, 0, inbox, runs);
    turns := [two[0], two[1].(saved := false), other[1]];
    CutTurns(two, other, turns);
    CutTimely(two, other, turns, DRAIN_AFTER, DRAIN_AFTER + 1);
    RunOfFirst(p, pointer, inbox, runs, two[0]);
    OwnPressIs(turns[..2]);
    assert turns[..|turns| - 1] == turns[..2];
    OwnPressIs(turns);
  }

  lemma OwnPressIs(turns: seq<Turn>)
    requires WellFormed(turns) && turns != [] && |Run(turns[..|turns| - 1]).trace| == 1
    requires |Known(turns)| == 3 && Known(turns)[1].Saw? && Known(turns)[2].Pressed?
    ensures OwnPresses(turns) == [Known(turns)[2]]
  {
    hide Known, Run, Presses;
    OnePress(Known(turns)[1..]);
  }

  lemma CutTurns(two: seq<Turn>, other: seq<Turn>, turns: seq<Turn>)
    requires |two| == 2 && |other| == 2 && two[0] == other[0] && WellFormed(two) && WellFormed(other)
    requires turns == [two[0], two[1].(saved := false), other[1]]
    ensures WellFormed(turns) && WellFormed(turns[..2]) && WellFormed([two[0]]) && WellFormed(turns[..2][..1])
    ensures Known(turns[..2]) == Known(two) && Known(turns) == Known(other)
    ensures |turns[..2]| == 2 && turns[..2][..1] == [two[0]] && Run(turns[..2]) == Run([two[0]])
  {
    hide AfterProbes, AfterTick;
    var cut := two[1].(saved := false);
    assert turns[..2] == [two[0], cut] && turns[..2][..1] == [two[0]] && two[..1] == [two[0]] && other[..1] == [two[0]];
  }

  lemma CutTimely(two: seq<Turn>, other: seq<Turn>, turns: seq<Turn>, middle: int, end: int)
    requires |two| == 2 && |other| == 2 && two[0] == other[0] && Timely(two, middle) && Timely(other, end)
    requires turns == [two[0], two[1].(saved := false), other[1]] && middle <= other[1].tick.now
    ensures Timely(turns, end)
  {
    var cut := two[1].(saved := false);
    assert turns[..2] == [two[0], cut] && turns[..2][..1] == [two[0]] && two[..1] == [two[0]];
    assert forall k :: 0 <= k < |two[1].tick.probes| ==> ProbeTimed(two[1].tick, k, middle);
    assert Timely(turns[..2], middle);
    TimelyLater(turns[..2], middle, other[1].tick.now);
    hide ProbeTimed;
  }

  lemma TimelyLater(turns: seq<Turn>, end: int, later: int)
    requires Timely(turns, end) && end <= later
    ensures Timely(turns, later)
  {
    if turns != [] {
      var last := turns[|turns| - 1].tick;
      forall k | 0 <= k < |last.probes| ensures ProbeTimed(last, k, later) {
        assert ProbeTimed(last, k, end);
      }
    }
  }

  lemma RunOfFirst(p: Probe, pointer: string, inbox: seq<InboxRow>, runs: map<string, string>, first: Turn)
    requires StaysAtRest(p, pointer, inbox, runs) && first == Turn(OneProbe(0, Again(p, 0, 0), inbox, runs), 1, true)
    ensures |Run([first]).trace| == 1
  {
    AgainRests(p, pointer, 0, 0, inbox, runs);
    LookedOnce(Run([]), Again(p, 0, 0), pointer, 0, inbox, runs);
    assert [first][..0] == [];
  }

  lemma OnePress(trace: seq<Event>)
    requires |trace| == 2 && trace[0].Saw? && trace[1].Pressed?
    ensures Presses(trace) == [trace[1]]
  {
    assert trace[..1] == [trace[0]] && trace[..1][..0] == [];
    assert Presses([]) == [] && Presses(trace[..1]) == [];
  }

  /** The pointer is the check command for this worker's terminal, or for a Run that resolves to it. */
  ghost predicate Targets(pointer: string, w: Worker, runWorkers: map<string, string>, recipient: string) {
    || (pointer == BARE_CHECK + " --terminal " + w.id && w.id != "" && NoSpace(w.id) && recipient == w.id)
    || (exists run :: && run in runWorkers && run != "" && NoSpace(run) && runWorkers[run] == WorkerKey(w)
                      && pointer == BARE_CHECK + " --run " + run && recipient == "run:" + run)
  }

  lemma ArgumentIs(pointer: string, option: string, id: string)
    ensures Argument(pointer, option) == Some(id) <==> pointer == BARE_CHECK + option + id && id != "" && NoSpace(id)
  {
    var head := BARE_CHECK + option;
    if head <= pointer {
      assert pointer == head + pointer[|head|..];
    }
    assert (head + id)[|head|..] == id;
  }

  lemma OptionsDiffer(a: string, b: string)
    ensures BARE_CHECK + " --terminal " + a != BARE_CHECK + " --run " + b
  {
    var x, y, n := BARE_CHECK + " --terminal " + a, BARE_CHECK + " --run " + b, |BARE_CHECK|;
    assert x[n + 3] == " --terminal "[3] && y[n + 3] == " --run "[3];
  }

  lemma TargetIs(pointer: string, w: Worker, runWorkers: map<string, string>, recipient: string)
    ensures TargetRecipient(pointer, w, runWorkers) == Some(recipient) <==> Targets(pointer, w, runWorkers, recipient)
  {
    hide Argument, BARE_CHECK, NoSpace;
    var terminal, run := Argument(pointer, " --terminal "), Argument(pointer, " --run ");
    ArgumentIs(pointer, " --terminal ", w.id);
    forall r ensures run == Some(r) <==> pointer == BARE_CHECK + " --run " + r && r != "" && NoSpace(r) {
      ArgumentIs(pointer, " --run ", r);
    }
    if terminal.Some? {
      ArgumentIs(pointer, " --terminal ", terminal.value);
      forall r ensures pointer != BARE_CHECK + " --run " + r {
        OptionsDiffer(terminal.value, r);
      }
    }
    if Targets(pointer, w, runWorkers, recipient) && terminal.None? {
      var r :| r in runWorkers && r != "" && NoSpace(r) && runWorkers[r] == WorkerKey(w)
               && pointer == BARE_CHECK + " --run " + r && recipient == "run:" + r;
      assert run == Some(r);
    }
  }

  /** Every row the mailbox addresses to the recipient, but for white space around the name, is read or has no id. */
  ghost predicate AllRead(inbox: seq<InboxRow>, recipient: string) {
    forall i :: 0 <= i < |inbox| && Trim(inbox[i].toHandle) == recipient ==> inbox[i].read || Trim(inbox[i].id) == ""
  }

  /**
   A pointer is found at rest exactly when a living Cursor worker shows it, it is the check command for the worker's
   own terminal or for a Run that resolves to it, and the mail of that recipient has all been read.
   */
  lemma AbandonedExactly(p: Probe, t: Tick, pointer: string)
    ensures Abandoned(p, t) == Some(pointer) <==>
            && p.family == CursorComposer && (p.liveness == Idle || p.liveness == Busy)
            && p.screen.Shown? && p.screen.pointer == Some(pointer)
            && exists recipient :: Targets(pointer, p.worker, t.runWorkers, recipient) && AllRead(t.inbox, recipient)
  {
    hide TargetRecipient, Targets;
    forall recipient ensures TargetRecipient(pointer, p.worker, t.runWorkers) == Some(recipient) <==>
                             Targets(pointer, p.worker, t.runWorkers, recipient) {
      TargetIs(pointer, p.worker, t.runWorkers, recipient);
    }
    forall recipient ensures HasUnread(t.inbox, recipient) <==> !AllRead(t.inbox, recipient) {
      UnreadIs(t.inbox, recipient);
    }
    if TargetRecipient(pointer, p.worker, t.runWorkers).Some? {
      assert Targets(pointer, p.worker, t.runWorkers, TargetRecipient(pointer, p.worker, t.runWorkers).value);
    }
  }

  lemma UnreadIs(inbox: seq<InboxRow>, recipient: string)
    ensures HasUnread(inbox, recipient) <==> !AllRead(inbox, recipient)
  {
    if !AllRead(inbox, recipient) {
      var i :| 0 <= i < |inbox| && Trim(inbox[i].toHandle) == recipient && !inbox[i].read && Trim(inbox[i].id) != "";
      assert Unread(inbox[i], recipient);
    }
  }

  /**
   What a look remembers, exactly. The pointer at rest is timed from when it was first seen, until it is gone, another
   one takes its place, it was Entered before, or the Enter is seen to be consumed; an Enter that may have gone out is
   remembered, a failed one is not. No other worker is concerned.
   */
  lemma LookExactly(m: Memory, key: string, now: int, abandoned: Option<string>, pane: Pane)
    ensures var l, press := Looked(m, key, now, abandoned, pane), PressOf(m, key, now, abandoned, pane);
            && (forall k :: k != key ==> SameAt(m, l, k))
            && (press.Some? <==>
                  && abandoned.Some? && SubmittedAt(m, key) != abandoned
                  && key in m.stale && m.stale[key].pointer == abandoned.value && m.stale[key].firstSeenAt + 10_000 <= now
                  && Delivery.Settled(pane, abandoned.value).press.Some?)
            && (key in l.stale <==> abandoned.Some? && SubmittedAt(m, key) != abandoned && press != Some(Consumed))
            && (key in l.stale ==>
                  && l.stale[key].pointer == abandoned.value
                  && l.stale[key].firstSeenAt ==
                     if key in m.stale && m.stale[key].pointer == abandoned.value then m.stale[key].firstSeenAt else now)
            && SubmittedAt(l, key) == if press.Some? && press != Some(Failed) then abandoned else SubmittedAt(m, key)
  {
    hide Delivery.Settled;
  }

  predicate SameAt(a: Memory, b: Memory, key: string) {
    SubmittedAt(a, key) == SubmittedAt(b, key) && StaleAt(a, key) == StaleAt(b, key)
  }

  function StaleAt(m: Memory, key: string): Option<Stale> {
    if key in m.stale then Some(m.stale[key]) else None
  }

  /** A terminal of the local runtime. */
  predicate Here(w: Worker) {
    w.runtime == "orca" && |w.id| >= 5 && w.id[..5] == "term_"
  }

  /** One that this tick has not delivered to. */
  predicate Concerns(p: Probe, t: Tick) {
    Here(p.worker) && WorkerKey(p.worker) !in t.touched
  }

  lemma LiveIsHere(w: Worker)
    ensures Live(w) <==> Here(w)
  {
    assert "term_" <= w.id <==> |w.id| >= 5 && w.id[..5] == "term_";
  }

  lemma ConcernsIsProbed(p: Probe, t: Tick)
    ensures Probed(p, t) <==> Concerns(p, t)
  {
    hide WorkerKey, Live, Here;
    LiveIsHere(p.worker);
  }

  /** What a look does for its worker depends on nothing remembered of the others. */
  lemma LookIsLocal(a: Memory, b: Memory, key: string, now: int, abandoned: Option<string>, pane: Pane)
    requires SameAt(a, b, key)
    ensures SameAt(Looked(a, key, now, abandoned, pane), Looked(b, key, now, abandoned, pane), key)
  {
    hide Delivery.Settled;
  }

  /** Probes of other workers, of workers elsewhere and of those already delivered to change nothing for the key. */
  lemma {:induction false} ProbesSkip(h: History, t: Tick, n: nat, key: string)
    requires n <= |t.probes|
    requires forall i :: 0 <= i < n ==> WorkerKey(t.probes[i].worker) != key || !Concerns(t.probes[i], t)
    ensures SameAt(h.memory, AfterProbes(h, t, n).memory, key)
  {
    hide WorkerKey, Looked, Concerns;
    if n > 0 {
      ProbesSkip(h, t, n - 1, key);
      ProbeAt(AfterProbes(h, t, n - 1), t.probes[n - 1], t, key);
    }
  }

  lemma ProbeAt(h: History, p: Probe, t: Tick, key: string)
    ensures var m := AfterProbe(h, p, t).memory;
            if WorkerKey(p.worker) == key && Concerns(p, t)
            then m == Looked(h.memory, key, t.now, Abandoned(p, t), p.pane)
            else SameAt(h.memory, m, key)
  {
    hide WorkerKey, Looked, Concerns, Abandoned;
    ConcernsIsProbed(p, t);
    if Concerns(p, t) {
      LookExactly(h.memory, WorkerKey(p.worker), t.now, Abandoned(p, t), p.pane);
    }
  }

  lemma {:induction false} ProbesLook(h: History, t: Tick, n: nat, i: nat)
    requires i < n <= |t.probes| && Concerns(t.probes[i], t)
    requires forall j :: 0 <= j < n && j != i ==> WorkerKey(t.probes[j].worker) != WorkerKey(t.probes[i].worker)
    ensures var p, key := t.probes[i], WorkerKey(t.probes[i].worker);
            SameAt(Looked(h.memory, key, t.now, Abandoned(p, t), p.pane), AfterProbes(h, t, n).memory, key)
  {
    hide WorkerKey, Looked, Concerns, Abandoned;
    var p, key := t.probes[i], WorkerKey(t.probes[i].worker);
    ProbeAt(AfterProbes(h, t, n - 1), t.probes[n - 1], t, key);
    if i == n - 1 {
      ProbesSkip(h, t, i, key);
      LookIsLocal(h.memory, AfterProbes(h, t, i).memory, key, t.now, Abandoned(p, t), p.pane);
    } else {
      ProbesLook(h, t, n - 1, i);
    }
  }

  /**
   What a whole tick remembers of a worker: what its look leaves, if it is a terminal here that the tick has not
   delivered to; otherwise what was remembered. Of a worker that is no terminal on the roster no resting pointer stays.
   */
  lemma TickExactly(h: History, t: Tick, key: string)
    requires forall i, j :: 0 <= i < j < |t.probes| ==> WorkerKey(t.probes[i].worker) != WorkerKey(t.probes[j].worker)
    ensures var m := AfterTick(h, t).memory;
            && (forall i :: 0 <= i < |t.probes| && WorkerKey(t.probes[i].worker) == key && Concerns(t.probes[i], t) ==>
                  SameAt(m, Looked(h.memory, key, t.now, Abandoned(t.probes[i], t), t.probes[i].pane), key))
            && ((forall i :: 0 <= i < |t.probes| && WorkerKey(t.probes[i].worker) == key ==> !Concerns(t.probes[i], t)) ==>
                  && SubmittedAt(m, key) == SubmittedAt(h.memory, key)
                  && StaleAt(m, key) == if OnRoster(t, key) then StaleAt(h.memory, key) else None)
  {
    hide WorkerKey, Looked, Abandoned, Live, Concerns;
    var looked := AfterProbes(h, t, |t.probes|);
    forall i | 0 <= i < |t.probes| && WorkerKey(t.probes[i].worker) == key && Concerns(t.probes[i], t)
      ensures SameAt(AfterTick(h, t).memory, Looked(h.memory, key, t.now, Abandoned(t.probes[i], t), t.probes[i].pane), key)
    {
      ProbesLook(h, t, |t.probes|, i);
      ConcernsIsProbed(t.probes[i], t);
      assert key in LiveKeys(t.probes);
    }
    if forall i :: 0 <= i < |t.probes| && WorkerKey(t.probes[i].worker) == key ==> !Concerns(t.probes[i], t) {
      ProbesSkip(h, t, |t.probes|, key);
      RosterIs(t, key);
    }
  }

  predicate OnRoster(t: Tick, key: string) {
    exists i :: 0 <= i < |t.probes| && WorkerKey(t.probes[i].worker) == key && Here(t.probes[i].worker)
  }

  lemma RosterIs(t: Tick, key: string)
    ensures key in LiveKeys(t.probes) <==> OnRoster(t, key)
  {
    hide WorkerKey;
    forall i | 0 <= i < |t.probes| ensures Live(t.probes[i].worker) <==> Here(t.probes[i].worker) {
      LiveIsHere(t.probes[i].worker);
    }
    hide Live, Here;
    if OnRoster(t, key) {
      var i :| 0 <= i < |t.probes| && WorkerKey(t.probes[i].worker) == key && Here(t.probes[i].worker);
      assert Live(t.probes[i].worker);
    }
  }
}
