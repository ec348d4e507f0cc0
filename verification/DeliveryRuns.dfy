/**
 Steps of the delivery engine: deliveries of any messages, the upkeep of reconcile ticks and the releases of
 single submissions, under a clock that does not go back. The trace holds the Enters the ledger accounts for. A
 delivery decides by a clock reading taken before, often at the start of its tick; its Enter comes at or after it.
 */
module DeliveryRuns {
  import opened Basics
  import opened Mail
  import opened Delivery

  /** A message and the worker incarnation its recipient resolves to throughout the run. */
  datatype Home = Home(message: Message, worker: Worker)

  type Directory = map<string, Home>

  /** An Enter: the clock reading it was decided by, and the instant it was pressed. */
  datatype Entered = Entered(id: string, at: int, pressedAt: int, shown: string, outcome: Outcome)

  /** How long after its reading an Enter was pressed. */
  function Lag(e: Entered): int {
    e.pressedAt - e.at
  }

  datatype State = State(ledger: Ledger, clock: int, trace: seq<Entered>)

  datatype Step =
    | Attempt(id: string, now: int, pressedAt: int, pane: Pane, allowConsumedRetry: bool)
    | Upkeep(resolved: bool, unread: seq<(string, string)>, keys: set<string>, active: set<string>)
    | Release(id: string, kept: bool)

  function Key(d: Directory, id: string): string
    requires id in d
  {
    EpisodeKey(d[id].message, d[id].worker)
  }

  ghost predicate DirectoryOk(d: Directory) {
    forall id :: id in d ==> d[id].message.id == id && NulFree(id)
  }

  /** Episodes are about the messages and workers of the directory, with back-off at least the first window. */
  ghost predicate Agrees(d: Directory, eps: Ledger) {
    forall k :: k in eps && eps[k].messageId in d ==> RowAgrees(d, eps[k])
  }

  ghost predicate RowAgrees(d: Directory, row: Episode)
    requires row.messageId in d
  {
    var h := d[row.messageId];
    && row.runId == h.message.runId
    && row.recipient == h.message.recipient
    && row.workerKey == WorkerKey(h.worker)
    && Prior(Some(row)) >= WINDOW
  }

  /**
   `live` messages stay active: no upkeep ever drops them, and it names only current keys; and whenever one was
   found consumed or not retrievable, the mailbox still had it unread.
   */
  ghost predicate Legal(d: Directory, live: set<string>, s: State, step: Step) {
    match step
    case Attempt(id, now, pressedAt, _, _) => id in d && s.clock <= now <= pressedAt
    case Upkeep(resolved, unread, keys, active) =>
      && live <= active
      && (forall p :: p in unread ==> p.0 in d && p.1 == Key(d, p.0))
      && (forall id :: id in live && id in d && resolved ==> Key(d, id) in keys)
    case Release(id, kept) => id in d && (id in live ==> kept)
  }

  ghost function After(d: Directory, s: State, step: Step): State
    requires step.Attempt? || step.Release? ==> step.id in d
  {
    match step
    case Attempt(id, now, pressedAt, pane, allow) =>
      var r := Delivered(s.ledger, d[id].message, d[id].worker, now, pane, allow);
      State(r.ledger, now,
            if r.report.press.Some? then s.trace + [Entered(id, now, pressedAt, ShownPointer(pane), r.report.press.value)] else s.trace)
    case Upkeep(resolved, unread, keys, active) =>
      s.(ledger := Maintained(s.ledger, resolved, unread, keys, active))
    case Release(id, kept) =>
      s.(ledger := MailboxEmptied(s.ledger, d[id].message, d[id].worker, kept))
  }

  /** What the pane shows, empty when it shows no pointer. */
  function ShownPointer(pane: Pane): string {
    var screen := SettledScreen(pane);
    if screen.Shown? then screen.pointer.GetOr("") else ""
  }

  function Pow2(n: nat): (r: nat)
    ensures r >= 1
  {
    if n == 0 then 1 else 2 * Pow2(n - 1)
  }

  /** The wait after the j-th Enter in a row that was not confirmed. */
  function BackoffAfter(j: nat): int {
    if j == 0 then WINDOW else Min(WINDOW * Pow2(j - 1), MAX_BACKOFF)
  }

  /** Unconfirmed Enters of a message since its last one that failed to send. */
  function Streak(trace: seq<Entered>, id: string): nat {
    if trace == [] then 0
    else
      var last := trace[|trace| - 1];
      var before := Streak(trace[..|trace| - 1], id);
      if last.id != id then before
      else match last.outcome
        case Failed => 0
        case Unconfirmed => before + 1
        case Consumed => before
  }

  /** How long the i-th Enter of the trace must hold off the next one of its message. */
  function Hold(trace: seq<Entered>, i: nat): int
    requires i < |trace|
  {
    match trace[i].outcome
    case Failed => 0
    case Unconfirmed => BackoffAfter(Streak(trace[..i + 1], trace[i].id))
    case Consumed => WINDOW
  }

  lemma HoldOfPrefix(trace: seq<Entered>, e: Entered, i: nat)
    requires i < |trace|
    ensures Hold(trace + [e], i) == Hold(trace, i)
  {
    assert (trace + [e])[..i + 1] == trace[..i + 1];
  }

  lemma BackoffBounds(j: nat)
    ensures WINDOW <= BackoffAfter(j) <= MAX_BACKOFF
    ensures BackoffAfter(j + 1) <= Doubled(BackoffAfter(j))
  {
  }

  /** What the ledger remembers about one live message that has been Entered. */
  ghost predicate Remembers(d: Directory, s: State, id: string)
    requires id in d
  {
    && Key(d, id) in s.ledger
    && var e := s.ledger[Key(d, id)];
    && e.messageId == id
    && e.phase in {PointerVisible, Confirmed}
    && Prior(Some(e)) >= BackoffAfter(Streak(s.trace, id) + 1)
    && forall i :: 0 <= i < |s.trace| && s.trace[i].id == id ==> HoldsOff(s, e, i)
  }

  ghost predicate HoldsOff(s: State, e: Episode, i: nat)
    requires i < |s.trace|
  {
    && (s.trace[i].outcome != Failed ==> e.nextEligibleAt >= s.trace[i].at + Hold(s.trace, i))
    && (s.trace[i].outcome == Unconfirmed ==>
          e.phase == PointerVisible || s.clock >= s.trace[i].at + Hold(s.trace, i))
  }

  ghost predicate Invariant(d: Directory, live: set<string>, s: State) {
    && WellKeyed(s.ledger)
    && Agrees(d, s.ledger)
    && (forall i :: 0 <= i < |s.trace| ==> s.trace[i].id in d && s.trace[i].at <= s.clock)
    && (forall i :: 0 <= i < |s.trace| && s.trace[i].id in live ==> Remembers(d, s, s.trace[i].id))
  }

  /** Lifting a claim touches no other message and leaves this one's current claim where it is. */
  lemma LiftFrame(d: Directory, eps: Ledger, id: string)
    requires DirectoryOk(d) && id in d && WellKeyed(eps) && Agrees(d, eps)
    ensures var l := Lift(eps, d[id].message, d[id].worker);
            && WellKeyed(l) && Agrees(d, l)
            && (Key(d, id) in eps ==> l == eps)
            && (forall k :: k in l && l[k].messageId == id ==> k == Key(d, id))
            && (forall j :: j in d && j != id ==>
                  (Key(d, j) in l <==> Key(d, j) in eps) && (Key(d, j) in eps ==> l[Key(d, j)] == eps[Key(d, j)]))
  {
    hide EpisodeKey, StableKeyOr, KeyMessage;
    var m, w := d[id].message, d[id].worker;
    LiftWellKeyed(eps, m, w);
    KeyNamesMessage(m, w);
    forall j | j in d && j != id
      ensures Key(d, j) != Key(d, id) && (Key(d, j) in eps ==> eps[Key(d, j)].messageId == j)
    {
      KeyNamesMessage(d[j].message, d[j].worker);
    }
  }

  /** What one attempt does to the entry under its own key. */
  ghost predicate OwnEntry(before: Ledger, r: Result, key: string, now: int) {
    var was := Lookup(before, key);
    match r.report.press
    case None =>
      was.Some? && was.value.phase in {PointerVisible, Confirmed} ==>
        && key in r.ledger
        && var e := r.ledger[key];
        && e.messageId == was.value.messageId
        && e.phase in {PointerVisible, Confirmed}
        && e.nextEligibleAt >= was.value.nextEligibleAt
        && Prior(Some(e)) == Prior(was)
        && (was.value.phase == PointerVisible && e.phase == Confirmed ==> now >= was.value.nextEligibleAt)
        && (was.value.phase == Confirmed && e.phase == PointerVisible ==> now >= was.value.nextEligibleAt)
    case Some(o) =>
      && key in r.ledger
      && var e := r.ledger[key];
      && (was.Some? ==> now >= was.value.nextEligibleAt)
      && e.phase == (if o == Consumed then Confirmed else PointerVisible)
      && e.nextEligibleAt >= now + (match o case Failed => 0 case Unconfirmed => Prior(was) case Consumed => WINDOW)
      && Prior(Some(e)) >= (match o case Failed => WINDOW case Unconfirmed => Doubled(Prior(was)) case Consumed => Prior(was))
  }

  lemma ObserveOwnEntry(base: Ledger, m: Message, w: Worker, now: int, pane: Pane)
    ensures OwnEntry(base, Observe(base, m, w, now, pane), EpisodeKey(m, w), now)
  {
    hide EpisodeKey, PointerMatchesDelivery, Press, Absent;
    var key, screen := EpisodeKey(m, w), SettledScreen(pane);
    if screen.Shown? && screen.pointer.Some? {
      if Contradicted(base, key, now, screen) {
        ContradictedPress(base, m, w, now, pane, screen.pointer.value);
      } else if !(key in base && base[key].phase == Confirmed) && !(key in base && now < base[key].nextEligibleAt) {
        PressOwnEntry(base, m, w, now, pane, screen.pointer.value);
      }
    } else if screen.Shown? && !(key in base && base[key].phase == Confirmed) && !(key in base && now < base[key].nextEligibleAt) {
      AbsentOwnEntry(base, m, w, now, pane, screen);
    }
  }

  lemma PressOwnEntry(base: Ledger, m: Message, w: Worker, now: int, pane: Pane, pointer: string)
    requires EpisodeKey(m, w) in base ==> base[EpisodeKey(m, w)].phase != Confirmed && base[EpisodeKey(m, w)].nextEligibleAt <= now
    ensures OwnEntry(base, Press(base, m, w, now, pane, pointer), EpisodeKey(m, w), now)
  {
    hide EpisodeKey, WorkerKey, StableKeyOr, Settled;
  }

  lemma ContradictedPress(base: Ledger, m: Message, w: Worker, now: int, pane: Pane, pointer: string)
    requires EpisodeKey(m, w) in base && base[EpisodeKey(m, w)].phase == Confirmed && base[EpisodeKey(m, w)].nextEligibleAt <= now
    ensures var key := EpisodeKey(m, w);
            var reopened := base[key := base[key].(phase := PointerVisible, nextEligibleAt := now)];
            OwnEntry(base, Press(reopened, m, w, now, pane, pointer), key, now)
  {
    hide EpisodeKey, WorkerKey, StableKeyOr, Settled;
  }

  lemma AbsentOwnEntry(base: Ledger, m: Message, w: Worker, now: int, pane: Pane, screen: Screen)
    requires screen.Shown?
    requires EpisodeKey(m, w) in base ==> base[EpisodeKey(m, w)].phase != Confirmed && base[EpisodeKey(m, w)].nextEligibleAt <= now
    ensures OwnEntry(base, Absent(base, m, w, now, pane, screen), EpisodeKey(m, w), now)
  {
    hide EpisodeKey, WorkerKey, StableKeyOr;
  }

  /** The lifted and released ledger a delivery observes the pane with. */
  ghost function Base(d: Directory, eps: Ledger, id: string): Ledger
    requires id in d
  {
    Released(Lift(eps, d[id].message, d[id].worker), Key(d, id))
  }

  /** An attempt keeps the ledger well formed and every other message's entry as it was. */
  lemma AttemptFrame(d: Directory, eps: Ledger, id: string, now: int, pane: Pane, allow: bool)
    requires DirectoryOk(d) && id in d && WellKeyed(eps) && Agrees(d, eps)
    ensures var r := Delivered(eps, d[id].message, d[id].worker, now, pane, allow);
            && WellKeyed(r.ledger) && Agrees(d, r.ledger)
            && (forall j :: j in d && j != id ==> Lookup(r.ledger, Key(d, j)) == Lookup(eps, Key(d, j)))
  {
    hide EpisodeKey, Observe, Delivered, Lift, RowAgrees;
    var m, w := d[id].message, d[id].worker;
    var l := Delivered(eps, m, w, now, pane, allow).ledger;
    var lifted := Lift(eps, m, w);
    var base := Released(lifted, Key(d, id));
    LiftFrame(d, eps, id);
    DeliveredWellKeyed(eps, m, w, now, pane, allow);
    DeliveredStages(eps, m, w, now, pane, allow);
    OtherKeysDiffer(d, id);
    KeyNamesMessage(m, w);
    assert Key(d, id) in base ==> base[Key(d, id)].messageId == id;
    assert Agrees(d, base);
    ObserveAgrees(d, base, id, now, pane);
    ObserveWritesOwnKey(base, m, w, now, pane);
    var observed := Observe(base, m, w, now, pane).ledger;
    assert l == eps || l == lifted || l == base || l == observed;
    assert Agrees(d, l);
    hide Agrees, WellKeyed;
    forall j | j in d && j != id ensures Lookup(l, Key(d, j)) == Lookup(eps, Key(d, j)) {
      assert Lookup(lifted, Key(d, j)) == Lookup(eps, Key(d, j));
      assert Lookup(base, Key(d, j)) == Lookup(lifted, Key(d, j));
      assert Lookup(observed, Key(d, j)) == Lookup(base, Key(d, j));
    }
  }

  /** A press happens only past the observation of the pane, with no sibling claim pending. */
  lemma PressComesFromObservation(eps: Ledger, m: Message, w: Worker, now: int, pane: Pane, allow: bool)
    ensures var r := Delivered(eps, m, w, now, pane, allow);
            var base := Released(Lift(eps, m, w), EpisodeKey(m, w));
            r.report.press.Some? ==>
              && r == Observe(base, m, w, now, pane)
              && !PendingPointerClaim(base, m, w, now, EpisodeKey(m, w))
              && SettledScreen(pane).Shown? && SettledScreen(pane).pointer.Some?
              && PointerMatchesDelivery(SettledScreen(pane).pointer.value, m, w)
  {
    hide EpisodeKey, PointerMatchesDelivery, WorkerKey, BuildDeliveryPointer, Lift;
  }

  /** A standing claim is neither lifted nor released, so an attempt without a press only moves it on. */
  lemma AttemptWithoutPress(eps: Ledger, m: Message, w: Worker, now: int, pane: Pane, allow: bool)
    requires Delivered(eps, m, w, now, pane, allow).report.press.None?
    ensures OwnEntry(eps, Delivered(eps, m, w, now, pane, allow), EpisodeKey(m, w), now)
  {
    hide EpisodeKey, PointerMatchesDelivery, WorkerKey, BuildDeliveryPointer;
    var key := EpisodeKey(m, w);
    if key in eps && eps[key].phase in {PointerVisible, Confirmed} {
      assert Lift(eps, m, w) == eps && Released(eps, key) == eps;
      ObserveOwnEntry(eps, m, w, now, pane);
      DeliveredStages(eps, m, w, now, pane, allow);
    }
  }

  lemma OtherKeysDiffer(d: Directory, id: string)
    requires DirectoryOk(d) && id in d
    ensures forall j :: j in d && j != id ==> Key(d, j) != Key(d, id)
  {
    forall j | j in d && j != id ensures Key(d, j) != Key(d, id) {
      if Key(d, j) == Key(d, id) {
        EpisodeKeyNamesMessage(d[j].message, d[j].worker, d[id].message, d[id].worker);
        assert false;
      }
    }
  }

  lemma ObserveAgrees(d: Directory, base: Ledger, id: string, now: int, pane: Pane)
    requires DirectoryOk(d) && id in d && Agrees(d, base)
    requires Key(d, id) in base ==> base[Key(d, id)].messageId == id
    ensures Agrees(d, Observe(base, d[id].message, d[id].worker, now, pane).ledger)
  {
    hide Observe, EpisodeKey;
    var l := Observe(base, d[id].message, d[id].worker, now, pane).ledger;
    ObserveWritesOwnKey(base, d[id].message, d[id].worker, now, pane);
    if l != base {
      ObserveFits(base, d[id].message, d[id].worker, now, pane);
      assert RowAgrees(d, l[Key(d, id)]);
    }
  }

  /** The entry under the message's key, if there is one, is about this message and worker. */
  ghost predicate Fits(eps: Ledger, m: Message, w: Worker) {
    EpisodeKey(m, w) in eps ==>
      var e := eps[EpisodeKey(m, w)];
      e.runId == m.runId && e.recipient == m.recipient && e.workerKey == WorkerKey(w) && Prior(Some(e)) >= WINDOW
  }

  lemma ObserveFits(base: Ledger, m: Message, w: Worker, now: int, pane: Pane)
    requires Fits(base, m, w)
    ensures Fits(Observe(base, m, w, now, pane).ledger, m, w)
  {
    hide EpisodeKey, PointerMatchesDelivery, Press, Absent, WorkerKey;
    var key, screen := EpisodeKey(m, w), SettledScreen(pane);
    if screen.Shown? && screen.pointer.Some? {
      var eps := if Contradicted(base, key, now, screen) then base[key := base[key].(phase := PointerVisible, nextEligibleAt := now)] else base;
      PressFits(eps, m, w, now, pane, screen.pointer.value);
    } else if screen.Shown? {
      AbsentFits(base, m, w, now, pane, screen);
    }
  }

  lemma PressFits(eps: Ledger, m: Message, w: Worker, now: int, pane: Pane, pointer: string)
    requires Fits(eps, m, w)
    ensures Fits(Press(eps, m, w, now, pane, pointer).ledger, m, w)
  {
    hide EpisodeKey, WorkerKey, StableKeyOr, Settled;
  }

  lemma AbsentFits(eps: Ledger, m: Message, w: Worker, now: int, pane: Pane, screen: Screen)
    requires Fits(eps, m, w) && screen.Shown?
    ensures Fits(Absent(eps, m, w, now, pane, screen).ledger, m, w)
  {
    hide EpisodeKey, WorkerKey, StableKeyOr;
  }

  /** A message keeps its hold when its entry only moves on and the trace gains nothing of its own. */
  lemma KeepsRemembering(d: Directory, s: State, t: State, id: string)
    requires id in d && Remembers(d, s, id) && s.clock <= t.clock
    requires t.trace == s.trace || (|t.trace| == |s.trace| + 1 && t.trace[..|s.trace|] == s.trace && t.trace[|s.trace|].id != id)
    requires
      && Key(d, id) in t.ledger
      && var was, e := s.ledger[Key(d, id)], t.ledger[Key(d, id)];
      && e.messageId == id
      && e.phase in {PointerVisible, Confirmed}
      && e.nextEligibleAt >= was.nextEligibleAt
      && Prior(Some(e)) == Prior(Some(was))
      && (was.phase == PointerVisible && e.phase == Confirmed ==> t.clock >= was.nextEligibleAt)
    ensures Remembers(d, t, id)
  {
    hide EpisodeKey;
    assert Streak(t.trace, id) == Streak(s.trace, id);
    var was, e := s.ledger[Key(d, id)], t.ledger[Key(d, id)];
    forall i | 0 <= i < |t.trace| && t.trace[i].id == id
      ensures HoldsOff(t, e, i)
    {
      assert HoldsOff(s, was, i);
      assert t.trace[..i + 1] == s.trace[..i + 1];
    }
  }

  lemma HoldOfLast(trace: seq<Entered>, e: Entered)
    ensures var t, n := trace + [e], Streak(trace, e.id);
            && Streak(t, e.id) == (match e.outcome case Failed => 0 case Unconfirmed => n + 1 case Consumed => n)
            && Hold(t, |trace|) == (match e.outcome case Failed => 0 case Unconfirmed => BackoffAfter(n + 1) case Consumed => WINDOW)
  {
    var t := trace + [e];
    assert t[..|t| - 1] == trace && t[..|trace| + 1] == t;
  }

  /** A press leaves behind an entry that holds off the next one for as long as its outcome asks. */
  lemma PressIsRemembered(d: Directory, s: State, t: State, id: string, pressedAt: int, shown: string, o: Outcome, base: Ledger, r: Result)
    requires id in d && s.clock <= t.clock
    requires t.trace == s.trace + [Entered(id, t.clock, pressedAt, shown, o)]
    requires Key(d, id) in t.ledger && t.ledger[Key(d, id)].messageId == id
    requires r.report.press == Some(o) && t.ledger == r.ledger && OwnEntry(base, r, Key(d, id), t.clock)
    requires Prior(Lookup(base, Key(d, id))) >= BackoffAfter(Streak(s.trace, id) + 1)
    requires forall i :: 0 <= i < |s.trace| && s.trace[i].id == id ==>
                           Key(d, id) in base && HoldsOff(s, base[Key(d, id)], i)
    ensures Remembers(d, t, id)
  {
    hide EpisodeKey, BackoffAfter, Streak, Hold;
    var n := Streak(s.trace, id);
    var e := t.ledger[Key(d, id)];
    HoldOfLast(s.trace, Entered(id, t.clock, pressedAt, shown, o));
    BackoffBounds(n + 1);
    BackoffBounds(n);
    BackoffBounds(0);
    assert BackoffAfter(1) == WINDOW by { FirstWait(); }
    forall i | 0 <= i < |t.trace| && t.trace[i].id == id
      ensures HoldsOff(t, e, i)
    {
      if i < |s.trace| {
        assert HoldsOff(s, base[Key(d, id)], i);
        HoldOfPrefix(s.trace, t.trace[|s.trace|], i);
      }
    }
  }

  lemma FirstWait()
    ensures BackoffAfter(1) == WINDOW
  {
    assert Pow2(0) == 1;
  }

  lemma NoStreakWithoutEnter(trace: seq<Entered>, id: string)
    requires forall i :: 0 <= i < |trace| ==> trace[i].id != id
    ensures Streak(trace, id) == 0
  {
  }

  lemma AttemptKeepsInvariant(d: Directory, live: set<string>, s: State, step: Step)
    requires DirectoryOk(d) && Invariant(d, live, s) && step.Attempt? && Legal(d, live, s, step)
    ensures Invariant(d, live, After(d, s, step))
  {
    hide EpisodeKey;
    var Attempt(id, now, pressedAt, pane, allow) := step;
    var m, w := d[id].message, d[id].worker;
    var t := After(d, s, step);
    var r := Delivered(s.ledger, m, w, now, pane, allow);
    AttemptFrame(d, s.ledger, id, now, pane, allow);
    PressComesFromObservation(s.ledger, m, w, now, pane, allow);
    forall i | 0 <= i < |t.trace| && t.trace[i].id in live
      ensures Remembers(d, t, t.trace[i].id)
    {
      var j := t.trace[i].id;
      if j != id {
        assert Remembers(d, s, j);
        assert Lookup(t.ledger, Key(d, j)) == Lookup(s.ledger, Key(d, j));
        KeepsRemembering(d, s, t, j);
      } else if r.report.press.None? {
        assert Remembers(d, s, j);
        AttemptWithoutPress(s.ledger, m, w, now, pane, allow);
        KeepsRemembering(d, s, t, j);
      } else {
        PressKeepsMemory(d, live, s, id, now, pressedAt, pane, allow);
      }
    }
  }

  lemma PressKeepsMemory(
    d: Directory, live: set<string>, s: State, id: string, now: int, pressedAt: int, pane: Pane, allow: bool)
    requires DirectoryOk(d) && id in d && id in live && s.clock <= now && Invariant(d, live, s)
    requires Delivered(s.ledger, d[id].message, d[id].worker, now, pane, allow).report.press.Some?
    ensures Remembers(d, After(d, s, Attempt(id, now, pressedAt, pane, allow)), id)
  {
    hide EpisodeKey, Lift, Released, Observe, Delivered, BackoffAfter, HoldsOff;
    var m, w, key := d[id].message, d[id].worker, Key(d, id);
    var t := After(d, s, Attempt(id, now, pressedAt, pane, allow));
    var r := Delivered(s.ledger, m, w, now, pane, allow);
    var base := Base(d, s.ledger, id);
    BaseEntry(d, s.ledger, id);
    PressComesFromObservation(s.ledger, m, w, now, pane, allow);
    ObserveOwnEntry(base, m, w, now, pane);
    ObserveWritesOwnKey(base, m, w, now, pane);
    var was := Lookup(base, key);
    if forall i :: 0 <= i < |s.trace| ==> s.trace[i].id != id {
      NoStreakWithoutEnter(s.trace, id);
      FirstWait();
    } else {
      assert Remembers(d, s, id);
      assert forall i :: 0 <= i < |s.trace| && s.trace[i].id == id ==> HoldsOff(s, base[key], i);
    }
    assert Prior(was) >= BackoffAfter(Streak(s.trace, id) + 1);
    PressIsRemembered(d, s, t, id, pressedAt, ShownPointer(pane), r.report.press.value, base, r);
  }

  /** The entry an observation starts from is the message's own; a standing claim is the stored one. */
  lemma BaseEntry(d: Directory, eps: Ledger, id: string)
    requires DirectoryOk(d) && id in d && WellKeyed(eps) && Agrees(d, eps)
    ensures var base, key := Base(d, eps, id), Key(d, id);
            && (key in base ==> base[key].messageId == id && Prior(Some(base[key])) >= WINDOW)
            && (key in eps && eps[key].phase in {PointerVisible, Confirmed} ==> key in base && base[key] == eps[key])
  {
    LiftFrame(d, eps, id);
    KeyNamesMessage(d[id].message, d[id].worker);
    var base, key := Base(d, eps, id), Key(d, id);
    assert key in base ==> base[key].messageId == id && RowAgrees(d, base[key]);
  }

  /** Upkeep relocates claims; an episode already under its message's key stays as it is. */
  lemma {:induction false} MigrateKeeps(d: Directory, eps: Ledger, unread: seq<(string, string)>)
    requires DirectoryOk(d) && WellKeyed(eps) && Agrees(d, eps)
    requires forall p :: p in unread ==> p.0 in d && p.1 == Key(d, p.0)
    ensures var l := Migrate(eps, unread);
            && WellKeyed(l) && Agrees(d, l)
            && forall j :: j in d && Key(d, j) in eps ==> Key(d, j) in l && l[Key(d, j)] == eps[Key(d, j)]
  {
    if unread != [] {
      var n := |unread| - 1;
      assert forall p :: p in unread[..n] ==> p in unread;
      MigrateKeeps(d, eps, unread[..n]);
      assert unread[n] in unread;
      MigrateOneKeeps(d, Migrate(eps, unread[..n]), unread[n].0);
    }
  }

  lemma MigrateOneKeeps(d: Directory, eps: Ledger, id: string)
    requires DirectoryOk(d) && WellKeyed(eps) && Agrees(d, eps) && id in d
    ensures var l := MigrateOne(eps, id, Key(d, id));
            && WellKeyed(l) && Agrees(d, l)
            && forall j :: j in d && Key(d, j) in eps ==> Key(d, j) in l && l[Key(d, j)] == eps[Key(d, j)]
  {
    hide EpisodeKey;
    var key := Key(d, id);
    KeyNamesMessage(d[id].message, d[id].worker);
    if LegacyKeys(eps, key, id) != {} {
      var k :| k in LegacyKeys(eps, key, id);
      MigratedFrom(eps, id, key, k);
      PutWellKeyed(eps - {k}, key, eps[k]);
      OtherKeysDiffer(d, id);
      forall j | j in d && Key(d, j) in eps ensures Key(d, j) != k {
        KeyNamesMessage(d[j].message, d[j].worker);
      }
    }
  }

  lemma MigratedFrom(eps: Ledger, id: string, key: string, k: string)
    requires LegacyKeys(eps, key, id) == {k} && key !in eps
    ensures k in eps && k != key && eps[k].messageId == id
    ensures MigrateOne(eps, id, key) == (eps - {k})[key := eps[k]]
  {
    assert k in LegacyKeys(eps, key, id);
    assert eps[key := eps[k]] - {k} == (eps - {k})[key := eps[k]];
  }

  lemma MaintainedKeeps(d: Directory, live: set<string>, eps: Ledger, step: Step)
    requires DirectoryOk(d) && WellKeyed(eps) && Agrees(d, eps)
    requires step.Upkeep? && Legal(d, live, State(eps, 0, []), step)
    ensures var l := Maintained(eps, step.resolved, step.unread, step.keys, step.active);
            && WellKeyed(l) && Agrees(d, l)
            && forall j :: j in d && j in live && Key(d, j) in eps && eps[Key(d, j)].messageId == j ==>
                             Key(d, j) in l && l[Key(d, j)] == eps[Key(d, j)]
  {
    hide EpisodeKey, Migrate;
    if step.resolved {
      MigrateKeeps(d, eps, step.unread);
    }
  }

  lemma UpkeepKeepsInvariant(d: Directory, live: set<string>, s: State, step: Step)
    requires DirectoryOk(d) && Invariant(d, live, s) && step.Upkeep? && Legal(d, live, s, step)
    ensures Invariant(d, live, After(d, s, step))
  {
    hide EpisodeKey, Maintained;
    var t := After(d, s, step);
    MaintainedKeeps(d, live, s.ledger, step);
    forall i | 0 <= i < |t.trace| && t.trace[i].id in live
      ensures Remembers(d, t, t.trace[i].id)
    {
      assert Remembers(d, s, s.trace[i].id);
      KeepsRemembering(d, s, t, s.trace[i].id);
    }
  }

  /** A release drops no entry of a message that stays active. */
  lemma ReleaseKeepsInvariant(d: Directory, live: set<string>, s: State, step: Step)
    requires DirectoryOk(d) && Invariant(d, live, s) && step.Release? && Legal(d, live, s, step)
    ensures Invariant(d, live, After(d, s, step))
  {
    hide EpisodeKey;
    var t := After(d, s, step);
    OtherKeysDiffer(d, step.id);
    forall i | 0 <= i < |t.trace| && t.trace[i].id in live
      ensures Remembers(d, t, t.trace[i].id)
    {
      assert Remembers(d, s, s.trace[i].id);
      KeepsRemembering(d, s, t, s.trace[i].id);
    }
  }

  /**
   The guard is needed: when a message that may still be retried is found consumed and released, its hold is
   forgotten, and the very next attempt presses Enter again.
   */
  lemma ReleaseForgets(m: Message, w: Worker, now: int, pane: Pane)
    requires IdentityComplete(w) && pane.family == Cursor && pane.familyAtEnter == Cursor
    requires pane.livenessAtEnter != Gone && pane.dispatch != SendFailed && pane.afterEnter == SettledScreen(pane)
    requires PointerMatchesDelivery(ShownPointer(pane), m, w)
    ensures var first := Delivered(map[], m, w, now, pane, true);
            var second := Delivered(MailboxEmptied(first.ledger, m, w, false), m, w, now, pane, true);
            first.report.press == Some(Unconfirmed) && second.report.press == Some(Unconfirmed)
    ensures var first := Delivered(map[], m, w, now, pane, true);
            Delivered(MailboxEmptied(first.ledger, m, w, true), m, w, now, pane, true).report == Report(Backoff, None)
  {
    hide EpisodeKey, WorkerKey, BuildDeliveryPointer;
    NoEmptyPointer(m, w);
    var first := Delivered(map[], m, w, now, pane, true);
    assert MailboxEmptied(first.ledger, m, w, false) == map[];
  }

  lemma NoEmptyPointer(m: Message, w: Worker)
    ensures !PointerMatchesDelivery("", m, w)
  {
    MatchIsOwnCommand("", m, w);
    assert |CheckCommand(m)| >= |BARE_CHECK|;
  }

  /** The later Enter `e` waits for what the i-th one asked for: by the readings, and by the instants but for the lags. */
  ghost predicate Respects(d: Directory, trace: seq<Entered>, i: nat, e: Entered)
    requires i < |trace| && trace[i].id in d && e.id in d
  {
    var a, b := d[trace[i].id], d[e.id];
    && (trace[i].id == e.id && trace[i].outcome != Failed ==> Waits(trace, i, e) && Hold(trace, i) >= WINDOW)
    && (trace[i].outcome == Unconfirmed
        && WorkerKey(a.worker) == WorkerKey(b.worker)
        && BuildDeliveryPointer(a.message) == BuildDeliveryPointer(b.message) ==>
          Waits(trace, i, e))
  }

  ghost predicate Waits(trace: seq<Entered>, i: nat, e: Entered)
    requires i < |trace|
  {
    && e.at >= trace[i].at + Hold(trace, i)
    && e.pressedAt >= trace[i].pressedAt + Hold(trace, i) - Lag(trace[i]) + Lag(e)
  }

  ghost predicate Disciplined(d: Directory, live: set<string>, trace: seq<Entered>) {
    && (forall i :: 0 <= i < |trace| ==>
                      trace[i].id in d && PointerMatchesDelivery(trace[i].shown, d[trace[i].id].message, d[trace[i].id].worker))
    && (forall i, j :: 0 <= i < j < |trace| && trace[i].id in live ==> Respects(d, trace, i, trace[j]))
  }

  lemma OwnEnterRespects(d: Directory, live: set<string>, s: State, step: Step, i: nat)
    requires DirectoryOk(d) && Invariant(d, live, s) && step.Attempt? && Legal(d, live, s, step)
    requires i < |s.trace| && s.trace[i].id in live && s.trace[i].id == step.id
    requires Delivered(s.ledger, d[step.id].message, d[step.id].worker, step.now, step.pane, step.allowConsumedRetry).report.press.Some?
    ensures s.trace[i].outcome != Failed ==> step.now >= s.trace[i].at + Hold(s.trace, i)
  {
    hide EpisodeKey;
    var Attempt(id, now, pressedAt, pane, allow) := step;
    var m, w := d[id].message, d[id].worker;
    var base := Base(d, s.ledger, id);
    PressComesFromObservation(s.ledger, m, w, now, pane, allow);
    ObserveOwnEntry(base, m, w, now, pane);
    BaseEntry(d, s.ledger, id);
    assert Remembers(d, s, id);
    assert HoldsOff(s, s.ledger[Key(d, id)], i);
  }

  /** Without a pending claim, a visible sibling claim of the same worker and pointer is due. */
  lemma SiblingIsDue(base: Ledger, m: Message, w: Worker, now: int, key: string, k: string, n: Message)
    requires !PendingPointerClaim(base, m, w, now, key)
    requires k in base && k != key && base[k].phase == PointerVisible && base[k].workerKey == WorkerKey(w)
    requires base[k].runId == n.runId && base[k].recipient == n.recipient
    requires BuildDeliveryPointer(n) == BuildDeliveryPointer(m)
    ensures now >= base[k].nextEligibleAt
  {
    assert !PendingAt(base, m, w, now, key, k);
  }

  lemma BaseKeepsOthers(d: Directory, eps: Ledger, id: string, j: string)
    requires DirectoryOk(d) && id in d && j in d && j != id && WellKeyed(eps) && Agrees(d, eps)
    requires Key(d, j) in eps
    ensures Key(d, j) != Key(d, id) && Key(d, j) in Base(d, eps, id) && Base(d, eps, id)[Key(d, j)] == eps[Key(d, j)]
  {
    hide EpisodeKey, Lift, Agrees, WellKeyed;
    LiftFrame(d, eps, id);
    OtherKeysDiffer(d, id);
  }

  lemma SiblingEnterRespects(d: Directory, live: set<string>, s: State, step: Step, i: nat)
    requires DirectoryOk(d) && Invariant(d, live, s) && step.Attempt? && Legal(d, live, s, step)
    requires i < |s.trace| && s.trace[i].id in live && s.trace[i].id != step.id && s.trace[i].outcome == Unconfirmed
    requires WorkerKey(d[s.trace[i].id].worker) == WorkerKey(d[step.id].worker)
    requires BuildDeliveryPointer(d[s.trace[i].id].message) == BuildDeliveryPointer(d[step.id].message)
    requires Delivered(s.ledger, d[step.id].message, d[step.id].worker, step.now, step.pane, step.allowConsumedRetry).report.press.Some?
    ensures step.now >= s.trace[i].at + Hold(s.trace, i)
  {
    hide EpisodeKey, WorkerKey, BuildDeliveryPointer, Lift, Released, Observe;
    var Attempt(id, now, pressedAt, pane, allow) := step;
    var m, w := d[id].message, d[id].worker;
    var j := s.trace[i].id;
    var base := Base(d, s.ledger, id);
    PressComesFromObservation(s.ledger, m, w, now, pane, allow);
    assert Remembers(d, s, j);
    var held := s.ledger[Key(d, j)];
    assert HoldsOff(s, held, i) && RowAgrees(d, held);
    BaseKeepsOthers(d, s.ledger, id, j);
    if held.phase == PointerVisible {
      SiblingIsDue(base, m, w, now, Key(d, id), Key(d, j), d[j].message);
    }
  }

  lemma AttemptRespects(d: Directory, live: set<string>, s: State, step: Step, i: nat, e: Entered)
    requires DirectoryOk(d) && Invariant(d, live, s) && step.Attempt? && Legal(d, live, s, step)
    requires i < |s.trace| && s.trace[i].id in live
    requires Delivered(s.ledger, d[step.id].message, d[step.id].worker, step.now, step.pane, step.allowConsumedRetry).report.press.Some?
    requires e.id == step.id && e.at == step.now
    ensures Respects(d, s.trace, i, e)
  {
    hide EpisodeKey, WorkerKey, BuildDeliveryPointer;
    BackoffBounds(Streak(s.trace[..i + 1], s.trace[i].id));
    if s.trace[i].id == step.id {
      OwnEnterRespects(d, live, s, step, i);
    } else if s.trace[i].outcome == Unconfirmed
              && WorkerKey(d[s.trace[i].id].worker) == WorkerKey(d[step.id].worker)
              && BuildDeliveryPointer(d[s.trace[i].id].message) == BuildDeliveryPointer(d[step.id].message) {
      SiblingEnterRespects(d, live, s, step, i);
    }
  }

  lemma GrownTraceDisciplined(d: Directory, live: set<string>, trace: seq<Entered>, e: Entered)
    requires Disciplined(d, live, trace)
    requires e.id in d && PointerMatchesDelivery(e.shown, d[e.id].message, d[e.id].worker)
    requires forall i :: 0 <= i < |trace| && trace[i].id in live ==> Respects(d, trace, i, e)
    ensures Disciplined(d, live, trace + [e])
  {
    hide PointerMatchesDelivery, WorkerKey, BuildDeliveryPointer, Hold;
    forall i, j | 0 <= i < j < |trace + [e]| && trace[i].id in live
      ensures Respects(d, trace + [e], i, (trace + [e])[j])
    {
      HoldOfPrefix(trace, e, i);
      assert Respects(d, trace, i, (trace + [e])[j]);
    }
  }

  lemma StepKeepsDiscipline(d: Directory, live: set<string>, s: State, step: Step)
    requires DirectoryOk(d) && Invariant(d, live, s) && Legal(d, live, s, step)
    requires Disciplined(d, live, s.trace)
    ensures Invariant(d, live, After(d, s, step)) && Disciplined(d, live, After(d, s, step).trace)
  {
    hide EpisodeKey, Delivered, PointerMatchesDelivery, Respects, Remembers, WellKeyed, Agrees;
    var t := After(d, s, step);
    if step.Upkeep? {
      UpkeepKeepsInvariant(d, live, s, step);
    } else if step.Release? {
      ReleaseKeepsInvariant(d, live, s, step);
    } else {
      var Attempt(id, now, pressedAt, pane, allow) := step;
      AttemptKeepsInvariant(d, live, s, step);
      PressComesFromObservation(s.ledger, d[id].message, d[id].worker, now, pane, allow);
      if Delivered(s.ledger, d[id].message, d[id].worker, now, pane, allow).report.press.Some? {
        var e := t.trace[|s.trace|];
        forall i | 0 <= i < |s.trace| && s.trace[i].id in live
          ensures Respects(d, s.trace, i, e)
        {
          AttemptRespects(d, live, s, step, i, e);
        }
        GrownTraceDisciplined(d, live, s.trace, e);
      }
    }
  }
}
