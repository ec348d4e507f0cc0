/**
 Runs of watch mode: looks at workers, saves, re-reads of the store, and restarts that begin from nothing but
 the store.
 */
module WatchRuns {
  import opened Basics
  import opened Watch

  /** A look at a worker, and the Enter it led to. */
  datatype Event = Event(key: string, look: Look, enter: Option<Enter>)

  /** `saved` tells that the store was written after the last look. */
  datatype State = State(memory: Memory, store: seq<Row>, saved: bool, trace: seq<Event>)

  datatype Step = Observe(identity: Identity, look: Look) | Persist(rows: seq<Row>) | Rehydrate | Restart

  ghost predicate Legal(s: State, step: Step) {
    match step
    case Observe(identity, _) => Clean(identity)
    case Persist(rows) => Stores(rows, s.memory)
    case Rehydrate => true
    case Restart => s.saved
  }

  function After(s: State, step: Step): State {
    match step
    case Observe(identity, l) =>
      var key := KeyOf(identity);
      State(Settled(s.memory, key, l), s.store, false, s.trace + [Event(key, l, EnterOf(s.memory, key, l))])
    case Persist(rows) => s.(store := rows, saved := true)
    case Rehydrate => s.(memory := Hydrated(s.memory, s.store))
    case Restart => s.(memory := Hydrated(EMPTY, s.store))
  }

  ghost predicate IsRun(steps: seq<Step>, states: seq<State>) {
    && |states| == |steps| + 1
    && forall i :: 0 <= i < |steps| ==> Legal(states[i], steps[i]) && states[i + 1] == After(states[i], steps[i])
  }

  /** The event is an Enter for the pointer of the worker. */
  predicate Enters(e: Event, key: string, pointer: string) {
    e.key == key && e.enter.Some? && e.look.screen.Shown? && e.look.screen.pointer == Some(pointer)
  }

  predicate ShowsOther(e: Event, key: string, pointer: string) {
    e.key == key && e.look.screen.Shown? && e.look.screen.pointer != Some(pointer)
  }

  ghost predicate ShownOtherBetween(trace: seq<Event>, i: int, j: int, key: string, pointer: string)
    requires 0 <= i && j <= |trace|
  {
    exists n :: i < n < j && ShowsOther(trace[n], key, pointer)
  }

  /** An ambiguous Enter is remembered for good. */
  ghost predicate KeepsAmbiguous(s: State, key: string, pointer: string) {
    pointer in AmbiguousAt(s.memory, key) && (s.saved ==> HasRow(s.store, key, pointer, true))
  }

  /** An accepted Enter is remembered until the worker shows something else. */
  ghost predicate KeepsAccepted(s: State, i: nat, key: string, pointer: string)
    requires i < |s.trace|
  {
    || ShownOtherBetween(s.trace, i, |s.trace|, key, pointer)
    || (&& key in s.memory.submitted && s.memory.submitted[key] == pointer
        && (s.saved ==> exists n :: FirstRow(s.store, key, n) && s.store[n].pointer == pointer))
  }

  ghost predicate Kept(s: State, i: nat)
    requires i < |s.trace|
  {
    forall p: string :: Enters(s.trace[i], s.trace[i].key, p) ==>
      && (s.trace[i].enter == Some(Ambiguous) ==> KeepsAmbiguous(s, s.trace[i].key, p))
      && (s.trace[i].enter == Some(Accepted) ==> KeepsAccepted(s, i, s.trace[i].key, p))
  }

  /** The two promises, for the Enters at `i` and at the later `j`. */
  ghost predicate Apart(trace: seq<Event>, i: nat, j: nat)
    requires i < j < |trace|
  {
    forall p: string :: Enters(trace[i], trace[i].key, p) && Enters(trace[j], trace[i].key, p) ==>
      && trace[i].enter != Some(Ambiguous)
      && (trace[i].enter == Some(Accepted) ==> ShownOtherBetween(trace, i, j, trace[i].key, p))
  }

  ghost predicate Invariant(s: State) {
    && (forall i :: 0 <= i < |s.trace| ==> Kept(s, i))
    && (forall i, j :: 0 <= i < j < |s.trace| ==> Apart(s.trace, i, j))
  }

  lemma {:induction false} HydratedGrows(m: Memory, rows: seq<Row>)
    ensures var h := Hydrated(m, rows);
            && (forall k :: k in m.submitted ==> k in h.submitted && h.submitted[k] == m.submitted[k])
            && (forall k, p :: p in AmbiguousAt(m, k) ==> p in AmbiguousAt(h, k))
  {
    hide KeyOf;
    if rows != [] {
      HydratedGrows(m, rows[..|rows| - 1]);
    }
  }

  lemma HasRowGrows(rows: seq<Row>, row: Row, key: string, pointer: string)
    ensures HasRow(rows + [row], key, pointer, true) <==>
            HasRow(rows, key, pointer, true) || (KeyOf(row.identity) == key && row.pointer == pointer && row.ambiguous)
  {
    hide KeyOf;
    var all := rows + [row];
    if HasRow(rows, key, pointer, true) {
      var i :| 0 <= i < |rows| && KeyOf(rows[i].identity) == key && rows[i].pointer == pointer && rows[i].ambiguous == true;
      assert all[i] == rows[i];
    }
    if HasRow(all, key, pointer, true) {
      var i :| 0 <= i < |all| && KeyOf(all[i].identity) == key && all[i].pointer == pointer && all[i].ambiguous == true;
      assert i < |rows| ==> all[i] == rows[i];
    }
    assert all[|rows|] == row;
  }

  lemma FirstRowGrows(rows: seq<Row>, row: Row, key: string, n: int)
    ensures n < |rows| ==> (FirstRow(rows + [row], key, n) <==> FirstRow(rows, key, n))
  {
    hide KeyOf;
    assert forall i :: 0 <= i < |rows| ==> (rows + [row])[i] == rows[i];
  }

  /** Hydration adds exactly the ambiguous pairs of the rows. */
  lemma {:induction false} HydratedAmbiguous(m: Memory, rows: seq<Row>, key: string, pointer: string)
    ensures pointer in AmbiguousAt(Hydrated(m, rows), key) <==>
            pointer in AmbiguousAt(m, key) || HasRow(rows, key, pointer, true)
  {
    hide KeyOf, HasRow;
    if rows == [] {
      assert !HasRow([], key, pointer, true) by { NoRows(key, pointer); }
    } else {
      var init, row := rows[..|rows| - 1], rows[|rows| - 1];
      HydratedAmbiguous(m, init, key, pointer);
      HasRowGrows(init, row, key, pointer);
      assert rows == init + [row];
    }
  }

  lemma NoRows(key: string, pointer: string)
    ensures !HasRow([], key, pointer, true)
  {
  }

  /** A worker that was not known gets the pointer of its first row. */
  lemma {:induction false} HydratedSubmitted(m: Memory, rows: seq<Row>, key: string)
    requires key !in m.submitted
    ensures var h := Hydrated(m, rows);
            && (key in h.submitted ==> exists n :: FirstRow(rows, key, n) && rows[n].pointer == h.submitted[key])
            && (forall n :: FirstRow(rows, key, n) ==> key in h.submitted && h.submitted[key] == rows[n].pointer)
  {
    hide KeyOf, FirstRow;
    if rows == [] {
      NoFirstRow(key);
    } else {
      var last := |rows| - 1;
      var init, row := rows[..last], rows[last];
      assert rows == init + [row];
      HydratedSubmitted(m, init, key);
      forall n ensures n < last ==> (FirstRow(rows, key, n) <==> FirstRow(init, key, n)) {
        FirstRowGrows(init, row, key, n);
      }
      LastRowFirst(m, rows, key);
      if key in Hydrated(m, init).submitted {
        FirstRowCarries(init, row, key, Hydrated(m, init).submitted[key]);
      }
    }
  }

  lemma FirstRowCarries(rows: seq<Row>, row: Row, key: string, pointer: string)
    requires exists n :: FirstRow(rows, key, n) && rows[n].pointer == pointer
    ensures exists n :: FirstRow(rows + [row], key, n) && (rows + [row])[n].pointer == pointer
  {
    hide KeyOf;
    var n :| FirstRow(rows, key, n) && rows[n].pointer == pointer;
    FirstRowGrows(rows, row, key, n);
    assert (rows + [row])[n] == rows[n];
  }

  lemma NoFirstRow(key: string)
    ensures forall n :: !FirstRow([], key, n)
  {
  }

  lemma LastRowFirst(m: Memory, rows: seq<Row>, key: string)
    requires rows != [] && key !in m.submitted
    ensures var init := rows[..|rows| - 1];
            && (forall n :: FirstRow(rows, key, n) ==> 0 <= n < |rows|)
            && (key in Hydrated(m, init).submitted && (exists n :: FirstRow(init, key, n)) ==> !FirstRow(rows, key, |rows| - 1))
            && (key !in Hydrated(m, init).submitted && KeyOf(rows[|rows| - 1].identity) == key ==> FirstRow(rows, key, |rows| - 1))
            && (FirstRow(rows, key, |rows| - 1) ==> KeyOf(rows[|rows| - 1].identity) == key)
  {
    hide KeyOf, Hydrated;
    var init := rows[..|rows| - 1];
    if key !in Hydrated(m, init).submitted {
      NoRowBefore(m, init, key);
    }
    if exists n :: FirstRow(init, key, n) {
      var n :| FirstRow(init, key, n);
      assert rows[n] == init[n];
    }
  }

  lemma {:induction false} NoRowBefore(m: Memory, rows: seq<Row>, key: string)
    requires key !in Hydrated(m, rows).submitted
    ensures forall i :: 0 <= i < |rows| ==> KeyOf(rows[i].identity) != key
  {
    hide KeyOf;
    if rows != [] {
      NoRowBefore(m, rows[..|rows| - 1], key);
    }
  }

  /** Saving and hydrating from nothing blocks exactly the pairs that were blocked, and keeps what was submitted. */
  lemma SaveThenHydrate(m: Memory, rows: seq<Row>)
    requires CleanMemory(m) && Stores(rows, m)
    ensures var h := Hydrated(EMPTY, rows);
            && (forall k, p :: Blocked(h, k, p) <==> Blocked(m, k, p))
            && (forall k :: AmbiguousAt(h, k) == AmbiguousAt(m, k))
            && (forall k :: k in m.submitted ==> k in h.submitted && h.submitted[k] == m.submitted[k])
  {
    hide KeyOf, CleanKey;
    var h := Hydrated(EMPTY, rows);
    forall k, p ensures p in AmbiguousAt(h, k) <==> p in AmbiguousAt(m, k) {
      HydratedAmbiguous(EMPTY, rows, k, p);
      if HasRow(rows, k, p, true) {
        var i :| 0 <= i < |rows| && KeyOf(rows[i].identity) == k && rows[i].pointer == p && rows[i].ambiguous == true;
        assert SoundRow(rows[i], m);
      }
    }
    forall k ensures AmbiguousAt(h, k) == AmbiguousAt(m, k) {
      assert forall p :: p in AmbiguousAt(h, k) <==> p in AmbiguousAt(m, k);
    }
    forall k | k in m.submitted ensures k in h.submitted && h.submitted[k] == m.submitted[k] {
      HydratedSubmitted(EMPTY, rows, k);
      var n :| FirstRow(rows, k, n) && rows[n].pointer == m.submitted[k];
    }
    forall k, p | Blocked(h, k, p) ensures Blocked(m, k, p) {
      if k in h.submitted && h.submitted[k] == p {
        HydratedSubmitted(EMPTY, rows, k);
        var n :| FirstRow(rows, k, n) && rows[n].pointer == h.submitted[k];
        assert SoundRow(rows[n], m);
      }
    }
  }

  lemma ObserveKeeps(s: State, step: Step)
    requires Invariant(s) && step.Observe? && Legal(s, step)
    ensures Invariant(After(s, step))
  {
    hide KeyOf;
    var t := After(s, step);
    var key, l := KeyOf(step.identity), step.look;
    var n := |s.trace|;
    assert forall i :: 0 <= i < n ==> t.trace[i] == s.trace[i];
    forall i, j | 0 <= i < j < |t.trace| ensures Apart(t.trace, i, j) {
      assert Kept(s, i);
      if j < n {
        assert Apart(s.trace, i, j);
      } else {
        EnterIsUnblocked(s.memory, key, l);
      }
    }
    forall i | 0 <= i < |t.trace| ensures Kept(t, i) {
      if i < n {
        assert Kept(s, i);
        OldStaysKept(s, t, key, l, i);
      } else {
        NewIsKept(s, key, l);
      }
    }
  }

  lemma EnterIsUnblocked(m: Memory, key: string, l: Look)
    ensures EnterOf(m, key, l).Some? ==>
              l.screen.Shown? && l.screen.pointer.Some? && !Blocked(m, key, l.screen.pointer.value)
  {
  }

  /** A look forgets an accepted Enter only by seeing something else. */
  lemma OldStaysKept(s: State, t: State, key: string, l: Look, i: nat)
    requires i < |s.trace| && Kept(s, i) && !t.saved
    requires t.memory == Settled(s.memory, key, l)
    requires t.trace == s.trace + [Event(key, l, EnterOf(s.memory, key, l))]
    ensures Kept(t, i)
  {
    var n, k := |s.trace|, s.trace[i].key;
    assert t.trace[i] == s.trace[i] && t.trace[n].key == key && t.trace[n].look == l;
    forall p: string | Enters(t.trace[i], k, p)
      ensures t.trace[i].enter == Some(Ambiguous) ==> KeepsAmbiguous(t, k, p)
      ensures t.trace[i].enter == Some(Accepted) ==> KeepsAccepted(t, i, k, p)
    {
      if ShownOtherBetween(s.trace, i, n, k, p) {
        var q :| i < q < n && ShowsOther(s.trace[q], k, p);
        assert ShowsOther(t.trace[q], k, p);
      } else if ShowsOther(t.trace[n], k, p) {
        assert ShownOtherBetween(t.trace, i, |t.trace|, k, p);
      }
    }
  }

  lemma NewIsKept(s: State, key: string, l: Look)
    ensures var t := State(Settled(s.memory, key, l), s.store, false, s.trace + [Event(key, l, EnterOf(s.memory, key, l))]);
            Kept(t, |s.trace|)
  {
  }

  lemma HydrateKeeps(s: State, step: Step)
    requires Invariant(s) && (step.Rehydrate? || step.Restart?) && Legal(s, step)
    ensures Invariant(After(s, step))
  {
    hide KeyOf, Hydrated, HasRow, FirstRow;
    var t := After(s, step);
    HydratedGrows(s.memory, s.store);
    forall i | 0 <= i < |t.trace| ensures Kept(t, i) {
      assert Kept(s, i);
      var k := s.trace[i].key;
      forall p: string | Enters(t.trace[i], k, p)
        ensures t.trace[i].enter == Some(Ambiguous) ==> KeepsAmbiguous(t, k, p)
        ensures t.trace[i].enter == Some(Accepted) ==> KeepsAccepted(t, i, k, p)
      {
        HydratedAmbiguous(EMPTY, s.store, k, p);
        HydratedSubmitted(EMPTY, s.store, k);
      }
    }
  }

  lemma PersistKeeps(s: State, step: Step)
    requires Invariant(s) && step.Persist? && Legal(s, step)
    ensures Invariant(After(s, step))
  {
    hide KeyOf, HasRow, FirstRow, Sound;
    var t := After(s, step);
    forall i | 0 <= i < |t.trace| ensures Kept(t, i) {
      assert Kept(s, i);
    }
  }

  /**
   Over any number of looks, saves, re-reads and restarts: an Enter whose outcome was ambiguous is never repeated
   for the same worker and pointer, and between an accepted Enter and the next one for that worker and pointer
   the worker was seen not to show it.
   */
  lemma {:induction false} NoRepeatedEnter(steps: seq<Step>, states: seq<State>)
    requires IsRun(steps, states) && states[0].trace == []
    ensures Invariant(states[|steps|])
    ensures var trace := states[|steps|].trace; forall i, j :: 0 <= i < j < |trace| ==> Apart(trace, i, j)
  {
    if steps != [] {
      var n := |steps| - 1;
      NoRepeatedEnter(steps[..n], states[..n + 1]);
      assert Legal(states[n], steps[n]) && states[n + 1] == After(states[n], steps[n]);
      match steps[n]
      case Observe(_, _) => ObserveKeeps(states[n], steps[n]);
      case Persist(_) => PersistKeeps(states[n], steps[n]);
      case _ => HydrateKeeps(states[n], steps[n]);
    }
  }

  // ----- what a look leads to -----

  /** A pointer on the screen of a worker that can take it: an idle one, or for a bound control any that lives. */
  predicate Ready(l: Look) {
    && !l.dryRun && l.screen.Shown? && l.screen.pointer.Some?
    && (|| (l.family == Cursor && (l.seam ==> l.before == Idle))
        || (l.family == OpenCode(true) && (l.seam ==> l.before == Idle || l.before == Busy)))
  }

  /** The worker took it: told by its control, by its being busy after a re-read, or without the seam by the dispatch. */
  predicate Took(l: Look) {
    if l.family == Cursor && l.seam then l.rereadOk && l.after == Busy else l.dispatch == Dispatched
  }

  /** Whether a look leads to an Enter, and to which. */
  predicate EnterFits(l: Look, blocked: bool, enter: Option<Enter>) {
    && (enter.Some? <==> Ready(l) && !blocked)
    && (enter.Some? ==>
          && (enter.value == NotSent <==> l.dispatch == SendFailed)
          && (enter.value == Accepted <==> l.dispatch != SendFailed && Took(l)))
  }

  lemma EnterExact(m: Memory, key: string, l: Look)
    ensures EnterFits(l, l.screen.Shown? && l.screen.pointer.Some? && Blocked(m, key, l.screen.pointer.value), EnterOf(m, key, l))
  {
    hide Blocked;
  }

  /** What is blocked after a look: what stays marked, what was Entered and not refused, and what nothing cleared. */
  lemma BlockedExact(m: Memory, key: string, l: Look, k: string, p: string)
    ensures var enter := EnterOf(m, key, l);
            var sent := enter == Some(Accepted) || enter == Some(Ambiguous);
            && (Blocked(Settled(m, key, l), k, p) <==>
                || p in AmbiguousAt(m, k)
                || (k == key && sent && l.screen.pointer == Some(p))
                || (k in m.submitted && m.submitted[k] == p && (k == key ==> enter.None? && !Clears(m, key, l))))
            && (p in AmbiguousAt(Settled(m, key, l), k) <==>
                p in AmbiguousAt(m, k) || (k == key && enter == Some(Ambiguous) && l.screen.pointer == Some(p)))
  {
  }

  /** An empty composer without a pointer, at a bound worker with nothing marked, clears what was submitted. */
  predicate Clears(m: Memory, key: string, l: Look) {
    && (l.family == Cursor || l.family == OpenCode(true)) && l.screen == Shown(true, None) && key !in m.ambiguous
  }

  /**
   Over any run: a worker was Entered only when ready, so a Cursor worker with the seam only when idle, and an Enter
   counted as accepted there only if the re-read succeeded and the worker was busy after. And every look at a ready
   worker whose pointer is not blocked Enters it.
   */
  lemma {:induction false} EntersFit(steps: seq<Step>, states: seq<State>)
    requires IsFreeRun(steps, states) && states[0].trace == []
    ensures forall i :: 0 <= i < |states[|steps|].trace| ==> Fits(states[|steps|].trace[i])
    ensures forall n :: 0 <= n < |steps| && steps[n].Observe? ==> LookFits(states[n], steps[n], states[n + 1])
  {
    hide EnterOf, Settled, Hydrated, KeyOf, EnterFits, Fits, LookFits;
    if steps != [] {
      var last := |steps| - 1;
      assert forall n :: 0 <= n < last ==> Free(states[n], steps[n]) && states[n + 1] == After(states[n], steps[n]);
      EntersFit(steps[..last], states[..last + 1]);
      assert forall n :: 0 <= n < last ==> steps[..last][n] == steps[n];
      assert states[|steps|] == After(states[last], steps[last]);
      TraceGrows(states[last], steps[last]);
      if steps[last].Observe? {
        NewFits(states[last], steps[last]);
      }
      forall i | 0 <= i < |states[|steps|].trace| ensures Fits(states[|steps|].trace[i]) {
        assert i < |states[last].trace| ==> states[|steps|].trace[i] == states[..last + 1][|steps[..last]|].trace[i];
      }
      forall n | 0 <= n < |steps| && steps[n].Observe? ensures LookFits(states[n], steps[n], states[n + 1]) {
        assert n < last ==> LookFits(states[..last + 1][n], steps[..last][n], states[..last + 1][n + 1]);
      }
    }
  }

  lemma NewFits(s: State, step: Step)
    requires step.Observe?
    ensures LookFits(s, step, After(s, step)) && Fits(After(s, step).trace[|s.trace|])
  {
    hide KeyOf, Settled, EnterOf, EnterFits, Blocked;
    var key, l := KeyOf(step.identity), step.look;
    EnterExact(s.memory, key, l);
    EnteredFits(l, l.screen.Shown? && l.screen.pointer.Some? && Blocked(s.memory, key, l.screen.pointer.value), EnterOf(s.memory, key, l));
  }

  lemma EnteredFits(l: Look, blocked: bool, enter: Option<Enter>)
    requires EnterFits(l, blocked, enter)
    ensures EnterFits(l, false, enter) || enter.None?
  {
  }

  predicate Fits(e: Event) {
    EnterFits(e.look, false, e.enter) || e.enter.None?
  }

  /** The event a look adds is of that look, and its Enter the one the pair's being blocked or not asks for. */
  predicate LookFits(s: State, step: Step, t: State)
    requires step.Observe?
  {
    var key, l := KeyOf(step.identity), step.look;
    && |t.trace| == |s.trace| + 1 && t.trace[|s.trace|].key == key && t.trace[|s.trace|].look == l
    && EnterFits(l, l.screen.Shown? && l.screen.pointer.Some? && Blocked(s.memory, key, l.screen.pointer.value), t.trace[|s.trace|].enter)
  }

  // ----- restarts at any time -----

  ghost predicate Free(s: State, step: Step) {
    step.Restart? || Legal(s, step)
  }

  ghost predicate IsFreeRun(steps: seq<Step>, states: seq<State>) {
    && |states| == |steps| + 1
    && forall i :: 0 <= i < |steps| ==> Free(states[i], steps[i]) && states[i + 1] == After(states[i], steps[i])
  }

  /** The pair is blocked; or, with `marked`, blocked for good. */
  predicate Holds(m: Memory, key: string, pointer: string, marked: bool) {
    if marked then pointer in AmbiguousAt(m, key) else Blocked(m, key, pointer)
  }

  /** Between the Enter at `i` and the event at `j` there was a restart from a store that did not hold the pair. */
  ghost predicate Dropped(steps: seq<Step>, states: seq<State>, i: int, j: int, key: string, pointer: string, marked: bool)
    requires |states| == |steps| + 1
  {
    exists n :: 0 <= n < |steps| && steps[n].Restart? && i < |states[n].trace| <= j
                && !Holds(Hydrated(EMPTY, states[n].store), key, pointer, marked)
  }

  /** Why the pair of the Enter at `i` may be Entered again at `j`. */
  ghost predicate Excused(steps: seq<Step>, states: seq<State>, i: int, j: int, key: string, pointer: string, marked: bool)
    requires |states| == |steps| + 1 && 0 <= i <= j <= |states[|steps|].trace|
  {
    || Dropped(steps, states, i, j, key, pointer, marked)
    || (!marked && ShownOtherBetween(states[|steps|].trace, i, j, key, pointer))
  }

  /** The Enter went out; with `marked`, its outcome was ambiguous. */
  predicate Sent(e: Event, key: string, pointer: string, marked: bool) {
    Enters(e, key, pointer) && (e.enter == Some(Ambiguous) || (!marked && e.enter == Some(Accepted)))
  }

  /** What was Entered is held or excused, and what was Entered again is excused. */
  ghost predicate FreeInvariant(steps: seq<Step>, states: seq<State>, key: string, pointer: string, marked: bool)
    requires |states| == |steps| + 1
  {
    var s := states[|steps|];
    && (forall i :: 0 <= i < |s.trace| && Sent(s.trace[i], key, pointer, marked) ==>
                      Holds(s.memory, key, pointer, marked) || Excused(steps, states, i, |s.trace|, key, pointer, marked))
    && (forall i, j :: 0 <= i < j < |s.trace| && Sent(s.trace[i], key, pointer, marked) && Enters(s.trace[j], key, pointer) ==>
                         Excused(steps, states, i, j, key, pointer, marked))
  }

  /** An excuse stays one as the run goes on. */
  lemma ExcuseStays(steps: seq<Step>, states: seq<State>, i: int, j: int, j': int, key: string, pointer: string, marked: bool)
    requires steps != [] && |states| == |steps| + 1
    requires states[|steps| - 1].trace <= states[|steps|].trace && 0 <= i <= j <= |states[|steps| - 1].trace| && j <= j' <= |states[|steps|].trace|
    requires Excused(steps[..|steps| - 1], states[..|steps|], i, j, key, pointer, marked)
    ensures Excused(steps, states, i, j', key, pointer, marked)
  {
    var before, were := steps[..|steps| - 1], states[..|steps|];
    var was, now := states[|steps| - 1].trace, states[|steps|].trace;
    if Dropped(before, were, i, j, key, pointer, marked) {
      var n :| 0 <= n < |before| && before[n].Restart? && i < |were[n].trace| <= j && !Holds(Hydrated(EMPTY, were[n].store), key, pointer, marked);
      assert steps[n] == before[n] && states[n] == were[n];
    } else {
      var n :| i < n < j && ShowsOther(was[n], key, pointer);
      assert ShowsOther(now[n], key, pointer);
    }
  }

  /** A step loses a held pair only by seeing something else, or by restarting from a store without it. */
  lemma StepHolds(s: State, step: Step, key: string, pointer: string, marked: bool)
    requires Holds(s.memory, key, pointer, marked)
    ensures var t := After(s, step);
            || Holds(t.memory, key, pointer, marked)
            || (step.Restart? && !Holds(Hydrated(EMPTY, s.store), key, pointer, marked))
            || (step.Observe? && !marked && ShowsOther(t.trace[|s.trace|], key, pointer))
  {
    hide KeyOf, Hydrated;
    if step.Rehydrate? {
      HydratedGrows(s.memory, s.store);
    }
  }

  lemma EventHolds(s: State, step: Step, key: string, pointer: string, marked: bool)
    requires step.Observe?
    ensures var t := After(s, step);
            && |t.trace| == |s.trace| + 1 && s.trace <= t.trace
            && (Enters(t.trace[|s.trace|], key, pointer) ==> !Holds(s.memory, key, pointer, marked))
            && (Sent(t.trace[|s.trace|], key, pointer, marked) ==> Holds(t.memory, key, pointer, marked))
  {
    hide KeyOf;
  }

  lemma FreeStep(steps: seq<Step>, states: seq<State>, key: string, pointer: string, marked: bool)
    requires steps != [] && |states| == |steps| + 1 && states[|steps|] == After(states[|steps| - 1], steps[|steps| - 1])
    requires FreeInvariant(steps[..|steps| - 1], states[..|steps|], key, pointer, marked)
    ensures FreeInvariant(steps, states, key, pointer, marked)
  {
    hide Holds, Sent, Excused, Enters;
    var last := |steps| - 1;
    var s, t, step := states[last], states[|steps|], steps[last];
    var before, were := steps[..last], states[..|steps|];
    TraceGrows(s, step);
    if step.Observe? {
      EventHolds(s, step, key, pointer, marked);
    }
    forall i | 0 <= i < |t.trace| && Sent(t.trace[i], key, pointer, marked)
      ensures Holds(t.memory, key, pointer, marked) || Excused(steps, states, i, |t.trace|, key, pointer, marked)
    {
      if i < |s.trace| {
        assert t.trace[i] == s.trace[i];
        if Excused(before, were, i, |s.trace|, key, pointer, marked) {
          ExcuseStays(steps, states, i, |s.trace|, |t.trace|, key, pointer, marked);
        } else {
          HeldOrExcused(steps, states, i, key, pointer, marked);
        }
      }
    }
    forall i, j | 0 <= i < j < |t.trace| && Sent(t.trace[i], key, pointer, marked) && Enters(t.trace[j], key, pointer)
      ensures Excused(steps, states, i, j, key, pointer, marked)
    {
      assert t.trace[i] == s.trace[i];
      assert j < |s.trace| ==> t.trace[j] == s.trace[j];
      ExcuseStays(steps, states, i, j, j, key, pointer, marked);
    }
  }

  lemma TraceGrows(s: State, step: Step)
    ensures s.trace <= After(s, step).trace && |After(s, step).trace| == |s.trace| + if step.Observe? then 1 else 0
  {
    hide KeyOf, Settled, EnterOf;
  }

  lemma HeldOrExcused(steps: seq<Step>, states: seq<State>, i: int, key: string, pointer: string, marked: bool)
    requires steps != [] && |states| == |steps| + 1 && states[|steps|] == After(states[|steps| - 1], steps[|steps| - 1])
    requires 0 <= i < |states[|steps| - 1].trace| && Holds(states[|steps| - 1].memory, key, pointer, marked)
    ensures |states[|steps|].trace| >= |states[|steps| - 1].trace|
    ensures Holds(states[|steps|].memory, key, pointer, marked)
            || Excused(steps, states, i, |states[|steps|].trace|, key, pointer, marked)
  {
    hide Holds, ShowsOther;
    var last := |steps| - 1;
    var s, t := states[last], states[|steps|];
    TraceGrows(s, steps[last]);
    StepHolds(s, steps[last], key, pointer, marked);
    if !Holds(t.memory, key, pointer, marked) && steps[last].Observe? {
      assert ShowsOther(t.trace[|s.trace|], key, pointer);
      assert ShownOtherBetween(t.trace, i, |t.trace|, key, pointer);
    }
  }

  /**
   Over any run, with restarts at any time: a pair that was Entered is Entered again only after the worker was seen
   showing something else, or after a restart from a store that did not block the pair. When the first outcome was
   ambiguous, only after a restart from a store that did not hold the pair as ambiguous.
   */
  lemma {:induction false} RepeatedOnlyAfterLoss(steps: seq<Step>, states: seq<State>, key: string, pointer: string, marked: bool)
    requires IsFreeRun(steps, states) && states[0].trace == []
    ensures var s := states[|steps|];
            forall i, j :: 0 <= i < j < |s.trace| && Sent(s.trace[i], key, pointer, marked) && Enters(s.trace[j], key, pointer) ==>
                             Excused(steps, states, i, j, key, pointer, marked)
    ensures FreeInvariant(steps, states, key, pointer, marked)
  {
    if steps != [] {
      hide Sent, Enters, Excused, FreeInvariant, After, Free;
      var n := |steps| - 1;
      assert forall i :: 0 <= i < n ==> Free(states[i], steps[i]) && states[i + 1] == After(states[i], steps[i]);
      RepeatedOnlyAfterLoss(steps[..n], states[..n + 1], key, pointer, marked);
      FreeStep(steps, states, key, pointer, marked);
      FreeMeans(steps, states, key, pointer, marked);
    }
  }

  lemma FreeMeans(steps: seq<Step>, states: seq<State>, key: string, pointer: string, marked: bool)
    requires |states| == |steps| + 1 && FreeInvariant(steps, states, key, pointer, marked)
    ensures var s := states[|steps|];
            forall i, j :: 0 <= i < j < |s.trace| && Sent(s.trace[i], key, pointer, marked) && Enters(s.trace[j], key, pointer) ==>
                             Excused(steps, states, i, j, key, pointer, marked)
  {
  }

  /**
   The promise ends at a restart that finds an older store: what was Entered since it was written is Entered again
   exactly if that store does not block it.
   */
  lemma UnsavedRestart(s: State, identity: Identity, l: Look)
    requires EnterOf(s.memory, KeyOf(identity), l).Some?
    ensures var restarted := After(After(s, Observe(identity, l)), Restart);
            EnterOf(restarted.memory, KeyOf(identity), l).Some? <==>
            !Blocked(Hydrated(EMPTY, s.store), KeyOf(identity), l.screen.pointer.value)
  {
    hide KeyOf, Hydrated;
  }

  /** So an ambiguous Enter made before the first save is repeated when the watcher is restarted at once. */
  lemma RepeatedBeforeSave(identity: Identity, pointer: string)
    ensures var look := Look(Cursor, Shown(false, Some(pointer)), false, true, Idle, Dispatched, false, Unknown);
            var entered := After(State(EMPTY, [], false, []), Observe(identity, look));
            var again := After(After(entered, Restart), Observe(identity, look));
            !entered.saved && |again.trace| == 2 && !Apart(again.trace, 0, 1)
  {
    hide KeyOf;
    var look := Look(Cursor, Shown(false, Some(pointer)), false, true, Idle, Dispatched, false, Unknown);
    var entered := After(State(EMPTY, [], false, []), Observe(identity, look));
    var again := After(After(entered, Restart), Observe(identity, look));
    assert Hydrated(EMPTY, []) == EMPTY;
    assert Enters(again.trace[0], again.trace[0].key, pointer) && Enters(again.trace[1], again.trace[0].key, pointer);
  }
}
