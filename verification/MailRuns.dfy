/**
 Runs of the delivery engine with its ledger on disk and a clock of its own: what a tick did to the ledger counts
 only once it is saved, and a tick that ends without saving leaves the ledger of the last save behind, while the
 Enters it made stay made. Readings are taken now and then; time passes between a reading and what it decides.
 */
module MailRuns {
  import opened Basics
  import opened Mail
  import opened Delivery
  import opened DeliveryRuns

  /** An Enter and the earlier ones that the ledger it was decided by accounts for. */
  datatype Past = Past(enter: Entered, known: seq<Entered>)

  /** The ledger at work, the one last saved, the instant reached, and every Enter made, saved or not. */
  datatype World = World(current: State, saved: State, wall: int, history: seq<Past>)

  datatype Move = Act(step: Step) | Save | Abort

  /** A delivery goes by the reading at hand, or by a new one; nothing is pressed before what came before it. */
  ghost predicate MayMove(d: Directory, live: set<string>, w: World, move: Move) {
    match move
    case Act(step) =>
      && Legal(d, live, w.current, step)
      && (step.Attempt? ==> (step.now == w.current.clock || step.now >= w.wall) && step.pressedAt >= w.wall)
    case _ => true
  }

  ghost function Moved(d: Directory, w: World, move: Move): World
    requires move.Act? && (move.step.Attempt? || move.step.Release?) ==> move.step.id in d
  {
    match move
    case Act(step) =>
      var t := After(d, w.current, step);
      World(t, w.saved, if step.Attempt? then step.pressedAt else w.wall,
            if |t.trace| > |w.current.trace| then w.history + [Past(t.trace[|w.current.trace|], w.current.trace)] else w.history)
    case Save => w.(saved := w.current)
    case Abort => w.(current := w.saved.(clock := w.current.clock))
  }

  /** The worlds a run passes through. */
  ghost predicate IsRun(d: Directory, live: set<string>, moves: seq<Move>, worlds: seq<World>) {
    && |worlds| == |moves| + 1
    && forall i :: 0 <= i < |moves| ==>
                     MayMove(d, live, worlds[i], moves[i]) && worlds[i + 1] == Moved(d, worlds[i], moves[i])
  }

  /** A ledger read from disk, with nothing Entered yet. */
  ghost predicate Begins(d: Directory, w: World) {
    && WellKeyed(w.current.ledger) && Agrees(d, w.current.ledger) && w.current.trace == [] && w.history == []
    && w.saved == w.current && w.current.clock <= w.wall
  }

  /** The Enter showed the message's own command, and respects all Enters known when it was decided. */
  ghost predicate Respectful(d: Directory, live: set<string>, p: Past) {
    && p.enter.id in d && p.enter.at <= p.enter.pressedAt
    && PointerMatchesDelivery(p.enter.shown, d[p.enter.id].message, d[p.enter.id].worker)
    && forall i :: 0 <= i < |p.known| ==>
                     p.known[i].id in d && (p.known[i].id in live ==> Respects(d, p.known, i, p.enter))
  }

  ghost predicate Sound(d: Directory, live: set<string>, w: World) {
    && Invariant(d, live, w.current) && Disciplined(d, live, w.current.trace)
    && Invariant(d, live, w.saved) && Disciplined(d, live, w.saved.trace)
    && w.saved.clock <= w.current.clock <= w.wall
    && forall k :: 0 <= k < |w.history| ==> Respectful(d, live, w.history[k])
  }

  /** What a ledger accounts for it accounts for at any later time. */
  lemma LaterClock(d: Directory, live: set<string>, s: State, clock: int)
    requires Invariant(d, live, s) && s.clock <= clock
    ensures Invariant(d, live, s.(clock := clock))
  {
    hide EpisodeKey, WellKeyed, Agrees;
    var t := s.(clock := clock);
    forall i | 0 <= i < |t.trace| && t.trace[i].id in live ensures Remembers(d, t, t.trace[i].id) {
      var id := t.trace[i].id;
      assert Remembers(d, s, id);
      forall k | 0 <= k < |t.trace| && t.trace[k].id == id ensures HoldsOff(t, t.ledger[Key(d, id)], k) {
        assert HoldsOff(s, s.ledger[Key(d, id)], k);
      }
    }
  }

  lemma ActKeeps(d: Directory, live: set<string>, w: World, move: Move)
    requires DirectoryOk(d) && Sound(d, live, w) && move.Act? && MayMove(d, live, w, move)
    ensures Sound(d, live, Moved(d, w, move))
  {
    var s, step := w.current, move.step;
    var t := After(d, s, step);
    StepKeepsDiscipline(d, live, s, step);
    StepTrace(d, s, step);
    var v := Moved(d, w, move);
    if |t.trace| > |s.trace| {
      LastRespects(d, live, s.trace, t.trace);
    }
    hide Invariant, Disciplined, Legal, After, Respectful;
    forall k | 0 <= k < |v.history| ensures Respectful(d, live, v.history[k]) {
      assert k < |w.history| ==> v.history[k] == w.history[k];
    }
  }

  /** A step adds one Enter to the trace or none, and moves the clock to its reading. */
  lemma StepTrace(d: Directory, s: State, step: Step)
    requires step.Attempt? || step.Release? ==> step.id in d
    ensures var t := After(d, s, step);
            && t.clock == (if step.Attempt? then step.now else s.clock)
            && (t.trace == s.trace
                || (step.Attempt? && |t.trace| == |s.trace| + 1 && t.trace[..|s.trace|] == s.trace
                    && t.trace[|s.trace|].at == step.now && t.trace[|s.trace|].pressedAt == step.pressedAt))
  {
    hide Delivered, Maintained, MailboxEmptied;
  }

  lemma LastRespects(d: Directory, live: set<string>, known: seq<Entered>, trace: seq<Entered>)
    requires Disciplined(d, live, trace) && |trace| == |known| + 1 && trace[..|known|] == known
    requires trace[|known|].at <= trace[|known|].pressedAt
    ensures Respectful(d, live, Past(trace[|known|], known))
  {
    hide PointerMatchesDelivery, WorkerKey, BuildDeliveryPointer;
    var e := trace[|known|];
    forall i | 0 <= i < |known| ensures known[i].id in d && (known[i].id in live ==> Respects(d, known, i, e)) {
      assert trace[i] == known[i];
      assert trace == known + [e];
      HoldOfPrefix(known, e, i);
      assert known[i].id in live ==> Respects(d, trace, i, trace[|known|]);
    }
  }

  lemma MoveKeeps(d: Directory, live: set<string>, w: World, move: Move)
    requires DirectoryOk(d) && Sound(d, live, w) && MayMove(d, live, w, move)
    ensures Sound(d, live, Moved(d, w, move))
  {
    hide Invariant, Disciplined, Legal, Respectful;
    match move
    case Act(step) => ActKeeps(d, live, w, move);
    case Save =>
    case Abort => LaterClock(d, live, w.saved, w.current.clock);
  }

  lemma BeginsSound(d: Directory, live: set<string>, w: World)
    requires Begins(d, w)
    ensures Sound(d, live, w)
  {
    hide WellKeyed, Agrees;
  }

  /**
   Over every run, ticks that end without saving included: every Enter, saved or not, was pressed while the pane
   showed its message's own command, and waited for every Enter the ledger accounted for. By the clock readings: at
   least a minute after one of the same message that was sent, min(60 s * 2^(j-1), 30 min) after the j-th unconfirmed
   one since the last failure to send, and as long for a sibling with the same pointer on the same worker. Between
   the Enters themselves: as long, less what the earlier one lagged behind its reading and more what the later did.
   */
  lemma {:induction false} EnterDiscipline(d: Directory, live: set<string>, moves: seq<Move>, worlds: seq<World>)
    requires DirectoryOk(d) && IsRun(d, live, moves, worlds) && Begins(d, worlds[0])
    ensures Sound(d, live, worlds[|moves|])
    ensures forall k :: 0 <= k < |worlds[|moves|].history| ==> Respectful(d, live, worlds[|moves|].history[k])
  {
    if moves == [] {
      BeginsSound(d, live, worlds[0]);
    } else {
      hide Sound, MayMove, Moved, Begins, Respectful;
      var n := |moves| - 1;
      EnterDiscipline(d, live, moves[..n], worlds[..n + 1]);
      assert MayMove(d, live, worlds[n], moves[n]) && worlds[n + 1] == Moved(d, worlds[n], moves[n]);
      MoveKeeps(d, live, worlds[n], moves[n]);
      SoundHistory(d, live, worlds[|moves|]);
    }
  }

  lemma SoundHistory(d: Directory, live: set<string>, w: World)
    requires Sound(d, live, w)
    ensures forall k :: 0 <= k < |w.history| ==> Respectful(d, live, w.history[k])
  {
  }

  // ----- what a ledger accounts for -----

  /** No tick ended without saving after an Enter. */
  ghost predicate LosesNothing(moves: seq<Move>, worlds: seq<World>)
    requires |worlds| == |moves| + 1
  {
    forall i :: 0 <= i < |moves| && moves[i].Abort? ==> worlds[i].current.trace == worlds[i].saved.trace
  }

  function Enters(history: seq<Past>): seq<Entered> {
    seq(|history|, k requires 0 <= k < |history| => history[k].enter)
  }

  /** Every Enter is accounted for, and was when any later one was decided. */
  ghost predicate AllKnown(w: World) {
    && w.current.trace == Enters(w.history)
    && forall k :: 0 <= k < |w.history| ==> w.history[k].known == Enters(w.history)[..k]
  }

  /** In a run without such an end every Enter there was has to be waited for. */
  lemma {:induction false} NothingForgotten(d: Directory, live: set<string>, moves: seq<Move>, worlds: seq<World>)
    requires DirectoryOk(d) && IsRun(d, live, moves, worlds) && Begins(d, worlds[0]) && LosesNothing(moves, worlds)
    ensures AllKnown(worlds[|moves|]) && Disciplined(d, live, Enters(worlds[|moves|].history))
  {
    EnterDiscipline(d, live, moves, worlds);
    if moves == [] {
      assert Enters([]) == [];
    } else {
      hide Sound, Legal, Begins, Disciplined, AllKnown, After;
      var n := |moves| - 1;
      NothingForgotten(d, live, moves[..n], worlds[..n + 1]);
      assert MayMove(d, live, worlds[n], moves[n]) && worlds[n + 1] == Moved(d, worlds[n], moves[n]);
      if moves[n].Act? {
        StepTrace(d, worlds[n].current, moves[n].step);
      }
      MoveKnows(d, live, worlds[n], moves[n]);
    }
    SoundTrace(d, live, worlds[|moves|]);
  }

  lemma SoundTrace(d: Directory, live: set<string>, w: World)
    requires Sound(d, live, w) && AllKnown(w)
    ensures Disciplined(d, live, Enters(w.history))
  {
  }

  lemma MoveKnows(d: Directory, live: set<string>, w: World, move: Move)
    requires AllKnown(w) && MayMove(d, live, w, move) && (move.Abort? ==> w.current.trace == w.saved.trace)
    ensures AllKnown(Moved(d, w, move))
  {
    if move.Act? {
      StepTrace(d, w.current, move.step);
      hide Legal, After;
      var v := Moved(d, w, move);
      if |v.history| > |w.history| {
        assert Enters(v.history) == Enters(w.history) + [v.history[|w.history|].enter];
        assert v.current.trace == w.current.trace + [v.current.trace[|w.current.trace|]];
        forall k | 0 <= k < |v.history| ensures v.history[k].known == Enters(v.history)[..k] {
          assert k < |w.history| ==> v.history[k] == w.history[k];
          assert Enters(v.history)[..k] == if k < |w.history| then Enters(w.history)[..k] else Enters(w.history);
        }
      }
    }
  }

  // ----- the limits -----

  /** A composer that shows the message's pointer before and after an Enter that goes out. */
  predicate StaysShown(m: Message, w: Worker, pane: Pane) {
    && IdentityComplete(w) && pane.family == Cursor && pane.familyAtEnter == Cursor
    && pane.livenessAtEnter != Gone && pane.dispatch != SendFailed && pane.afterEnter == SettledScreen(pane)
    && PointerMatchesDelivery(ShownPointer(pane), m, w)
  }

  ghost function StartingWorld(): World {
    var s := State(map[], 0, []);
    World(s, s, 0, [])
  }

  function Pressing(id: string, now: int, pressedAt: int, pane: Pane): Move {
    Act(Attempt(id, now, pressedAt, pane, true))
  }

  /** What an attempt that presses makes of the world. */
  lemma PressMoves(d: Directory, live: set<string>, w: World, id: string, now: int, pressedAt: int, pane: Pane)
    requires id in d && w.current.clock <= now <= pressedAt && (now == w.current.clock || now >= w.wall) && w.wall <= pressedAt
    ensures MayMove(d, live, w, Pressing(id, now, pressedAt, pane))
    ensures var r := Delivered(w.current.ledger, d[id].message, d[id].worker, now, pane, true);
            var v := Moved(d, w, Pressing(id, now, pressedAt, pane));
            && v.current.ledger == r.ledger && v.current.clock == now && v.saved == w.saved && v.wall == pressedAt
            && (r.report.press.None? ==> v.current.trace == w.current.trace && v.history == w.history)
            && (r.report.press.Some? ==>
                  var e := Entered(id, now, pressedAt, ShownPointer(pane), r.report.press.value);
                  v.current.trace == w.current.trace + [e] && v.history == w.history + [Past(e, w.current.trace)])
  {
    hide Delivered, EpisodeKey;
  }

  /**
   The bound on the instants is met: whatever two Enters lag behind their readings, a run presses twice with just
   the first minute less the one lag and more the other in between. So the full wait is sure to be kept exactly for
   Enters that lag no more than the next one does.
   */
  lemma WaitByLags(m: Message, w: Worker, pane: Pane, a: int, b: int)
    requires NulFree(m.id) && StaysShown(m, w, pane) && 0 <= a <= WINDOW && 0 <= b
    ensures var d := map[m.id := Home(m, w)];
            var first, second := Pressing(m.id, 0, a, pane), Pressing(m.id, WINDOW, WINDOW + b, pane);
            var between := Moved(d, StartingWorld(), first);
            var end := Moved(d, between, second);
            && IsRun(d, {m.id}, [first, second], [StartingWorld(), between, end])
            && |end.history| == 2 && end.history[1].known == [end.history[0].enter]
            && Hold(end.history[1].known, 0) == WINDOW
            && end.history[1].enter.pressedAt - end.history[0].enter.pressedAt == WINDOW - a + b
            && (end.history[1].enter.pressedAt - end.history[0].enter.pressedAt >= WINDOW <==> a <= b)
  {
    hide Delivered, EpisodeKey, PointerMatchesDelivery, Moved, MayMove, Hold;
    var d := map[m.id := Home(m, w)];
    var first, second := Pressing(m.id, 0, a, pane), Pressing(m.id, WINDOW, WINDOW + b, pane);
    var between := Moved(d, StartingWorld(), first);
    PressedAnew(m, w, 0, pane);
    PressedAgain(m, w, 0, WINDOW, pane);
    PressMoves(d, {m.id}, StartingWorld(), m.id, 0, a, pane);
    var e := Entered(m.id, 0, a, ShownPointer(pane), Unconfirmed);
    assert between.current.trace == [e] && between.history == [Past(e, [])];
    PressMoves(d, {m.id}, between, m.id, WINDOW, WINDOW + b, pane);
    FirstHold(e);
    var end := Moved(d, between, second);
    assert end.history == [Past(e, []), Past(Entered(m.id, WINDOW, WINDOW + b, ShownPointer(pane), Unconfirmed), [e])];
    TwoMoves(d, {m.id}, first, second, StartingWorld(), between, end);
  }

  lemma TwoMoves(d: Directory, live: set<string>, a: Move, b: Move, x: World, y: World, z: World)
    requires MayMove(d, live, x, a) && y == Moved(d, x, a) && MayMove(d, live, y, b) && z == Moved(d, y, b)
    ensures IsRun(d, live, [a, b], [x, y, z])
  {
    hide MayMove, Moved;
    var moves, worlds := [a, b], [x, y, z];
    assert moves[0] == a && moves[1] == b && worlds[0] == x && worlds[1] == y && worlds[2] == z;
  }

  lemma FirstHold(e: Entered)
    requires e.outcome == Unconfirmed
    ensures Hold([e], 0) == WINDOW
  {
    FirstWait();
    assert [e][..1] == [e] && [e][..0] == [];
    assert Streak([], e.id) == 0 && Streak([e], e.id) == 1;
  }

  /** A first Enter, on a ledger that knows nothing, that the composer does not react to. */
  lemma PressedAnew(m: Message, w: Worker, now: int, pane: Pane)
    requires StaysShown(m, w, pane)
    ensures Delivered(map[], m, w, now, pane, true).report.press == Some(Unconfirmed)
  {
    hide EpisodeKey, WorkerKey, BuildDeliveryPointer;
    NoEmptyPointer(m, w);
  }

  /** And a second one, a minute later by the readings. */
  lemma PressedAgain(m: Message, w: Worker, now: int, later: int, pane: Pane)
    requires StaysShown(m, w, pane) && later >= now + WINDOW
    ensures Delivered(Delivered(map[], m, w, now, pane, true).ledger, m, w, later, pane, true).report.press == Some(Unconfirmed)
  {
    hide EpisodeKey, WorkerKey, BuildDeliveryPointer;
    NoEmptyPointer(m, w);
    var key := EpisodeKey(m, w);
    var first := Delivered(map[], m, w, now, pane, true);
    assert first.ledger == map[key := first.ledger[key]];
    assert first.ledger[key].phase == PointerVisible && first.ledger[key].nextEligibleAt == now + WINDOW;
    assert Lift(first.ledger, m, w) == first.ledger;
    assert !PendingPointerClaim(first.ledger, m, w, later, key);
  }

  /**
   A tick that ends without saving forgets its Enters: the message it had just Entered is Entered again at once,
   while after a save the same attempt backs off.
   */
  lemma AbortForgets(m: Message, w: Worker, pane: Pane)
    requires NulFree(m.id) && StaysShown(m, w, pane)
    ensures var d := map[m.id := Home(m, w)];
            var first, again := Pressing(m.id, 0, 0, pane), Pressing(m.id, 1, 1, pane);
            var entered := Moved(d, StartingWorld(), first);
            var aborted := Moved(d, entered, Abort);
            var end := Moved(d, aborted, again);
            && MayMove(d, {m.id}, StartingWorld(), first) && MayMove(d, {m.id}, aborted, again)
            && |end.history| == 2 && end.history[1].known == []
            && end.history[0].enter.outcome == Unconfirmed && end.history[1].enter.pressedAt == 1
            && |Moved(d, Moved(d, Moved(d, entered, Save), Abort), again).history| == 1
  {
    hide Delivered, EpisodeKey, PointerMatchesDelivery, MayMove, After;
    var d := map[m.id := Home(m, w)];
    var entered := Moved(d, StartingWorld(), Pressing(m.id, 0, 0, pane));
    PressedAnew(m, w, 0, pane);
    PressMoves(d, {m.id}, StartingWorld(), m.id, 0, 0, pane);
    var e := Entered(m.id, 0, 0, ShownPointer(pane), Unconfirmed);
    assert entered.history == [Past(e, [])];
    PressedAnew(m, w, 1, pane);
    var aborted := Moved(d, entered, Abort);
    assert aborted.current == State(map[], 0, []) && aborted.history == entered.history && aborted.wall == 0;
    PressMoves(d, {m.id}, aborted, m.id, 1, 1, pane);
    BacksOff(m, w, 0, 1, pane);
    var kept := Moved(d, Moved(d, entered, Save), Abort);
    assert kept.current == entered.current && kept.history == entered.history && kept.wall == 0;
    PressMoves(d, {m.id}, kept, m.id, 1, 1, pane);
    hide Moved;
  }

  lemma BacksOff(m: Message, w: Worker, now: int, later: int, pane: Pane)
    requires StaysShown(m, w, pane) && later < now + WINDOW
    ensures Delivered(Delivered(map[], m, w, now, pane, true).ledger, m, w, later, pane, true).report.press.None?
  {
    hide EpisodeKey, WorkerKey, BuildDeliveryPointer;
    NoEmptyPointer(m, w);
    var key := EpisodeKey(m, w);
    var first := Delivered(map[], m, w, now, pane, true);
    assert first.ledger == map[key := first.ledger[key]];
    assert first.ledger[key].phase == PointerVisible && first.ledger[key].nextEligibleAt == now + WINDOW;
    assert Lift(first.ledger, m, w) == first.ledger;
  }
}
