/**
 The launcher's side of a long-running child: stdout arrives in chunks, is cut into lines, and the lines
 move a watchdog deadline, deliver the turn result, or come too late. `After` specifies one event;
 `Launch` is the object that handles it.
 */
module Launcher {
  import opened Basics

  /** What a stdout line parses as; the parsers are pure, so the line itself stands for the parsed value. */
  datatype Kind = Noise | Heartbeat | Cancellation | TurnResult

  /** The line parser, and the instants and windows a launch starts with. */
  datatype Setup = Setup(kind: string -> Kind, startedAt: int, startupAllowance: int, idleWindow: int, hardDeadline: int)

  datatype Capture = Capture(
    first: Option<string>, firstAt: int, duplicate: bool,
    cancellation: Option<string>, duplicateCancellation: bool,
    deadline: int, expiredAt: Option<int>, heartbeats: nat)

  datatype State = State(capture: Capture, buffer: string, lastStdoutAt: Option<int>, exitedBeforeCandidate: bool)

  datatype Event =
    | Chunk(at: int, text: string)
    | ChildExit(at: int)
    | WatchdogTurn(at: int)
    | Trailing(at: int)

  function Start(s: Setup): State {
    State(Capture(None, 0, false, None, false, Min(s.startedAt + s.startupAllowance, s.hardDeadline), None, 0), "", None, false)
  }

  function DeadlineObserved(c: Capture, at: int): Capture {
    if at >= c.deadline && c.expiredAt.None? then c.(expiredAt := Some(c.deadline)) else c
  }

  function Ingested(s: Setup, c: Capture, line: string, at: int): Capture {
    match s.kind(line)
    case Cancellation =>
      if c.cancellation.None? then c.(cancellation := Some(line)) else c.(duplicateCancellation := true)
    case Heartbeat =>
      if c.first.Some? then c
      else if at >= c.deadline then DeadlineObserved(c, at)
      else c.(heartbeats := c.heartbeats + 1, deadline := Min(at + s.idleWindow, s.hardDeadline))
    case TurnResult =>
      if c.first.Some? then c.(duplicate := true)
      else if at >= c.deadline then DeadlineObserved(c, at)
      else c.(first := Some(line), firstAt := at)
    case Noise => c
  }

  function IngestedAll(s: Setup, c: Capture, lines: seq<string>, at: int): Capture
    decreases |lines|
  {
    if lines == [] then c else IngestedAll(s, Ingested(s, c, lines[0], at), lines[1..], at)
  }

  function NewlineAt(text: string): (n: nat)
    ensures n <= |text| && LineText(text[..n]) && (n < |text| ==> text[n] == '\n')
  {
    if text == "" || text[0] == '\n' then 0
    else
      var n := NewlineAt(text[1..]);
      assert text[..n + 1] == [text[0]] + text[1..][..n];
      n + 1
  }

  predicate LineText(text: string) {
    forall i :: 0 <= i < |text| ==> text[i] != '\n'
  }

  function Lines(text: string): seq<string>
    decreases |text|
  {
    var n := NewlineAt(text);
    if n == |text| then [] else [text[..n]] + Lines(text[n + 1..])
  }

  function Tail(text: string): string
    decreases |text|
  {
    var n := NewlineAt(text);
    if n == |text| then text else Tail(text[n + 1..])
  }

  /** The buffer is cut into lines, all of them stamped with one instant. */
  function Drained(s: Setup, t: State, at: int): State {
    t.(capture := IngestedAll(s, t.capture, Lines(t.buffer), at), buffer := Tail(t.buffer))
  }

  /** An unterminated result counts from the moment its last bytes came. */
  function TrailingIngested(s: Setup, c: Capture, buffer: string, at: int): Capture {
    if c.first.Some? || s.kind(buffer) != TurnResult then c
    else if at >= c.deadline then DeadlineObserved(c, at)
    else c.(first := Some(buffer), firstAt := at)
  }

  function After(s: Setup, t: State, e: Event): State {
    match e
    case Chunk(at, text) => Drained(s, t.(lastStdoutAt := Some(at), buffer := t.buffer + text), at)
    case ChildExit(at) =>
      var d := Drained(s, t, at);
      if d.capture.first.Some? then d
      else if at >= d.capture.deadline then d.(capture := DeadlineObserved(d.capture, at))
      else d.(exitedBeforeCandidate := true)
    case WatchdogTurn(at) => t.(capture := DeadlineObserved(t.capture, at))
    case Trailing(at) => t.(capture := TrailingIngested(s, t.capture, t.buffer, t.lastStdoutAt.GetOr(at)))
  }

  function Run(s: Setup, events: seq<Event>): State {
    if events == [] then Start(s) else After(s, Run(s, events[..|events| - 1]), events[|events| - 1])
  }

  /** The candidate once the child is done: the buffer is read once more, and a result in it is a second one. */
  function Finalized(s: Setup, t: State, now: int): State {
    var d := Drained(s, t, now);
    if s.kind(d.buffer) != TurnResult then d
    else if d.capture.first.None? then d.(capture := d.capture.(first := Some(d.buffer), firstAt := now))
    else d.(capture := d.capture.(duplicate := true))
  }

  class Launch {
    ghost const setup: Setup
    const kind: string -> Kind
    const idleWindow: int
    const hardDeadline: int
    var firstCandidate: Option<string>
    ghost var firstAt: int
    var duplicateCandidate: bool
    var cancellationReceipt: Option<string>
    var duplicateCancellationReceipt: bool
    var deadline: int
    var watchdogExpiredAt: Option<int>
    ghost var heartbeats: nat
    var acceptedHeartbeat: bool
    var stdoutBuffer: string
    var lastStdoutObservedAt: Option<int>
    var childExitedBeforeCandidate: bool

    ghost function Captured(): Capture
      reads this
    {
      Capture(firstCandidate, firstAt, duplicateCandidate, cancellationReceipt, duplicateCancellationReceipt,
              deadline, watchdogExpiredAt, heartbeats)
    }

    ghost function Value(): State
      reads this
    {
      State(Captured(), stdoutBuffer, lastStdoutObservedAt, childExitedBeforeCandidate)
    }

    ghost predicate Valid()
      reads this
    {
      && setup.kind == kind && setup.idleWindow == idleWindow && setup.hardDeadline == hardDeadline
      && (acceptedHeartbeat <==> heartbeats > 0)
    }

    constructor (s: Setup)
      ensures Valid() && setup == s && Value() == Start(s)
    {
      setup, kind, idleWindow, hardDeadline := s, s.kind, s.idleWindow, s.hardDeadline;
      firstCandidate, firstAt, duplicateCandidate := None, 0, false;
      cancellationReceipt, duplicateCancellationReceipt := None, false;
      deadline := Min(s.startedAt + s.startupAllowance, s.hardDeadline);
      watchdogExpiredAt, heartbeats, acceptedHeartbeat := None, 0, false;
      stdoutBuffer, lastStdoutObservedAt, childExitedBeforeCandidate := "", None, false;
    }

    method ObserveDeadline(at: int) returns (reached: bool)
      requires Valid()
      modifies this`watchdogExpiredAt
      ensures Valid()
      ensures reached <==> deadline <= at
      ensures Captured() == DeadlineObserved(old(Captured()), at)
    {
      if at < deadline {
        return false;
      }
      if watchdogExpiredAt == None {
        watchdogExpiredAt := Some(deadline);
      }
      return true;
    }

    method IngestStdoutLine(line: string, at: int)
      requires Valid()
      modifies this
      ensures Valid()
      ensures Value() == old(Value()).(capture := Ingested(setup, old(Captured()), line, at))
    {
      match kind(line) {
        case Cancellation =>
          if cancellationReceipt == None {
            cancellationReceipt := Some(line);
          } else {
            duplicateCancellationReceipt := true;
          }
        case Heartbeat =>
          if firstCandidate.Some? {
            return;
          }
          var reached := ObserveDeadline(at);
          if reached {
            return;
          }
          acceptedHeartbeat, heartbeats := true, heartbeats + 1;
          deadline := Min(at + idleWindow, hardDeadline);
        case TurnResult =>
          if firstCandidate.Some? {
            duplicateCandidate := true;
            return;
          }
          var reached := ObserveDeadline(at);
          if reached {
            return;
          }
          firstCandidate, firstAt := Some(line), at;
        case Noise =>
      }
    }

    method DrainStdoutBuffer(at: int)
      requires Valid()
      modifies this
      ensures Valid()
      ensures Value() == Drained(setup, old(Value()), at)
    {
      hide Ingested, IngestedAll, Lines, Tail, NewlineAt;
      ghost var tail, done := Tail(stdoutBuffer), IngestedAll(setup, Captured(), Lines(stdoutBuffer), at);
      var newline := NewlineAt(stdoutBuffer);
      while newline < |stdoutBuffer|
        invariant Valid() && newline == NewlineAt(stdoutBuffer) && Tail(stdoutBuffer) == tail
        invariant IngestedAll(setup, Captured(), Lines(stdoutBuffer), at) == done
        invariant lastStdoutObservedAt == old(lastStdoutObservedAt)
        invariant childExitedBeforeCandidate == old(childExitedBeforeCandidate)
        decreases |stdoutBuffer|
      {
        var line := stdoutBuffer[..newline];
        FirstLineIs(stdoutBuffer, newline);
        IngestFirst(setup, Captured(), line, Lines(stdoutBuffer[newline + 1..]), at);
        stdoutBuffer := stdoutBuffer[newline + 1..];
        newline := NewlineAt(stdoutBuffer);
        IngestStdoutLine(line, at);
      }
      NoLineLeft(stdoutBuffer);
      NothingToIngest(setup, Captured(), at);
    }

    method OnStdoutChunk(at: int, text: string)
      requires Valid()
      modifies this
      ensures Valid()
      ensures Value() == After(setup, old(Value()), Chunk(at, text))
    {
      lastStdoutObservedAt := Some(at);
      stdoutBuffer := stdoutBuffer + text;
      DrainStdoutBuffer(at);
    }

    method OnChildExit(at: int)
      requires Valid()
      modifies this
      ensures Valid()
      ensures Value() == After(setup, old(Value()), ChildExit(at))
    {
      DrainStdoutBuffer(at);
      if firstCandidate == None {
        var reached := ObserveDeadline(at);
        if !reached {
          childExitedBeforeCandidate := true;
        }
      }
    }

    method OnWatchdogTurn(at: int) returns (expired: bool)
      requires Valid()
      modifies this
      ensures Valid()
      ensures expired <==> at >= old(deadline)
      ensures Value() == After(setup, old(Value()), WatchdogTurn(at))
    {
      expired := ObserveDeadline(at);
    }

    method IngestTrailingCandidate(now: int)
      requires Valid()
      modifies this
      ensures Valid()
      ensures Value() == After(setup, old(Value()), Trailing(now))
    {
      if firstCandidate.Some? || kind(stdoutBuffer) != TurnResult {
        return;
      }
      var at := lastStdoutObservedAt.GetOr(now);
      var reached := ObserveDeadline(at);
      if reached {
        return;
      }
      firstCandidate, firstAt := Some(stdoutBuffer), at;
    }

    method FinalizeCandidate(now: int)
      requires Valid()
      modifies this
      ensures Valid()
      ensures Value() == Finalized(setup, old(Value()), now)
    {
      DrainStdoutBuffer(now);
      if kind(stdoutBuffer) == TurnResult {
        if firstCandidate == None {
          firstCandidate, firstAt := Some(stdoutBuffer), now;
        } else {
          duplicateCandidate := true;
        }
      }
    }
  }

  // ----- cutting -----

  /** Lines glued back together, each with its newline. */
  function Glue(lines: seq<string>): string {
    if lines == [] then "" else lines[0] + "\n" + Glue(lines[1..])
  }

  ghost predicate Cut(text: string, lines: seq<string>, tail: string) {
    && text == Glue(lines) + tail
    && LineText(tail) && forall i :: 0 <= i < |lines| ==> LineText(lines[i])
  }

  /** There is exactly one way to cut a text at its newlines, and it is the one the drain finds. */
  lemma {:induction false} CutUnique(text: string, lines: seq<string>, tail: string)
    ensures Cut(text, lines, tail) <==> lines == Lines(text) && tail == Tail(text)
    decreases |text|, 1
  {
    var n := NewlineAt(text);
    if lines == [] {
      assert Glue(lines) + tail == tail;
    } else {
      var rest := Glue(lines[1..]) + tail;
      assert Glue(lines) + tail == lines[0] + "\n" + rest;
      if n == |text| {
        assert (lines[0] + "\n" + rest)[|lines[0]|] == '\n';
      } else {
        CutStep(text, n, lines, tail, rest);
      }
    }
  }

  lemma {:induction false} CutStep(text: string, n: nat, lines: seq<string>, tail: string, rest: string)
    requires n == NewlineAt(text) < |text| && lines != [] && rest == Glue(lines[1..]) + tail
    ensures Cut(text, lines, tail) <==> lines == Lines(text) && tail == Tail(text)
    decreases |text|, 0
  {
    hide *;
    var a, b := text[..n], text[n + 1..];
    CutUnique(b, lines[1..], tail);
    FirstLineIs(text, n);
    assert text == a + "\n" + b;
    assert lines == [lines[0]] + lines[1..];
    if Cut(text, lines, tail) {
      CutGives(a, b, lines, tail);
    } else if lines[0] == a && Cut(b, lines[1..], tail) {
      CutTakes(a, b, lines, tail);
    }
  }

  lemma FirstLineIs(text: string, n: nat)
    requires n == NewlineAt(text) < |text|
    ensures LineText(text[..n]) && text[n] == '\n'
    ensures Lines(text) == [text[..n]] + Lines(text[n + 1..]) && Tail(text) == Tail(text[n + 1..])
  {
    hide NewlineAt, LineText;
  }

  lemma NoLineLeft(text: string)
    requires NewlineAt(text) == |text|
    ensures Lines(text) == [] && Tail(text) == text
  {
  }

  lemma IngestFirst(s: Setup, c: Capture, line: string, lines: seq<string>, at: int)
    ensures IngestedAll(s, c, [line] + lines, at) == IngestedAll(s, Ingested(s, c, line, at), lines, at)
  {
    assert ([line] + lines)[1..] == lines;
  }

  lemma NothingToIngest(s: Setup, c: Capture, at: int)
    ensures IngestedAll(s, c, [], at) == c
  {
  }

  lemma CutGives(a: string, b: string, lines: seq<string>, tail: string)
    requires LineText(a) && lines != [] && Cut(a + "\n" + b, lines, tail)
    ensures lines[0] == a && Cut(b, lines[1..], tail)
  {
    hide LineText;
    var rest := Glue(lines[1..]) + tail;
    assert Glue(lines) + tail == lines[0] + "\n" + rest;
    FirstNewline(a, b, lines[0], rest);
    assert forall i :: 0 <= i < |lines| - 1 ==> lines[1..][i] == lines[i + 1];
  }

  lemma CutTakes(a: string, b: string, lines: seq<string>, tail: string)
    requires LineText(a) && lines != [] && lines[0] == a && Cut(b, lines[1..], tail)
    ensures Cut(a + "\n" + b, lines, tail)
  {
    hide LineText;
    var below := lines[1..];
    assert Glue(lines) + tail == a + "\n" + (Glue(below) + tail);
    forall i | 0 <= i < |lines| ensures LineText(lines[i]) {
      assert i > 0 ==> lines[i] == below[i - 1];
    }
  }

  lemma FirstNewline(a: string, x: string, b: string, y: string)
    requires LineText(a) && LineText(b) && a + "\n" + x == b + "\n" + y
    ensures a == b && x == y
  {
    var s, t := a + "\n" + x, b + "\n" + y;
    assert forall k :: 0 <= k < |a| ==> s[k] == a[k];
    assert forall k :: 0 <= k < |b| ==> t[k] == b[k];
    assert s[|a|] == '\n' && t[|b|] == '\n';
    assert |a| == |b|;
    assert a == s[..|a|] && x == s[|a| + 1..];
    assert b == t[..|b|] && y == t[|b| + 1..];
  }

  lemma {:induction false} GlueAppend(a: seq<string>, b: seq<string>)
    ensures Glue(a + b) == Glue(a) + Glue(b)
  {
    if a == [] {
      assert a + b == b;
    } else {
      GlueAppend(a[1..], b);
      assert (a + b)[1..] == a[1..] + b && (a + b)[0] == a[0];
      var x, y, z := a[0] + "\n", Glue(a[1..]), Glue(b);
      assert x + (y + z) == (x + y) + z;
    }
  }

  lemma CutAppend(a: string, b: string)
    ensures Lines(a + b) == Lines(a) + Lines(Tail(a) + b)
    ensures Tail(a + b) == Tail(Tail(a) + b)
  {
    hide Glue, Lines, Tail, LineText;
    var rest := Tail(a) + b;
    CutUnique(a, Lines(a), Tail(a));
    CutUnique(rest, Lines(rest), Tail(rest));
    GlueAppend(Lines(a), Lines(rest));
    var g, h := Glue(Lines(a)), Glue(Lines(rest));
    assert a + b == (g + Tail(a)) + b == g + rest == g + (h + Tail(rest)) == (g + h) + Tail(rest);
    CutUnique(a + b, Lines(a) + Lines(rest), Tail(rest));
  }

  /** Everything the child has printed. */
  function Output(events: seq<Event>): string {
    if events == [] then "" else Output(events[..|events| - 1]) + TextOf(events[|events| - 1])
  }

  function TextOf(e: Event): string {
    match e case Chunk(_, text) => text case _ => ""
  }

  /** The lines handed to the line parser, in order, over all the drains of a run. */
  function Heard(s: Setup, events: seq<Event>): seq<string> {
    if events == [] then []
    else Heard(s, events[..|events| - 1]) + HeardIn(Run(s, events[..|events| - 1]), events[|events| - 1])
  }

  function HeardIn(t: State, e: Event): seq<string> {
    match e case Chunk(_, text) => Lines(t.buffer + text) case ChildExit(_) => Lines(t.buffer) case _ => []
  }

  /** However the output is cut into chunks: what was heard is its newline split, what is buffered its open end. */
  lemma {:induction false} StreamIsCut(s: Setup, events: seq<Event>)
    ensures Heard(s, events) == Lines(Output(events))
    ensures Run(s, events).buffer == Tail(Output(events)) && LineText(Run(s, events).buffer)
  {
    hide *;
    if events == [] {
      NothingHeard(s);
    } else {
      var before, last := events[..|events| - 1], events[|events| - 1];
      StreamIsCut(s, before);
      assert before + [last] == events;
      LastEvent(s, before, last);
      EventIsCut(s, Run(s, before), Output(before), last);
    }
    OpenEnd(Output(events));
  }

  lemma NothingHeard(s: Setup)
    ensures Heard(s, []) == [] && Output([]) == "" && Run(s, []).buffer == "" && Lines("") == [] && Tail("") == ""
  {
  }

  lemma EventIsCut(s: Setup, t: State, printed: string, e: Event)
    requires t.buffer == Tail(printed)
    ensures Lines(printed) + HeardIn(t, e) == Lines(printed + TextOf(e))
    ensures After(s, t, e).buffer == Tail(printed + TextOf(e))
  {
    hide IngestedAll, TrailingIngested, Lines, Tail;
    OpenEnd(printed);
    CutAppend(printed, TextOf(e));
    assert !e.Chunk? ==> printed + "" == printed && Tail(printed) + "" == Tail(printed);
  }

  lemma OpenEnd(text: string)
    ensures LineText(Tail(text)) && Lines(Tail(text)) == [] && Tail(Tail(text)) == Tail(text)
  {
    CutUnique(text, Lines(text), Tail(text));
    CutUnique(Tail(text), [], Tail(text));
  }

  // ----- what is decided -----

  function CountOf(s: Setup, k: Kind, lines: seq<string>): nat
    decreases |lines|
  {
    if lines == [] then 0 else (if s.kind(lines[0]) == k then 1 else 0) + CountOf(s, k, lines[1..])
  }

  function FirstOf(s: Setup, k: Kind, lines: seq<string>): Option<string>
    decreases |lines|
  {
    if lines == [] then None else if s.kind(lines[0]) == k then Some(lines[0]) else FirstOf(s, k, lines[1..])
  }

  lemma {:induction false} CountAppend(s: Setup, k: Kind, a: seq<string>, b: seq<string>)
    ensures CountOf(s, k, a + b) == CountOf(s, k, a) + CountOf(s, k, b)
    ensures FirstOf(s, k, a + b) == if FirstOf(s, k, a).Some? then FirstOf(s, k, a) else FirstOf(s, k, b)
    ensures FirstOf(s, k, a).Some? <==> CountOf(s, k, a) > 0
    decreases |a|
  {
    if a == [] {
      assert a + b == b;
    } else {
      CountAppend(s, k, a[1..], b);
      assert (a + b)[1..] == a[1..] + b;
    }
  }

  /** A value that keeps the first of a kind and remembers whether there was a second. */
  ghost predicate Decided(s: Setup, k: Kind, lines: seq<string>, first: Option<string>, duplicate: bool) {
    first == FirstOf(s, k, lines) && (duplicate <==> CountOf(s, k, lines) >= 2)
  }

  ghost predicate Decides(s: Setup, c: Capture, lines: seq<string>) {
    && Decided(s, Cancellation, lines, c.cancellation, c.duplicateCancellation)
    && (c.expiredAt.None? ==> Decided(s, TurnResult, lines, c.first, c.duplicate))
  }

  lemma LineDecides(s: Setup, c: Capture, lines: seq<string>, line: string, at: int)
    requires Decides(s, c, lines)
    ensures Decides(s, Ingested(s, c, line, at), lines + [line])
  {
    CountAppend(s, Cancellation, lines, [line]);
    CountAppend(s, TurnResult, lines, [line]);
  }

  lemma {:induction false} LinesDecide(s: Setup, c: Capture, heard: seq<string>, lines: seq<string>, at: int)
    requires Decides(s, c, heard)
    ensures Decides(s, IngestedAll(s, c, lines, at), heard + lines)
    decreases |lines|
  {
    hide Decides, Ingested;
    if lines == [] {
      assert heard + lines == heard;
    } else {
      LineDecides(s, c, heard, lines[0], at);
      LinesDecide(s, Ingested(s, c, lines[0], at), heard + [lines[0]], lines[1..], at);
      assert heard + [lines[0]] + lines[1..] == heard + lines;
    }
  }

  ghost predicate NoTrailing(events: seq<Event>) {
    forall e :: e in events ==> !e.Trailing?
  }

  lemma {:induction false} HeardDecides(s: Setup, events: seq<Event>)
    requires NoTrailing(events)
    ensures Decides(s, Run(s, events).capture, Heard(s, events))
  {
    if events != [] {
      hide IngestedAll;
      var before := events[..|events| - 1];
      HeardDecides(s, before);
      var t := Run(s, before);
      match events[|events| - 1]
      case Chunk(at, text) =>
        LinesDecide(s, t.capture, Heard(s, before), Lines(t.buffer + text), at);
      case ChildExit(at) =>
        LinesDecide(s, t.capture, Heard(s, before), Lines(t.buffer), at);
      case WatchdogTurn(_) =>
        assert Heard(s, before) + [] == Heard(s, before);
      case Trailing(_) =>
    }
  }

  /**
   Times aside, what is decided depends on the output alone: the first result line, and whether there is a
   second one, are those of the newline split, wherever the chunks end.
   */
  lemma VerdictIgnoresChunking(s: Setup, events: seq<Event>)
    requires NoTrailing(events) && Run(s, events).capture.expiredAt.None?
    ensures var c, lines := Run(s, events).capture, Lines(Output(events));
            && Decided(s, TurnResult, lines, c.first, c.duplicate)
            && Decided(s, Cancellation, lines, c.cancellation, c.duplicateCancellation)
  {
    StreamIsCut(s, events);
    HeardDecides(s, events);
  }

  // ----- what finalizing makes of it -----

  function Results(s: Setup, lines: seq<string>): seq<string>
    decreases |lines|
  {
    if lines == [] then [] else (if s.kind(lines[0]) == TurnResult then [lines[0]] else []) + Results(s, lines[1..])
  }

  /** How many result lines are refused because they come too late and none was taken before. */
  function RefusedIn(s: Setup, c: Capture, lines: seq<string>, at: int): nat
    decreases |lines|
  {
    if lines == [] then 0
    else
      (if s.kind(lines[0]) == TurnResult && c.first.None? && at >= c.deadline then 1 else 0)
      + RefusedIn(s, Ingested(s, c, lines[0], at), lines[1..], at)
  }

  function Refused(s: Setup, events: seq<Event>): nat {
    if events == [] then 0
    else Refused(s, events[..|events| - 1]) + RefusedAt(s, Run(s, events[..|events| - 1]), events[|events| - 1])
  }

  function RefusedAt(s: Setup, t: State, e: Event): nat {
    match e
    case Chunk(at, text) => RefusedIn(s, t.capture, Lines(t.buffer + text), at)
    case ChildExit(at) => RefusedIn(s, t.capture, Lines(t.buffer), at)
    case _ => 0
  }

  /** The first result was taken from the open end, before its line was complete. */
  ghost predicate FromBuffer(s: Setup, events: seq<Event>) {
    && events != []
    && (FromBuffer(s, events[..|events| - 1]) || TakesOpenEnd(s, Run(s, events[..|events| - 1]), events[|events| - 1]))
  }

  ghost predicate TakesOpenEnd(s: Setup, t: State, e: Event) {
    e.Trailing? && t.capture.first.None? && After(s, t, e).capture.first.Some?
  }

  /** The results printed that were not refused: complete lines, and the open end there is when finalizing. */
  function Unrefused(s: Setup, events: seq<Event>): seq<string> {
    var printed, n := Results(s, Lines(Output(events))), Refused(s, events);
    var open := Tail(Output(events));
    (if n <= |printed| then printed[n..] else []) + if s.kind(open) == TurnResult then [open] else []
  }

  /** What a capture says of the results heard so far, the first `refused` of them having been refused. */
  ghost predicate Standing(c: Capture, results: seq<string>, refused: nat, fromBuffer: bool) {
    && refused <= |results|
    && (c.first.None? ==> |results| == refused && !c.duplicate && !fromBuffer)
    && (c.first.Some? && fromBuffer ==> (c.duplicate <==> |results| > refused))
    && (c.first.Some? && !fromBuffer ==>
          |results| > refused && c.first == Some(results[refused]) && (c.duplicate <==> |results| > refused + 1))
  }

  lemma {:induction false} ResultsAppend(s: Setup, a: seq<string>, b: seq<string>)
    ensures Results(s, a + b) == Results(s, a) + Results(s, b)
    decreases |a|
  {
    if a == [] {
      assert a + b == b;
    } else {
      ResultsAppend(s, a[1..], b);
      assert (a + b)[1..] == a[1..] + b && (a + b)[0] == a[0];
      var head := if s.kind(a[0]) == TurnResult then [a[0]] else [];
      assert head + (Results(s, a[1..]) + Results(s, b)) == (head + Results(s, a[1..])) + Results(s, b);
    }
  }

  lemma ResultsOne(s: Setup, line: string)
    ensures Results(s, [line]) == if s.kind(line) == TurnResult then [line] else []
  {
    assert [line][1..] == [];
  }

  lemma {:induction false} LinesStand(s: Setup, c: Capture, heard: seq<string>, refused: nat, fromBuffer: bool, lines: seq<string>, at: int)
    requires Standing(c, Results(s, heard), refused, fromBuffer)
    ensures Standing(IngestedAll(s, c, lines, at), Results(s, heard + lines), refused + RefusedIn(s, c, lines, at), fromBuffer)
    decreases |lines|
  {
    hide Standing, Results, Ingested;
    if lines == [] {
      assert heard + lines == heard;
    } else {
      var late := s.kind(lines[0]) == TurnResult && c.first.None? && at >= c.deadline;
      var more := if late then 1 else 0;
      ResultsAppend(s, heard, [lines[0]]);
      ResultsOne(s, lines[0]);
      LineStands(s, c, Results(s, heard), refused, fromBuffer, lines[0], at);
      LinesStand(s, Ingested(s, c, lines[0], at), heard + [lines[0]], refused + more, fromBuffer, lines[1..], at);
      assert heard + [lines[0]] + lines[1..] == heard + lines;
    }
  }

  lemma LineStands(s: Setup, c: Capture, results: seq<string>, refused: nat, fromBuffer: bool, line: string, at: int)
    requires Standing(c, results, refused, fromBuffer)
    ensures Standing(Ingested(s, c, line, at), results + (if s.kind(line) == TurnResult then [line] else []),
                     refused + (if s.kind(line) == TurnResult && c.first.None? && at >= c.deadline then 1 else 0), fromBuffer)
  {
    assert results + [] == results;
  }

  lemma {:induction false} RunStands(s: Setup, events: seq<Event>)
    ensures Standing(Run(s, events).capture, Results(s, Heard(s, events)), Refused(s, events), FromBuffer(s, events))
  {
    hide *;
    if events == [] {
      StartStands(s);
    } else {
      var before, last := events[..|events| - 1], events[|events| - 1];
      RunStands(s, before);
      LastEvent(s, before, last);
      assert before + [last] == events;
      EventStands(s, Run(s, before), last, Heard(s, before), Refused(s, before), FromBuffer(s, before));
    }
  }

  lemma StartStands(s: Setup)
    ensures Standing(Run(s, []).capture, Results(s, Heard(s, [])), Refused(s, []), FromBuffer(s, []))
  {
  }

  lemma LastEvent(s: Setup, before: seq<Event>, e: Event)
    ensures var events, t := before + [e], Run(s, before);
            && Run(s, events) == After(s, t, e) && Heard(s, events) == Heard(s, before) + HeardIn(t, e)
            && Output(events) == Output(before) + TextOf(e)
            && Refused(s, events) == Refused(s, before) + RefusedAt(s, t, e)
            && (FromBuffer(s, events) <==> FromBuffer(s, before) || TakesOpenEnd(s, t, e))
  {
    assert (before + [e])[..|before|] == before;
    hide HeardIn, RefusedAt, TakesOpenEnd, After, TextOf;
  }

  lemma EventStands(s: Setup, t: State, e: Event, heard: seq<string>, refused: nat, fromBuffer: bool)
    requires Standing(t.capture, Results(s, heard), refused, fromBuffer)
    ensures Standing(After(s, t, e).capture, Results(s, heard + HeardIn(t, e)), refused + RefusedAt(s, t, e),
                     fromBuffer || TakesOpenEnd(s, t, e))
  {
    hide IngestedAll, Results, Standing, TrailingIngested, RefusedIn, Lines, Tail;
    match e
    case Chunk(at, text) =>
      LinesStand(s, t.capture, heard, refused, fromBuffer, Lines(t.buffer + text), at);
    case ChildExit(at) =>
      LinesStand(s, t.capture, heard, refused, fromBuffer, Lines(t.buffer), at);
      ObservedStands(s, t, Results(s, heard + Lines(t.buffer)), refused + RefusedIn(s, t.capture, Lines(t.buffer), at), fromBuffer, at);
    case WatchdogTurn(at) =>
      assert heard + [] == heard;
      ExpiryStands(t.capture, Results(s, heard), refused, fromBuffer, at);
    case Trailing(at) =>
      assert heard + [] == heard;
      TrailingStands(s, t, Results(s, heard), refused, fromBuffer, at);
  }

  lemma ExpiryStands(c: Capture, results: seq<string>, refused: nat, fromBuffer: bool, at: int)
    requires Standing(c, results, refused, fromBuffer)
    ensures Standing(DeadlineObserved(c, at), results, refused, fromBuffer)
  {
  }

  lemma ObservedStands(s: Setup, t: State, results: seq<string>, refused: nat, fromBuffer: bool, at: int)
    requires Standing(Drained(s, t, at).capture, results, refused, fromBuffer)
    ensures Standing(After(s, t, ChildExit(at)).capture, results, refused, fromBuffer)
  {
    hide Drained, Standing;
    ExpiryStands(Drained(s, t, at).capture, results, refused, fromBuffer, at);
  }

  lemma TrailingStands(s: Setup, t: State, results: seq<string>, refused: nat, fromBuffer: bool, at: int)
    requires Standing(t.capture, results, refused, fromBuffer)
    ensures var u := After(s, t, Trailing(at));
            Standing(u.capture, results, refused, fromBuffer || (t.capture.first.None? && u.capture.first.Some?))
  {
  }

  /**
   What finalizing says, after any run: the first result is the first one not refused, unless it was taken from
   the open end before; and it is called a duplicate if there are two that were not refused, or if it was taken
   from the open end and a result not refused is read after that, be it the same text again. The script finalizes
   only a run that has a first result, so that finalizing could still take one does not come to pass there.
   */
  lemma FinalVerdict(s: Setup, events: seq<Event>, now: int)
    ensures var c, results := Finalized(s, Run(s, events), now).capture, Unrefused(s, events);
            && (c.first.Some? <==> FromBuffer(s, events) || results != [])
            && (!FromBuffer(s, events) && results != [] ==> c.first == Some(results[0]))
            && (c.duplicate <==> |results| >= 2 || (FromBuffer(s, events) && results != []))
  {
    RunStands(s, events);
    StreamIsCut(s, events);
    OpenEnd(Output(events));
    FinalizedOnce(s, Run(s, events), now);
    hide Run, Finalized, Output, Lines, Tail, Refused, FromBuffer, Results, Heard;
    FinalStands(s, Run(s, events).capture, Results(s, Lines(Output(events))), Refused(s, events), FromBuffer(s, events));
  }

  lemma FinalizedOnce(s: Setup, t: State, now: int)
    requires Lines(t.buffer) == [] && Tail(t.buffer) == t.buffer
    ensures Finalized(s, t, now).capture ==
            if s.kind(t.buffer) != TurnResult then t.capture
            else if t.capture.first.None? then t.capture.(first := Some(t.buffer), firstAt := now)
            else t.capture.(duplicate := true)
  {
    hide Lines, Tail;
  }

  lemma FinalStands(s: Setup, c: Capture, printed: seq<string>, refused: nat, fromBuffer: bool)
    requires Standing(c, printed, refused, fromBuffer)
    ensures refused <= |printed|
    ensures var results := printed[refused..];
            && (c.first.Some? <==> fromBuffer || results != [])
            && (!fromBuffer && results != [] ==> c.first == Some(results[0]))
            && (c.duplicate <==> |results| >= 2 || (fromBuffer && results != []))
  {
  }

  /**
   So the flag tells whether two results were printed, those refused left aside, exactly unless the first one was
   taken from the open end and a single one is read after that. In a run that did not expire none was refused.
   */
  lemma DuplicateFlagExact(s: Setup, events: seq<Event>, now: int)
    ensures var c, results := Finalized(s, Run(s, events), now).capture, Unrefused(s, events);
            (c.duplicate <==> |results| >= 2) <==> !(FromBuffer(s, events) && |results| == 1)
    ensures Run(s, events).capture.expiredAt.None? ==> Refused(s, events) == 0
  {
    hide Finalized, Run, Unrefused, FromBuffer, Refused;
    FinalVerdict(s, events, now);
    RefusedExpires(s, events);
  }

  lemma {:induction false} RefusedExpires(s: Setup, events: seq<Event>)
    ensures Refused(s, events) > 0 ==> Run(s, events).capture.expiredAt.Some?
  {
    if events != [] {
      hide IngestedAll, RefusedIn, Lines, Tail;
      var before := events[..|events| - 1];
      RefusedExpires(s, before);
      var t := Run(s, before);
      match events[|events| - 1]
      case Chunk(at, text) => RefusedInExpires(s, t.capture, Lines(t.buffer + text), at);
      case ChildExit(at) => RefusedInExpires(s, t.capture, Lines(t.buffer), at);
      case _ =>
    }
  }

  lemma {:induction false} RefusedInExpires(s: Setup, c: Capture, lines: seq<string>, at: int)
    ensures c.expiredAt.Some? || RefusedIn(s, c, lines, at) > 0 ==> IngestedAll(s, c, lines, at).expiredAt.Some?
    decreases |lines|
  {
    if lines != [] {
      RefusedInExpires(s, Ingested(s, c, lines[0], at), lines[1..], at);
    }
  }

  /** The result taken from the open end is what the output ended in at that moment, and it stays the first one. */
  lemma {:induction false} BufferTaken(s: Setup, events: seq<Event>) returns (n: nat)
    requires FromBuffer(s, events)
    ensures n < |events| && events[n].Trailing?
    ensures var open := Tail(Output(events[..n])); s.kind(open) == TurnResult && Run(s, events).capture.first == Some(open)
  {
    hide IngestedAll, Output, Tail, Lines;
    var last := |events| - 1;
    var before := events[..last];
    if FromBuffer(s, before) {
      n := BufferTaken(s, before);
      assert before[..n] == events[..n];
      FirstStays(s, Run(s, before), events[last]);
    } else {
      n := last;
      StreamIsCut(s, before);
    }
  }

  lemma FirstStays(s: Setup, t: State, e: Event)
    requires t.capture.first.Some?
    ensures After(s, t, e).capture.first == t.capture.first
  {
    hide IngestedAll;
    match e
    case Chunk(at, text) => FirstStaysIn(s, t.capture, Lines(t.buffer + text), at);
    case ChildExit(at) => FirstStaysIn(s, t.capture, Lines(t.buffer), at);
    case _ =>
  }

  lemma {:induction false} FirstStaysIn(s: Setup, c: Capture, lines: seq<string>, at: int)
    requires c.first.Some?
    ensures IngestedAll(s, c, lines, at).first == c.first
    decreases |lines|
  {
    if lines != [] {
      FirstStaysIn(s, Ingested(s, c, lines[0], at), lines[1..], at);
    }
  }

  const ONE_RESULT: Setup := Setup((line: string) => if line == "R" then TurnResult else Noise, 0, 10, 10, 100)

  /**
   A single result can be called a duplicate: without a newline, because finalizing reads it a second time; and
   with one that came only after the open end had been read, because then the line is read as well. The second
   run has expired.
   */
  lemma LoneResultFlagged()
    ensures var early, late := [Chunk(5, "R"), Trailing(6)], [Chunk(5, "R"), WatchdogTurn(10), Trailing(10), Chunk(11, "\n")];
            && Unrefused(ONE_RESULT, early) == ["R"] && Finalized(ONE_RESULT, Run(ONE_RESULT, early), 7).capture.duplicate
            && Output(late) == "R\n" && Unrefused(ONE_RESULT, late) == ["R"] && Refused(ONE_RESULT, late) == 0
            && Finalized(ONE_RESULT, Run(ONE_RESULT, late), 12).capture.duplicate
  {
    hide *;
    var a, b, c, d := Chunk(5, "R"), WatchdogTurn(10), Trailing(10), Chunk(11, "\n");
    var open := Capture(None, 0, false, None, false, 10, None, 0);
    OneChunk(a, open);
    TakeNow(open);
    assert [a] + [Trailing(6)] == [a, Trailing(6)];
    EndsOpen([a, Trailing(6)], 7);
    WaitFirst(open);
    assert [a] + [b] == [a, b] && [a, b] + [c] == [a, b, c] && [a, b, c] + [d] == [a, b, c, d];
    EndsClosed([a, b, c], 12);
  }

  /** What a run of the one-result setup has come to while its output is the open "R". */
  ghost predicate Open(events: seq<Event>, c: Capture, taken: bool) {
    && Run(ONE_RESULT, events) == State(c, "R", Some(5), false) && Output(events) == "R"
    && Refused(ONE_RESULT, events) == 0 && (FromBuffer(ONE_RESULT, events) <==> taken)
  }

  lemma OneChunk(e: Event, open: Capture)
    requires e == Chunk(5, "R") && open == Capture(None, 0, false, None, false, 10, None, 0)
    ensures Open([e], open, false)
  {
    OpenResult();
    assert [e][..0] == [] && "" + "R" == "R";
  }

  lemma TakeNow(open: Capture)
    requires open == Capture(None, 0, false, None, false, 10, None, 0) && Open([Chunk(5, "R")], open, false)
    ensures Open([Chunk(5, "R")] + [Trailing(6)], open.(first := Some("R"), firstAt := 5), true)
  {
    hide Run, Output, Refused, FromBuffer, Heard, HeardIn;
    OpenResult();
    LastEvent(ONE_RESULT, [Chunk(5, "R")], Trailing(6));
    assert "R" + "" == "R";
  }

  /** The watchdog expires first; the open end is taken all the same, because its bytes came in time. */
  lemma WaitFirst(open: Capture)
    requires open == Capture(None, 0, false, None, false, 10, None, 0) && Open([Chunk(5, "R")], open, false)
    ensures Open([Chunk(5, "R")] + [WatchdogTurn(10)] + [Trailing(10)],
                 open.(first := Some("R"), firstAt := 5, expiredAt := Some(10)), true)
  {
    hide Run, Output, Refused, FromBuffer, Heard, HeardIn;
    OpenResult();
    LastEvent(ONE_RESULT, [Chunk(5, "R")], WatchdogTurn(10));
    LastEvent(ONE_RESULT, [Chunk(5, "R")] + [WatchdogTurn(10)], Trailing(10));
    assert "R" + "" == "R";
  }

  lemma EndsOpen(events: seq<Event>, now: int)
    requires exists c :: Open(events, c, true)
    ensures Unrefused(ONE_RESULT, events) == ["R"] && Finalized(ONE_RESULT, Run(ONE_RESULT, events), now).capture.duplicate
  {
    hide Run, Output, Refused, FromBuffer, Finalized, Lines, Tail, Results;
    OpenResult();
    FinalVerdict(ONE_RESULT, events, now);
  }

  lemma EndsClosed(events: seq<Event>, now: int)
    requires exists c: Capture :: c.first.Some? && Open(events, c, true)
    ensures var all := events + [Chunk(11, "\n")];
            && Output(all) == "R\n" && Unrefused(ONE_RESULT, all) == ["R"] && Refused(ONE_RESULT, all) == 0
            && Finalized(ONE_RESULT, Run(ONE_RESULT, all), now).capture.duplicate
  {
    hide Run, Output, Refused, FromBuffer, Finalized, Lines, Tail, Results, Open;
    Closed(events);
    OpenResult();
    FinalVerdict(ONE_RESULT, events + [Chunk(11, "\n")], now);
  }

  lemma Closed(events: seq<Event>)
    requires exists c: Capture :: c.first.Some? && Open(events, c, true)
    ensures var all := events + [Chunk(11, "\n")];
            Output(all) == "R\n" && Refused(ONE_RESULT, all) == 0 && FromBuffer(ONE_RESULT, all)
  {
    hide Run, Output, Refused, FromBuffer, Lines, Tail, Heard, HeardIn, RefusedIn, After, TakesOpenEnd;
    OpenResult();
    LastEvent(ONE_RESULT, events, Chunk(11, "\n"));
    NoneRefused(Run(ONE_RESULT, events).capture, ["R"], 11);
  }

  lemma NoneRefused(c: Capture, lines: seq<string>, at: int)
    requires c.first.Some? && |lines| == 1
    ensures RefusedIn(ONE_RESULT, c, lines, at) == 0
  {
    assert lines[1..] == [];
  }

  lemma OpenResult()
    ensures Lines("R") == [] && Tail("R") == "R" && Lines("R\n") == ["R"] && Tail("R\n") == "" && "R" + "\n" == "R\n"
    ensures Results(ONE_RESULT, []) == [] && Results(ONE_RESULT, ["R"]) == ["R"]
    ensures ONE_RESULT.kind("R") == TurnResult && ONE_RESULT.kind("") == Noise
  {
    CutUnique("R", [], "R");
    assert Glue([]) + "R" == "R";
    CutUnique("R\n", ["R"], "");
    assert ["R"][1..] == [] && Glue(["R"]) == "R" + "\n" + "" && Glue(["R"]) + "" == "R\n";
  }

  // ----- deadlines -----

  ghost predicate Bounded(s: Setup, c: Capture) {
    && c.deadline <= s.hardDeadline
    && c.deadline <= s.startedAt + s.startupAllowance + c.heartbeats * s.idleWindow
    && (c.first.Some? ==> c.firstAt < s.hardDeadline
                          && c.firstAt < s.startedAt + s.startupAllowance + c.heartbeats * s.idleWindow)
  }

  lemma LineBounded(s: Setup, c: Capture, line: string, at: int)
    requires Bounded(s, c)
    ensures Bounded(s, Ingested(s, c, line, at))
  {
    assert (c.heartbeats + 1) * s.idleWindow == c.heartbeats * s.idleWindow + s.idleWindow;
  }

  lemma {:induction false} LinesBounded(s: Setup, c: Capture, lines: seq<string>, at: int)
    requires Bounded(s, c)
    ensures Bounded(s, IngestedAll(s, c, lines, at))
    decreases |lines|
  {
    hide Bounded, Ingested;
    if lines != [] {
      LineBounded(s, c, lines[0], at);
      LinesBounded(s, Ingested(s, c, lines[0], at), lines[1..], at);
    }
  }

  /** The deadline never passes the hard one, and a result accepted after n heartbeats came within n idle windows. */
  lemma {:induction false} DeadlineBounded(s: Setup, events: seq<Event>)
    ensures Bounded(s, Run(s, events).capture)
  {
    if events != [] {
      hide IngestedAll;
      DeadlineBounded(s, events[..|events| - 1]);
      var t := Run(s, events[..|events| - 1]);
      match events[|events| - 1]
      case Chunk(at, text) =>
        LinesBounded(s, t.capture, Lines(t.buffer + text), at);
      case ChildExit(at) =>
        LinesBounded(s, t.capture, Lines(t.buffer), at);
      case _ =>
    }
  }

  /** A heartbeat line that counts: no result has been taken, and it comes before the deadline that stands. */
  predicate Counts(s: Setup, c: Capture, line: string, at: int) {
    s.kind(line) == Heartbeat && c.first.None? && at < c.deadline
  }

  /** How many of the lines are heartbeats that count. */
  function Beats(s: Setup, c: Capture, lines: seq<string>, at: int): nat
    decreases |lines|
  {
    if lines == [] then 0
    else (if Counts(s, c, lines[0], at) then 1 else 0) + Beats(s, Ingested(s, c, lines[0], at), lines[1..], at)
  }

  /** The instant of the last heartbeat of a run that counts. */
  function LastBeat(s: Setup, events: seq<Event>): Option<int> {
    if events == [] then None
    else
      var before, last := events[..|events| - 1], events[|events| - 1];
      if Beats(s, Run(s, before).capture, HeardIn(Run(s, before), last), last.at) > 0 then Some(last.at) else LastBeat(s, before)
  }

  /** Where the last heartbeat puts the deadline. */
  function DeadlineFor(s: Setup, beat: Option<int>): int {
    if beat.None? then Min(s.startedAt + s.startupAllowance, s.hardDeadline) else Min(beat.value + s.idleWindow, s.hardDeadline)
  }

  lemma {:induction false} LinesMoveDeadline(s: Setup, c: Capture, lines: seq<string>, at: int)
    ensures var n, d := Beats(s, c, lines, at), IngestedAll(s, c, lines, at);
            && d.heartbeats == c.heartbeats + n
            && d.deadline == if n > 0 then Min(at + s.idleWindow, s.hardDeadline) else c.deadline
    decreases |lines|
  {
    if lines != [] {
      LinesMoveDeadline(s, Ingested(s, c, lines[0], at), lines[1..], at);
    }
  }

  /**
   The deadline exactly: the startup allowance as long as no heartbeat counted, and after that the idle window from
   the last one that did, in either case no later than the hard deadline.
   */
  lemma {:induction false} DeadlineExact(s: Setup, events: seq<Event>)
    ensures Run(s, events).capture.deadline == DeadlineFor(s, LastBeat(s, events))
    ensures Run(s, events).capture.heartbeats > 0 <==> LastBeat(s, events).Some?
  {
    if events == [] {
      StartDeadline(s);
    } else {
      hide *;
      var before, last := events[..|events| - 1], events[|events| - 1];
      DeadlineExact(s, before);
      assert before + [last] == events;
      RunLast(s, before, last);
      EventMovesDeadline(s, Run(s, before), last);
    }
  }

  lemma StartDeadline(s: Setup)
    ensures Run(s, []).capture.deadline == DeadlineFor(s, None) && Run(s, []).capture.heartbeats == 0 && LastBeat(s, []) == None
  {
  }

  lemma RunLast(s: Setup, before: seq<Event>, e: Event)
    ensures var events, t := before + [e], Run(s, before);
            && Run(s, events) == After(s, t, e)
            && LastBeat(s, events) == (if Beats(s, t.capture, HeardIn(t, e), e.at) > 0 then Some(e.at) else LastBeat(s, before))
            && DeadlineFor(s, Some(e.at)) == Min(e.at + s.idleWindow, s.hardDeadline)
  {
    assert (before + [e])[..|before|] == before;
    hide After, Beats, HeardIn;
  }

  lemma EventMovesDeadline(s: Setup, t: State, e: Event)
    ensures var n, d := Beats(s, t.capture, HeardIn(t, e), e.at), After(s, t, e).capture;
            && d.heartbeats == t.capture.heartbeats + n
            && d.deadline == if n > 0 then Min(e.at + s.idleWindow, s.hardDeadline) else t.capture.deadline
  {
    LinesMoveDeadline(s, t.capture, HeardIn(t, e), e.at);
    NothingToIngest(s, t.capture, e.at);
    assert Beats(s, t.capture, [], e.at) == 0;
    hide Beats, IngestedAll, Lines, Tail;
  }

  /** Every event of the run comes before the deadline its last heartbeat gave it. */
  ghost predicate InTime(s: Setup, events: seq<Event>) {
    forall n :: 0 <= n < |events| ==> events[n].at < DeadlineFor(s, LastBeat(s, events[..n]))
  }

  /**
   So a child that is heard from in time, each time before the idle window since its last heartbeat is over, expires
   at no event before the hard deadline.
   */
  lemma {:induction false} LiveChildStays(s: Setup, events: seq<Event>)
    requires s.idleWindow > 0 && InTime(s, events)
    ensures Run(s, events).capture.expiredAt.None?
    ensures Run(s, events).lastStdoutAt.Some? ==> Run(s, events).lastStdoutAt.value < Run(s, events).capture.deadline
  {
    hide *;
    if events == [] {
      NothingExpired(s);
    } else {
      var before, last := events[..|events| - 1], events[|events| - 1];
      assert before + [last] == events;
      LastInTime(s, before, last);
      LiveChildStays(s, before);
      DeadlineExact(s, before);
      DeadlineCapped(s, LastBeat(s, before));
      StreamIsCut(s, before);
      OpenEnd(Output(before));
      RunLast(s, before, last);
      EventInTime(s, Run(s, before), last);
    }
  }

  lemma NothingExpired(s: Setup)
    ensures Run(s, []).capture.expiredAt.None? && Run(s, []).lastStdoutAt.None?
  {
  }

  lemma LastInTime(s: Setup, before: seq<Event>, e: Event)
    requires InTime(s, before + [e])
    ensures InTime(s, before) && e.at < DeadlineFor(s, LastBeat(s, before))
  {
    hide LastBeat, DeadlineFor;
    var events := before + [e];
    assert events[|before|] == e && events[..|before|] == before;
    forall n | 0 <= n < |before| ensures before[n].at < DeadlineFor(s, LastBeat(s, before[..n])) {
      assert events[n] == before[n] && events[..n] == before[..n];
    }
  }

  lemma DeadlineCapped(s: Setup, beat: Option<int>)
    ensures DeadlineFor(s, beat) <= s.hardDeadline
  {
  }

  lemma EventInTime(s: Setup, t: State, e: Event)
    requires s.idleWindow > 0 && t.capture.expiredAt.None? && e.at < t.capture.deadline <= s.hardDeadline
    requires Lines(t.buffer) == [] && (t.lastStdoutAt.Some? ==> t.lastStdoutAt.value < t.capture.deadline)
    ensures var u := After(s, t, e);
            u.capture.expiredAt.None? && (u.lastStdoutAt.Some? ==> u.lastStdoutAt.value < u.capture.deadline)
  {
    LinesInTime(s, t.capture, HeardIn(t, e), e.at);
    NothingToIngest(s, t.capture, e.at);
    hide IngestedAll, Lines, Tail;
  }

  lemma {:induction false} LinesInTime(s: Setup, c: Capture, lines: seq<string>, at: int)
    requires s.idleWindow > 0 && c.expiredAt.None? && at < c.deadline <= s.hardDeadline
    ensures var d := IngestedAll(s, c, lines, at);
            d.expiredAt.None? && at < d.deadline && (d.deadline == c.deadline || d.deadline == Min(at + s.idleWindow, s.hardDeadline))
    decreases |lines|
  {
    if lines != [] {
      LinesInTime(s, Ingested(s, c, lines[0], at), lines[1..], at);
    }
  }

  /** The instant an event is held against the deadline: an unterminated end counts from its last bytes. */
  function InstantOf(t: State, e: Event): int {
    if e.Trailing? then t.lastStdoutAt.GetOr(e.at) else e.at
  }

  /** The event asks whether the deadline was reached. */
  predicate AsksDeadline(s: Setup, t: State, e: Event) {
    match e
    case WatchdogTurn(_) => true
    case ChildExit(_) => t.capture.first.None?
    case Trailing(_) => t.capture.first.None? && s.kind(t.buffer) == TurnResult
    case Chunk(_, _) => t.capture.first.None? && Pressing(s, HeardIn(t, e))
  }

  predicate Pressing(s: Setup, lines: seq<string>) {
    exists i :: 0 <= i < |lines| && (s.kind(lines[i]) == Heartbeat || s.kind(lines[i]) == TurnResult)
  }

  /** At the `n`-th event the deadline that stood was reached, and the event asked. */
  ghost predicate Reached(s: Setup, events: seq<Event>, n: int)
    requires 0 <= n < |events|
  {
    var t := Run(s, events[..n]);
    AsksDeadline(s, t, events[n]) && InstantOf(t, events[n]) >= t.capture.deadline
  }

  /** At the `n`-th event the child exited before the deadline that stood, with no result so far. */
  ghost predicate ExitedEarly(s: Setup, events: seq<Event>, n: int)
    requires 0 <= n < |events|
  {
    var t := Run(s, events[..n]);
    events[n].ChildExit? && t.capture.first.None? && events[n].at < t.capture.deadline
  }

  /**
   A launch is taken for expired exactly if at some event that asks, the deadline was reached; and the child for gone
   before its result exactly if it exited before the deadline with no result so far.
   */
  lemma {:induction false} EndsExactly(s: Setup, events: seq<Event>)
    requires s.idleWindow > 0
    ensures Run(s, events).capture.expiredAt.Some? <==> exists n :: 0 <= n < |events| && Reached(s, events, n)
    ensures Run(s, events).exitedBeforeCandidate <==> exists n :: 0 <= n < |events| && ExitedEarly(s, events, n)
  {
    hide *;
    if events == [] {
      NothingEnds(s);
    } else {
      var before, last := events[..|events| - 1], events[|events| - 1];
      var m := |before|;
      EndsExactly(s, before);
      StreamIsCut(s, before);
      OpenEnd(Output(before));
      assert before + [last] == events;
      RunLast(s, before, last);
      DeadlineExact(s, before);
      DeadlineCapped(s, LastBeat(s, before));
      EventEnds(s, Run(s, before), last);
      LastReached(s, events);
      forall n | 0 <= n < m
        ensures Reached(s, events, n) <==> Reached(s, before, n)
        ensures ExitedEarly(s, events, n) <==> ExitedEarly(s, before, n)
      {
        assert events[..n] == before[..n] && events[n] == before[n];
        SameReached(s, events, before, n);
      }
    }
  }

  lemma SameReached(s: Setup, events: seq<Event>, before: seq<Event>, n: int)
    requires 0 <= n < |events| && n < |before| && events[..n] == before[..n] && events[n] == before[n]
    ensures Reached(s, events, n) <==> Reached(s, before, n)
    ensures ExitedEarly(s, events, n) <==> ExitedEarly(s, before, n)
  {
    hide Run, AsksDeadline, InstantOf;
  }

  lemma LastReached(s: Setup, events: seq<Event>)
    requires events != []
    ensures var m, t := |events| - 1, Run(s, events[..|events| - 1]);
            && (Reached(s, events, m) <==> AsksDeadline(s, t, events[m]) && InstantOf(t, events[m]) >= t.capture.deadline)
            && (ExitedEarly(s, events, m) <==> events[m].ChildExit? && t.capture.first.None? && events[m].at < t.capture.deadline)
  {
    hide Run, AsksDeadline, InstantOf;
  }

  lemma NothingEnds(s: Setup)
    ensures Run(s, []).capture.expiredAt.None? && !Run(s, []).exitedBeforeCandidate
  {
  }

  lemma EventEnds(s: Setup, t: State, e: Event)
    requires s.idleWindow > 0 && t.capture.deadline <= s.hardDeadline && Lines(t.buffer) == []
    ensures var u := After(s, t, e);
            && (u.capture.expiredAt.Some? <==>
                  t.capture.expiredAt.Some? || (AsksDeadline(s, t, e) && InstantOf(t, e) >= t.capture.deadline))
            && (u.exitedBeforeCandidate <==>
                  t.exitedBeforeCandidate || (e.ChildExit? && t.capture.first.None? && e.at < t.capture.deadline))
  {
    LinesEnd(s, t.capture, HeardIn(t, e), e.at);
    NothingToIngest(s, t.capture, e.at);
    hide IngestedAll, Lines, Tail, Pressing;
  }

  lemma {:induction false} LinesEnd(s: Setup, c: Capture, lines: seq<string>, at: int)
    requires s.idleWindow > 0 && c.deadline <= s.hardDeadline
    ensures IngestedAll(s, c, lines, at).expiredAt.Some? <==>
            c.expiredAt.Some? || (c.first.None? && at >= c.deadline && Pressing(s, lines))
    decreases |lines|
  {
    hide Pressing;
    PressingStep(s, lines);
    if lines != [] {
      LinesEnd(s, Ingested(s, c, lines[0], at), lines[1..], at);
    }
  }

  lemma PressingStep(s: Setup, lines: seq<string>)
    ensures Pressing(s, lines) <==>
            lines != [] && (s.kind(lines[0]) == Heartbeat || s.kind(lines[0]) == TurnResult || Pressing(s, lines[1..]))
  {
    if lines != [] {
      assert forall i :: 1 <= i < |lines| ==> lines[i] == lines[1..][i - 1];
      if Pressing(s, lines[1..]) {
        var i :| 0 <= i < |lines[1..]| && (s.kind(lines[1..][i]) == Heartbeat || s.kind(lines[1..][i]) == TurnResult);
        assert lines[i + 1] == lines[1..][i];
      }
    }
  }

  ghost predicate Monotone(events: seq<Event>) {
    forall i, j :: 0 <= i < j < |events| ==> events[i].at <= events[j].at
  }

  /** From `t` on nothing was accepted that came late: the deadline stands. */
  ghost predicate Frozen(t: State, u: State) {
    var c, d := t.capture, u.capture;
    && d.deadline == c.deadline && d.heartbeats == c.heartbeats
    && (c.first.Some? ==> d.first == c.first && d.firstAt == c.firstAt)
    && (c.first.None? && d.first.Some? ==> t.lastStdoutAt == Some(d.firstAt) && d.firstAt < c.deadline)
    && (u.lastStdoutAt == t.lastStdoutAt || (u.lastStdoutAt.Some? && u.lastStdoutAt.value >= c.deadline))
  }

  lemma {:induction false} LinesLate(s: Setup, c: Capture, lines: seq<string>, at: int)
    requires at >= c.deadline
    ensures var d := IngestedAll(s, c, lines, at);
            d.deadline == c.deadline && d.heartbeats == c.heartbeats && d.first == c.first && d.firstAt == c.firstAt
    decreases |lines|
  {
    if lines != [] {
      LinesLate(s, Ingested(s, c, lines[0], at), lines[1..], at);
    }
  }

  lemma EventLate(s: Setup, t: State, u: State, e: Event)
    requires Frozen(t, u) && e.at >= t.capture.deadline
    ensures Frozen(t, After(s, u, e))
  {
    hide IngestedAll;
    match e
    case Chunk(at, text) =>
      LinesLate(s, u.capture, Lines(u.buffer + text), at);
    case ChildExit(at) =>
      LinesLate(s, u.capture, Lines(u.buffer), at);
    case _ =>
  }

  /**
   Once an event is observed at or past the deadline, the deadline is frozen and no line observed from then on
   is accepted: a result can only still come from bytes that were there before, and before the deadline.
   */
  lemma {:induction false} FrozenOnceReached(s: Setup, before: seq<Event>, e: Event, later: seq<Event>)
    requires Monotone(before + [e] + later) && e.at >= Run(s, before).capture.deadline
    ensures Frozen(Run(s, before), Run(s, before + [e] + later))
  {
    hide Frozen, After;
    var all := before + [e] + later;
    var last := all[|all| - 1];
    assert all[|before|] == e;
    if later == [] {
      assert all[..|all| - 1] == before;
      assert Frozen(Run(s, before), Run(s, before)) by { FrozenRefl(Run(s, before)); }
    } else {
      assert all[..|all| - 1] == before + [e] + later[..|later| - 1];
      FrozenOnceReached(s, before, e, later[..|later| - 1]);
    }
    EventLate(s, Run(s, before), Run(s, all[..|all| - 1]), last);
  }

  lemma FrozenRefl(t: State)
    ensures Frozen(t, t)
  {
  }
}
