/**
 One terminal path, one launcher, any number of waits. The path is filled by an exclusive create; the
 launcher and a reaping owner wait race for it. Every file access and every look at the kernel is a step of its own.
 */
module OwnerWait {
  import opened Basics
  import K = Kernel

  datatype Outcome = Success | Incident | OtherOutcome
  datatype Delivery = NotSent | PossiblyDelivered | Landed | OtherDelivery

  datatype Envelope = Envelope(
    run: string, attempt: string, managed: bool, terminalAt: string, startedAt: string, committedAt: string,
    outcome: Outcome, delivery: Delivery, recoveryKnown: bool, receiptPath: string, invocation: Option<string>)

  /** What a file at the terminal path may hold: an envelope of the right schema, or anything else. */
  datatype Doc = Readable(envelope: Envelope) | Foreign

  datatype Receipt = Receipt(
    startedAt: string, committedAt: string, invocation: Option<string>, ownerTask: Option<string>,
    ownerDispatch: Option<string>, witnesses: K.Witness, baseline: Option<string>)

  /** The launch everything here is about. */
  datatype Launch = Launch(run: string, attempt: string, receipt: Receipt, receiptPath: string, id: K.Identity)

  /** The receipt may gain its baseline later; everything else identifies the launch. */
  predicate SameIdentity(a: Receipt, b: Receipt) {
    a.(baseline := None) == b.(baseline := None)
  }

  predicate NonBlank(s: string) {
    Trim(s) != ""
  }

  predicate Filled(s: Option<string>) {
    s.Some? && NonBlank(s.value)
  }

  predicate Absolute(path: string) {
    "/" <= path
  }

  function BaseName(path: string): string {
    if path == "" then "" else if path[|path| - 1] == '/' then "" else BaseName(path[..|path| - 1]) + [path[|path| - 1]]
  }

  /** Receipts are launcher-written: times set, at an absolute path, with witnesses of the launcher itself. */
  predicate WellFormed(l: Launch) {
    && NonBlank(l.receipt.startedAt) && NonBlank(l.receipt.committedAt) && Absolute(l.receiptPath)
    && K.Genuine(l.receipt.witnesses, l.id)
  }

  // ----- waits -----

  datatype Stage = Initial | OwnerRace | Gone | PageRace | EffectRace(e: Envelope) | Fence(e: Envelope) | Final

  datatype Pc =
    | Polling
    | Confirming(e: Envelope)
    | Looking(stage: Stage)
    | ReadingBoot | ReadingNamespace | ReadingStat
    | ReadingReceipt
    | Creating(e: Envelope)
    | Done(report: Option<Envelope>)

  /**
   A wait: `checked` when selected by index or bound to a Task, `bound` when the locator names its paths,
   `reaper` when it came with the full owner pair.
   */
  datatype Wait = Wait(
    checked: bool, bound: bool, reaper: bool, receiptPath: string, namespace: string, initial: Option<Receipt>, pc: Pc)

  /** Where a wait may start; only bound waits may reap, and what they read first is the launch's own receipt. */
  predicate MayJoin(l: Launch, w: Wait) {
    && w.pc == Polling
    && (w.reaper ==> w.checked && w.bound)
    && (w.checked && w.bound ==> w.initial.Some? && SameIdentity(w.initial.value, l.receipt) && w.receiptPath == l.receiptPath)
  }

  datatype WinnerRead = NoWinner | Winner(e: Envelope) | Rejected

  function ReadEnvelope(l: Launch, slot: Option<Doc>): Option<Envelope> {
    if slot.Some? && slot.value.Readable? && slot.value.envelope.run == l.run && slot.value.envelope.attempt == l.attempt
    then Some(slot.value.envelope) else None
  }

  predicate Complete(e: Envelope) {
    && e.managed && NonBlank(e.terminalAt) && NonBlank(e.startedAt) && NonBlank(e.committedAt)
    && e.outcome != OtherOutcome && e.delivery != OtherDelivery && e.recoveryKnown && e.receiptPath != ""
  }

  predicate NamesReceipt(e: Envelope, path: string) {
    if Absolute(e.receiptPath) then e.receiptPath == path else BaseName(e.receiptPath) == BaseName(path)
  }

  predicate OfReceipt(e: Envelope, r: Receipt, path: string) {
    e.startedAt == r.startedAt && e.committedAt == r.committedAt && NamesReceipt(e, path)
  }

  /** The winner validation every checked wait applies to what it finds at the terminal path. */
  function ReadWinner(l: Launch, w: Wait, slot: Option<Doc>, read: Option<Receipt>, located: bool): WinnerRead {
    var found := ReadEnvelope(l, slot);
    if found.None? then
      if w.checked && slot.Some? then Rejected else NoWinner
    else if !w.checked then
      Winner(found.value)
    else if w.bound && located && Complete(found.value) && read.Some? && w.initial.Some?
            && SameIdentity(w.initial.value, read.value) && OfReceipt(found.value, read.value, w.receiptPath)
            && (read.value.invocation.GetOr("") != "" ==> found.value.invocation == read.value.invocation) then
      Winner(found.value)
    else
      Rejected
  }

  /** Once polling ended with a winner, the handoff is read again and must still be the winner's. */
  predicate Confirmed(w: Wait, e: Envelope, read: Option<Receipt>) {
    !w.checked || (read.Some? && OfReceipt(e, read.value, w.receiptPath) && w.initial.Some?
                   && SameIdentity(w.initial.value, read.value)
                   && (e.invocation.Some? ==> e.invocation == read.value.invocation))
  }

  /** The uncertainty envelope of a reaping wait. */
  function ReaperEnvelope(l: Launch, w: Wait, r: Receipt, terminalAt: string, delivery: Delivery): Envelope {
    Envelope(l.run, l.attempt, true, terminalAt, r.startedAt, r.committedAt, Incident, delivery, true, w.receiptPath, r.invocation)
  }

  datatype Act =
    | Poll(read: Option<Receipt>, located: bool)
    | TimeUp(read: Option<Receipt>)
    | Confirm(read: Option<Receipt>)
    | Look(read: Option<Receipt>, located: bool, lawful: bool)
    | Observe(readable: bool)
    | Compose(read: Option<Receipt>, terminalAt: string, delivery: Delivery)
    | Create(writable: bool)

  predicate Managed(r: Receipt) {
    Filled(r.ownerTask) && Filled(r.ownerDispatch) && Filled(r.invocation)
  }

  predicate ActEnabled(l: Launch, w: Wait, a: Act) {
    match a
    case Poll(_, _) => w.pc == Polling
    case TimeUp(_) => w.pc == Polling
    case Confirm(_) => w.pc.Confirming?
    case Look(_, _, _) => w.pc.Looking?
    case Observe(_) => w.pc.ReadingBoot? || w.pc.ReadingNamespace? || w.pc.ReadingStat?
    case Compose(_, terminalAt, delivery) =>
      w.pc == ReadingReceipt && NonBlank(terminalAt) && delivery in {PossiblyDelivered, Landed}
    case Create(_) => w.pc.Creating?
  }

  /** Where a look goes on when there is no winner yet. */
  function NoWinnerYet(w: Wait, stage: Stage, lawful: bool): Pc {
    match stage
    case Initial =>
      if w.initial.Some? && Managed(w.initial.value) then Looking(OwnerRace) else Done(None)
    case OwnerRace =>
      if lawful && w.initial.Some? && K.WitnessComplete(w.initial.value.witnesses) then ReadingBoot else Done(None)
    case Gone => Looking(PageRace)
    case PageRace => ReadingReceipt
    case EffectRace(e) => if lawful then Looking(Fence(e)) else Looking(Final)
    case Fence(e) => Creating(e)
    case Final => Done(None)
  }

  function Judged(v: K.Verdict, next: Pc): Pc {
    match v
    case Dead => Looking(Gone)
    case Open => next
    case _ => Done(None)
  }

  function AfterObserve(k: K.Kernel, w: Wait, readable: bool): Pc {
    if w.initial.None? || w.initial.value.witnesses.pid.None? then Done(None)
    else
      var seen := w.initial.value.witnesses;
      match w.pc
      case ReadingBoot => Judged(K.BootVerdict(k, seen, readable), ReadingNamespace)
      case ReadingNamespace => Judged(K.NamespaceVerdict(w.namespace, seen, readable), ReadingStat)
      case _ => Judged(K.StatVerdict(k, w.namespace, seen, readable), Done(None))
  }

  /** The next control point of a wait; only `Create` touches the file. */
  function AfterAct(l: Launch, k: K.Kernel, slot: Option<Doc>, w: Wait, a: Act): Pc
    requires ActEnabled(l, w, a)
  {
    match a
    case Poll(read, located) =>
      (match ReadWinner(l, w, slot, read, located)
       case Winner(e) => Confirming(e)
       case NoWinner => Polling
       case Rejected => Done(None))
    case TimeUp(read) =>
      if w.reaper && read.Some? && w.initial.Some? && SameIdentity(w.initial.value, read.value)
      then Looking(Initial) else Done(None)
    case Confirm(read) => Done(if Confirmed(w, w.pc.e, read) then Some(w.pc.e) else None)
    case Look(read, located, lawful) =>
      (match ReadWinner(l, w, slot, read, located)
       case Winner(e) => if w.pc.stage.Fence? then Looking(Final) else Done(Some(e))
       case NoWinner => NoWinnerYet(w, w.pc.stage, lawful)
       case Rejected => if w.pc.stage.Fence? then Looking(Final) else Done(None))
    case Observe(readable) => AfterObserve(k, w, readable)
    case Compose(read, terminalAt, delivery) =>
      if read.Some? && w.initial.Some? && SameIdentity(read.value, w.initial.value)
      then Looking(EffectRace(ReaperEnvelope(l, w, w.initial.value, terminalAt, delivery)))
      else Done(None)
    case Create(writable) =>
      if slot.None? && writable then Done(Some(w.pc.e)) else Looking(Final)
  }

  // ----- the launcher -----

  /** An exception or a signal can come at any point, also between a publication and the exit it leads to. */
  datatype Launcher =
    | Working
    | Publishing(e: Envelope, ok: bool)
    | Occupied(ok: bool)
    | Signalled(e: Envelope)
    | Ending(code: int, ok: bool, over: Option<Doc>)
    | Exited(code: int, ok: bool, over: Option<Doc>)

  datatype LauncherAct =
    | Prepare(e: Envelope, ok: bool)
    | Publish(writable: bool)
    | ReadOccupant
    | Leave
    | Abnormal(e: Envelope)
    | PublishAbnormal(writable: bool)

  predicate LauncherEnvelope(l: Launch, e: Envelope, ok: bool) {
    e.run == l.run && e.attempt == l.attempt && e.outcome == if ok then Success else Incident
  }

  predicate LauncherEnabled(l: Launch, c: Launcher, a: LauncherAct) {
    match a
    case Prepare(e, ok) => (c == Working || c.Signalled?) && LauncherEnvelope(l, e, ok)
    case Publish(_) => c.Publishing?
    case ReadOccupant => c.Occupied?
    case Leave => c.Ending?
    case Abnormal(e) => !c.Exited? && LauncherEnvelope(l, e, false)
    case PublishAbnormal(_) => c.Signalled?
  }

  predicate ExactIncident(l: Launch, slot: Option<Doc>) {
    ReadEnvelope(l, slot).Some? && ReadEnvelope(l, slot).value.outcome != Success
  }

  /** The launcher's next control point; its exit remembers what it saw at the path. */
  function AfterLauncher(l: Launch, slot: Option<Doc>, c: Launcher, a: LauncherAct): Launcher
    requires LauncherEnabled(l, c, a)
  {
    match a
    case Prepare(e, ok) => Publishing(e, ok)
    case Publish(writable) =>
      if slot.None? && writable then Ending(if c.ok then 0 else 1, c.ok, Some(Readable(c.e))) else Occupied(c.ok)
    case ReadOccupant => Ending(if !c.ok || ExactIncident(l, slot) then 1 else 0, c.ok, slot)
    case Leave => Exited(c.code, c.ok, c.over)
    case Abnormal(e) =>
      var existing := ReadEnvelope(l, slot);
      if existing.None? then Signalled(e) else Exited(if existing.value.outcome == Success then 0 else 1, false, slot)
    case PublishAbnormal(_) => Exited(1, false, slot)
  }

  // ----- the world -----

  datatype Author = Nobody | ByLauncher | ByReaper(wait: nat) | ByIntruder

  datatype World = World(
    kernel: K.Kernel, slot: Option<Doc>, author: Author, creations: nat, launcher: Launcher, waits: map<nat, Wait>)

  datatype Step =
    | KernelStep(k: K.Step)
    | LauncherStep(move: LauncherAct)
    | Join(i: nat, w: Wait)
    | WaitStep(i: nat, a: Act)
    | Intrude(d: Doc)

  predicate Enabled(l: Launch, w: World, s: Step) {
    match s
    case KernelStep(k) => K.Enabled(w.kernel, k)
    case LauncherStep(a) => !K.Ended(w.kernel, l.id) && LauncherEnabled(l, w.launcher, a)
    case Join(i, wait) => i !in w.waits && MayJoin(l, wait)
    case WaitStep(i, a) => i in w.waits && ActEnabled(l, w.waits[i], a)
    case Intrude(d) => w.slot.None?
  }

  /** The exclusive create: it fails on a taken path and on an unwritable one, and never overwrites. */
  function Created(w: World, d: Doc, author: Author, writable: bool): World {
    if w.slot.None? && writable then w.(slot := Some(d), author := author, creations := w.creations + 1) else w
  }

  function Apply(l: Launch, w: World, s: Step): World
    requires Enabled(l, w, s)
  {
    match s
    case KernelStep(k) => w.(kernel := K.Apply(w.kernel, k))
    case LauncherStep(a) =>
      var filed := match a
        case Publish(writable) => Created(w, Readable(w.launcher.e), ByLauncher, writable)
        case PublishAbnormal(writable) => Created(w, Readable(w.launcher.e), ByLauncher, writable)
        case _ => w;
      filed.(launcher := AfterLauncher(l, w.slot, w.launcher, a))
    case Join(i, wait) => w.(waits := w.waits[i := wait])
    case WaitStep(i, a) =>
      var filed := if a.Create? then Created(w, Readable(w.waits[i].pc.e), ByReaper(i), a.writable) else w;
      filed.(waits := w.waits[i := w.waits[i].(pc := AfterAct(l, w.kernel, w.slot, w.waits[i], a))])
    case Intrude(d) => Created(w, d, ByIntruder, true)
  }

  /** The launch is on: its process runs, and nothing is at the terminal path or waiting for it. */
  predicate Begins(l: Launch, w: World) {
    && WellFormed(l) && K.Started(w.kernel, l.id)
    && w.slot.None? && w.author == Nobody && w.creations == 0 && w.launcher == Working && w.waits == map[]
  }

  ghost predicate Reaches(l: Launch, w: World, steps: seq<Step>, v: World)
    decreases |steps|
  {
    if steps == [] then w == v else Enabled(l, w, steps[0]) && Reaches(l, Apply(l, w, steps[0]), steps[1..], v)
  }

  // ----- what every step keeps -----

  /** The uncertainty envelope of this launch: what a reaper composes, and nothing else. */
  predicate Uncertain(l: Launch, e: Envelope) {
    && e.run == l.run && e.attempt == l.attempt && Complete(e) && e.outcome == Incident
    && OfReceipt(e, l.receipt, l.receiptPath) && e.invocation == l.receipt.invocation
    && e.receiptPath == l.receiptPath
  }

  /** The control points behind the verdict that the launcher has ended. */
  predicate PastVerdict(pc: Pc) {
    pc.ReadingReceipt? || pc.Creating? || (pc.Looking? && !pc.stage.Initial? && !pc.stage.OwnerRace?)
  }

  predicate Reaping(pc: Pc) {
    PastVerdict(pc) || pc.Looking? || pc.ReadingBoot? || pc.ReadingNamespace? || pc.ReadingStat?
  }

  function Draft(pc: Pc): Option<Envelope> {
    match pc
    case Creating(e) => Some(e)
    case Looking(EffectRace(e)) => Some(e)
    case Looking(Fence(e)) => Some(e)
    case _ => None
  }

  predicate WaitSound(l: Launch, k: K.Kernel, slot: Option<Doc>, w: Wait) {
    && MayJoin(l, w.(pc := Polling))
    && (Reaping(w.pc) ==> w.reaper)
    && (PastVerdict(w.pc) ==> K.Ended(k, l.id))
    && (w.pc.ReadingBoot? || w.pc.ReadingNamespace? || w.pc.ReadingStat? ==> K.WitnessComplete(l.receipt.witnesses))
    && (w.pc.ReadingStat? ==> Some(w.namespace) == l.receipt.witnesses.namespace)
    && (Draft(w.pc).Some? ==> Uncertain(l, Draft(w.pc).value))
    && (w.pc.Confirming? ==> slot == Some(Readable(w.pc.e)))
    && (w.pc.Done? && w.pc.report.Some? ==> slot == Some(Readable(w.pc.report.value)))
  }

  predicate Leaving(c: Launcher) {
    c.Ending? || c.Exited?
  }

  predicate LauncherSound(l: Launch, c: Launcher) {
    && (c.Publishing? ==> LauncherEnvelope(l, c.e, c.ok))
    && (c.Signalled? ==> LauncherEnvelope(l, c.e, false))
    && (Leaving(c) && c.ok ==> (c.code == 0 <==> !ExactIncident(l, c.over)))
    && (Leaving(c) && !c.ok && c.code == 0 ==>
          ReadEnvelope(l, c.over).Some? && ReadEnvelope(l, c.over).value.outcome == Success)
  }

  predicate SlotSound(l: Launch, w: World) {
    && w.creations == (if w.slot.Some? then 1 else 0)
    && (w.slot.None? <==> w.author.Nobody?)
    && (w.author.ByReaper? ==> w.slot.value.Readable? && Uncertain(l, w.slot.value.envelope) && K.Ended(w.kernel, l.id))
  }

  ghost predicate Sound(l: Launch, w: World) {
    && WellFormed(l) && K.Started(w.kernel, l.id)
    && SlotSound(l, w) && LauncherSound(l, w.launcher)
    && (Leaving(w.launcher) && w.launcher.over.Some? ==> w.slot == w.launcher.over)
    && forall i :: i in w.waits ==> WaitSound(l, w.kernel, w.slot, w.waits[i])
  }

  /** A wait's own step keeps it sound; its slot is the one after the step. */
  lemma ActKeepsWait(l: Launch, k: K.Kernel, slot: Option<Doc>, w: Wait, a: Act)
    requires WellFormed(l) && WaitSound(l, k, slot, w) && ActEnabled(l, w, a)
    ensures var after := if a.Create? && slot.None? && a.writable then Some(Readable(w.pc.e)) else slot;
            WaitSound(l, k, after, w.(pc := AfterAct(l, k, slot, w, a)))
  {
    hide WaitSound, WellFormed, ActEnabled, ReadWinner, Confirmed, AfterObserve;
    match a
    case Observe(readable) => ObserveKeepsWait(l, k, slot, w, readable);
    case Compose(read, terminalAt, delivery) => ComposeKeepsWait(l, k, slot, w, read, terminalAt, delivery);
    case Create(writable) => CreateKeepsWait(l, k, slot, w, writable);
    case _ => ReadKeepsWait(l, k, slot, w, a);
  }

  lemma ReadKeepsWait(l: Launch, k: K.Kernel, slot: Option<Doc>, w: Wait, a: Act)
    requires WaitSound(l, k, slot, w) && ActEnabled(l, w, a) && (a.Poll? || a.TimeUp? || a.Confirm? || a.Look?)
    ensures WaitSound(l, k, slot, w.(pc := AfterAct(l, k, slot, w, a)))
  {
    hide OfReceipt, Complete, K.WitnessComplete, NonBlank, BaseName, K.Ended, Managed;
  }

  lemma CreateKeepsWait(l: Launch, k: K.Kernel, slot: Option<Doc>, w: Wait, writable: bool)
    requires WaitSound(l, k, slot, w) && ActEnabled(l, w, Create(writable))
    ensures var after := if slot.None? && writable then Some(Readable(w.pc.e)) else slot;
            WaitSound(l, k, after, w.(pc := AfterAct(l, k, slot, w, Create(writable))))
  {
    hide OfReceipt, Complete, K.WitnessComplete, NonBlank, BaseName, K.Ended, Managed;
  }

  lemma ObserveKeepsWait(l: Launch, k: K.Kernel, slot: Option<Doc>, w: Wait, readable: bool)
    requires WellFormed(l) && WaitSound(l, k, slot, w) && ActEnabled(l, w, Observe(readable))
    ensures WaitSound(l, k, slot, w.(pc := AfterObserve(k, w, readable)))
  {
    hide NonBlank, BaseName, K.Ended, Managed, OfReceipt, Complete, K.StatVerdict, K.BootVerdict, ReadWinner, Confirmed;
    K.DeadIsSound(k, w.namespace, l.receipt.witnesses, l.id, readable);
  }

  lemma ComposeKeepsWait(
    l: Launch, k: K.Kernel, slot: Option<Doc>, w: Wait, read: Option<Receipt>, terminalAt: string, delivery: Delivery)
    requires WellFormed(l) && WaitSound(l, k, slot, w) && ActEnabled(l, w, Compose(read, terminalAt, delivery))
    ensures WaitSound(l, k, slot, w.(pc := AfterAct(l, k, slot, w, Compose(read, terminalAt, delivery))))
  {
    hide NonBlank, BaseName, K.Ended, Managed, K.WitnessComplete;
  }

  /** A wait stays sound while others move: the slot is at most filled, and an ended launcher stays ended. */
  lemma OthersKeepWait(l: Launch, k: K.Kernel, slot: Option<Doc>, k': K.Kernel, slot': Option<Doc>, w: Wait)
    requires WaitSound(l, k, slot, w)
    requires slot.Some? ==> slot' == slot
    requires K.Ended(k, l.id) ==> K.Ended(k', l.id)
    ensures WaitSound(l, k', slot', w)
  {
    hide K.Ended, Uncertain, MayJoin, K.WitnessComplete, PastVerdict, Reaping;
  }

  lemma StepKeeps(l: Launch, w: World, s: Step)
    requires Sound(l, w) && Enabled(l, w, s)
    ensures Sound(l, Apply(l, w, s))
    ensures w.slot.Some? ==> Apply(l, w, s).slot == w.slot && Apply(l, w, s).author == w.author
  {
    hide WaitSound, K.Ended, Uncertain, ActEnabled, WellFormed, K.Started, AfterAct, K.Enabled, K.Apply;
    var v := Apply(l, w, s);
    if s.KernelStep? {
      K.EndedStays(w.kernel, s.k, l.id);
    }
    forall i | i in v.waits ensures WaitSound(l, v.kernel, v.slot, v.waits[i]) {
      if s.Join? && i == s.i {
        JoinSound(l, v.kernel, v.slot, s.w);
      } else if s.WaitStep? && i == s.i {
        ActKeepsWait(l, w.kernel, w.slot, w.waits[i], s.a);
      } else {
        OthersKeepWait(l, w.kernel, w.slot, v.kernel, v.slot, w.waits[i]);
      }
    }
    if s.WaitStep? && s.a.Create? {
      CreatorSound(l, w.kernel, w.slot, w.waits[s.i], s.a);
    }
  }

  lemma JoinSound(l: Launch, k: K.Kernel, slot: Option<Doc>, w: Wait)
    requires MayJoin(l, w)
    ensures WaitSound(l, k, slot, w)
  {
  }

  lemma CreatorSound(l: Launch, k: K.Kernel, slot: Option<Doc>, w: Wait, a: Act)
    requires WaitSound(l, k, slot, w) && a.Create? && ActEnabled(l, w, a)
    ensures Uncertain(l, w.pc.e) && K.Ended(k, l.id)
  {
  }

  lemma {:induction false} RunKeeps(l: Launch, w: World, steps: seq<Step>, v: World)
    requires Sound(l, w) && Reaches(l, w, steps, v)
    ensures Sound(l, v)
    ensures w.slot.Some? ==> v.slot == w.slot && v.author == w.author
    decreases |steps|
  {
    hide Sound;
    if steps != [] {
      StepKeeps(l, w, steps[0]);
      RunKeeps(l, Apply(l, w, steps[0]), steps[1..], v);
    }
  }

  // ----- the protocol's promises -----

  /** In every interleaving the terminal path is created at most once, and what is there never changes. */
  lemma OneTerminal(l: Launch, start: World, before: seq<Step>, w: World, after: seq<Step>, v: World)
    requires Begins(l, start) && Reaches(l, start, before, w) && Reaches(l, w, after, v)
    ensures v.creations <= 1
    ensures w.slot.Some? ==> v.slot == w.slot && v.creations == w.creations == 1
  {
    RunKeeps(l, start, before, w);
    RunKeeps(l, w, after, v);
  }

  /** All waits that report a terminal report the one at the path, so all report the same. */
  lemma OneReport(l: Launch, start: World, steps: seq<Step>, v: World, i: nat, j: nat)
    requires Begins(l, start) && Reaches(l, start, steps, v)
    requires i in v.waits && v.waits[i].pc.Done? && v.waits[i].pc.report.Some?
    requires j in v.waits && v.waits[j].pc.Done? && v.waits[j].pc.report.Some?
    ensures v.waits[i].pc.report == v.waits[j].pc.report
    ensures v.slot == Some(Readable(v.waits[i].pc.report.value))
  {
    RunKeeps(l, start, steps, v);
    assert WaitSound(l, v.kernel, v.slot, v.waits[i]) && WaitSound(l, v.kernel, v.slot, v.waits[j]);
  }

  /** A wait past its verdict, and an uncertainty envelope at the path, mean the launcher has ended: it never acts again. */
  lemma ReapedOnlyAfterDeath(l: Launch, start: World, steps: seq<Step>, w: World, more: seq<Step>, v: World)
    requires Begins(l, start) && Reaches(l, start, steps, w) && Reaches(l, w, more, v)
    requires w.author.ByReaper? || exists i :: i in w.waits && PastVerdict(w.waits[i].pc)
    ensures K.Ended(w.kernel, l.id) && K.Ended(v.kernel, l.id)
    ensures v.launcher == w.launcher
  {
    RunKeeps(l, start, steps, w);
    if i :| i in w.waits && PastVerdict(w.waits[i].pc) {
      assert WaitSound(l, w.kernel, w.slot, w.waits[i]);
    }
    EndedForGood(l, w, more, v);
  }

  lemma {:induction false} EndedForGood(l: Launch, w: World, steps: seq<Step>, v: World)
    requires Sound(l, w) && Reaches(l, w, steps, v) && K.Ended(w.kernel, l.id)
    ensures K.Ended(v.kernel, l.id) && v.launcher == w.launcher
    decreases |steps|
  {
    hide Sound, Enabled, Apply, K.Ended;
    if steps != [] {
      StepKeeps(l, w, steps[0]);
      EndedByStep(l, w, steps[0]);
      EndedForGood(l, Apply(l, w, steps[0]), steps[1..], v);
    }
  }

  lemma EndedByStep(l: Launch, w: World, s: Step)
    requires Sound(l, w) && Enabled(l, w, s) && K.Ended(w.kernel, l.id)
    ensures K.Ended(Apply(l, w, s).kernel, l.id) && Apply(l, w, s).launcher == w.launcher
  {
    if s.KernelStep? {
      K.EndedStays(w.kernel, s.k, l.id);
    }
    hide K.Ended, K.Apply, K.Enabled, K.Started, AfterAct, ActEnabled, WaitSound, SlotSound, LauncherSound, AfterLauncher;
  }

  /**
   What a reaping wait published passes the winner validation of every wait on the same locator and receipt,
   at any later time, and is confirmed.
   */
  lemma ReaperEnvelopeAccepted(
    l: Launch, start: World, steps: seq<Step>, v: World, w: Wait, read: Option<Receipt>)
    requires Begins(l, start) && Reaches(l, start, steps, v) && v.author.ByReaper?
    requires MayJoin(l, w.(pc := Polling)) && w.bound && read.Some? && SameIdentity(read.value, l.receipt)
    ensures v.slot.Some? && v.slot.value.Readable?
    ensures ReadWinner(l, w, v.slot, read, true) == Winner(v.slot.value.envelope)
    ensures Confirmed(w, v.slot.value.envelope, read)
  {
    RunKeeps(l, start, steps, v);
  }

  /**
   A launcher with an ok result exits 0 exactly if what it leaves behind at the path is not an incident recorded
   for its own launch; one without, or one that was cut short, exits 0 only over a success that is there.
   */
  lemma NoSuccessOverIncident(l: Launch, start: World, steps: seq<Step>, v: World)
    requires Begins(l, start) && Reaches(l, start, steps, v) && v.launcher.Exited?
    ensures v.launcher.ok ==> (v.launcher.code == 0 <==> !ExactIncident(l, v.launcher.over))
    ensures !v.launcher.ok && v.launcher.code == 0 ==>
              ReadEnvelope(l, v.slot).Some? && ReadEnvelope(l, v.slot).value.outcome == Success
    ensures v.launcher.over.Some? ==> v.slot == v.launcher.over
  {
    RunKeeps(l, start, steps, v);
  }

  // ----- what can always be done -----

  /** A wait that polls for the launch as its owner, with all it needs to judge the launcher, on the launcher's host. */
  predicate MayReap(l: Launch, k: K.Kernel, w: Wait) {
    && w.pc == Polling && w.reaper && w.checked && w.bound && w.initial.Some?
    && Managed(w.initial.value) && K.WitnessComplete(w.initial.value.witnesses)
    && k.boot != "" && Some(w.namespace) == l.receipt.witnesses.namespace
  }

  /** The looks and reads of a wait with its receipt unchanged, its ownership lawful, and everything readable. */
  function Looked(w: Wait): Act {
    Look(w.initial, true, true)
  }

  lemma {:induction false} ReachesOneMore(l: Launch, u: World, steps: seq<Step>, v: World, s: Step)
    requires Reaches(l, u, steps, v) && Enabled(l, v, s)
    ensures Reaches(l, u, steps + [s], Apply(l, v, s))
    decreases |steps|
  {
    hide Enabled, Apply;
    var all := steps + [s];
    if steps == [] {
      assert all == [s] && all[1..] == [];
    } else {
      ReachesOneMore(l, Apply(l, u, steps[0]), steps[1..], v, s);
      assert all[0] == steps[0] && all[1..] == steps[1..] + [s];
    }
  }

  /** What an observing wait of the owner sees of a launcher that has ended: with the reads made, that it is dead. */
  lemma SeesDead(l: Launch, k: K.Kernel, w: Wait)
    requires WellFormed(l) && MayReap(l, k, w) && SameIdentity(w.initial.value, l.receipt) && K.Ended(k, l.id)
    ensures AfterObserve(k, w.(pc := ReadingBoot), true) == Looking(Gone)
            || (AfterObserve(k, w.(pc := ReadingBoot), true) == ReadingNamespace
                && AfterObserve(k, w.(pc := ReadingNamespace), true) == ReadingStat
                && AfterObserve(k, w.(pc := ReadingStat), true) == Looking(Gone))
  {
    hide NonBlank, Managed, K.Ended;
    K.VerdictExact(k, w.namespace, l.receipt.witnesses, l.id);
  }

  /** A run that brings the `i`-th wait from one control point to another and changes nothing else. */
  ghost predicate Brings(l: Launch, u: World, i: nat, steps: seq<Step>, pc: Pc) {
    i in u.waits && Reaches(l, u, steps, u.(waits := u.waits[i := u.waits[i].(pc := pc)]))
  }

  lemma Starts(l: Launch, u: World, i: nat)
    requires i in u.waits
    ensures Brings(l, u, i, [], u.waits[i].pc)
  {
    assert u.waits[i := u.waits[i].(pc := u.waits[i].pc)] == u.waits;
  }

  /** One more act of the wait, short of the create. */
  lemma Goes(l: Launch, u: World, i: nat, steps: seq<Step>, pc: Pc, a: Act)
    requires Brings(l, u, i, steps, pc) && !a.Create? && ActEnabled(l, u.waits[i].(pc := pc), a)
    ensures Brings(l, u, i, steps + [WaitStep(i, a)], AfterAct(l, u.kernel, u.slot, u.waits[i].(pc := pc), a))
  {
    hide ActEnabled, AfterAct, Reaches;
    var v := u.(waits := u.waits[i := u.waits[i].(pc := pc)]);
    var s := WaitStep(i, a);
    ReachesOneMore(l, u, steps, v, s);
    var next := AfterAct(l, u.kernel, u.slot, u.waits[i].(pc := pc), a);
    assert Apply(l, v, s) == u.(waits := u.waits[i := u.waits[i].(pc := next)]);
  }

  /** One more look at the free path. */
  lemma LooksOn(l: Launch, u: World, i: nat, steps: seq<Step>, stage: Stage)
    requires i in u.waits && Brings(l, u, i, steps, Looking(stage)) && u.slot.None? && u.waits[i].initial.Some?
    requires u.waits[i].bound ==> SameIdentity(u.waits[i].initial.value, l.receipt)
    ensures Brings(l, u, i, steps + [WaitStep(i, Looked(u.waits[i]))], NoWinnerYet(u.waits[i], stage, true))
  {
    hide Brings, SameIdentity, K.WitnessComplete, Managed;
    Goes(l, u, i, steps, Looking(stage), Looked(u.waits[i]));
  }

  /** From its first look an owner's wait comes to judge the launcher. */
  lemma ComesToJudge(l: Launch, u: World, i: nat) returns (steps: seq<Step>)
    requires i in u.waits && u.slot.None? && MayReap(l, u.kernel, u.waits[i])
    requires SameIdentity(u.waits[i].initial.value, l.receipt)
    ensures Brings(l, u, i, steps, ReadingBoot)
  {
    hide K.WitnessComplete, Managed, Brings;
    var w := u.waits[i];
    Starts(l, u, i);
    Goes(l, u, i, [], Polling, TimeUp(w.initial));
    steps := [] + [WaitStep(i, TimeUp(w.initial))];
    LooksOn(l, u, i, steps, Initial);
    steps := steps + [WaitStep(i, Looked(w))];
    LooksOn(l, u, i, steps, OwnerRace);
    steps := steps + [WaitStep(i, Looked(w))];
  }

  /** From there to the verdict that the launcher is gone. */
  lemma ComesToVerdict(l: Launch, u: World, i: nat, start: seq<Step>) returns (steps: seq<Step>)
    requires WellFormed(l) && K.Ended(u.kernel, l.id) && Brings(l, u, i, start, ReadingBoot) && MayReap(l, u.kernel, u.waits[i])
    requires SameIdentity(u.waits[i].initial.value, l.receipt)
    ensures Brings(l, u, i, steps, Looking(Gone))
  {
    var w := u.waits[i];
    SeesDead(l, u.kernel, w);
    hide K.WitnessComplete, Managed, WellFormed, K.Ended, AfterObserve, Brings, MayReap;
    var observe := WaitStep(i, Observe(true));
    Goes(l, u, i, start, ReadingBoot, Observe(true));
    steps := start + [observe];
    if AfterObserve(u.kernel, w.(pc := ReadingBoot), true) == ReadingNamespace {
      Goes(l, u, i, steps, ReadingNamespace, Observe(true));
      steps := steps + [observe];
      Goes(l, u, i, steps, ReadingStat, Observe(true));
      steps := steps + [observe];
    }
  }

  /** And from the verdict to the envelope. */
  lemma ComesToDraft(l: Launch, u: World, i: nat, start: seq<Step>, terminalAt: string, delivery: Delivery)
    returns (steps: seq<Step>)
    requires i in u.waits && Brings(l, u, i, start, Looking(Gone)) && u.slot.None? && MayReap(l, u.kernel, u.waits[i])
    requires SameIdentity(u.waits[i].initial.value, l.receipt)
    requires NonBlank(terminalAt) && delivery in {PossiblyDelivered, Landed}
    ensures Brings(l, u, i, steps, Creating(ReaperEnvelope(l, u.waits[i], u.waits[i].initial.value, terminalAt, delivery)))
  {
    hide K.WitnessComplete, Managed, NonBlank, Brings;
    var w := u.waits[i];
    var e, compose := ReaperEnvelope(l, w, w.initial.value, terminalAt, delivery), Compose(w.initial, terminalAt, delivery);
    LooksOn(l, u, i, start, Gone);
    steps := start + [WaitStep(i, Looked(w))];
    LooksOn(l, u, i, steps, PageRace);
    steps := steps + [WaitStep(i, Looked(w))];
    Goes(l, u, i, steps, ReadingReceipt, compose);
    steps := steps + [WaitStep(i, compose)];
    LooksOn(l, u, i, steps, EffectRace(e));
    steps := steps + [WaitStep(i, Looked(w))];
    LooksOn(l, u, i, steps, Fence(e));
    steps := steps + [WaitStep(i, Looked(w))];
  }

  /** The create itself. */
  lemma Creates(l: Launch, u: World, i: nat, start: seq<Step>, e: Envelope) returns (v: World)
    requires Brings(l, u, i, start, Creating(e)) && u.slot.None?
    ensures Reaches(l, u, start + [WaitStep(i, Create(true))], v) && v.slot == Some(Readable(e)) && v.author == ByReaper(i)
    ensures i in v.waits && v.waits[i].pc == Done(Some(e))
  {
    hide Reaches;
    var w := u.(waits := u.waits[i := u.waits[i].(pc := Creating(e))]);
    var create := WaitStep(i, Create(true));
    v := Apply(l, w, create);
    ReachesOneMore(l, u, start, w, create);
  }

  /**
   A reaping wait gets its envelope out: from every world in which the launcher has ended and the path is free, a wait
   that polls as the owner can go on to the uncertainty envelope at the path, and is then done with it.
   */
  lemma ReaperPublishes(l: Launch, u: World, i: nat, terminalAt: string, delivery: Delivery)
    returns (steps: seq<Step>, v: World)
    requires Sound(l, u) && K.Ended(u.kernel, l.id) && u.slot.None?
    requires i in u.waits && MayReap(l, u.kernel, u.waits[i])
    requires NonBlank(terminalAt) && delivery in {PossiblyDelivered, Landed}
    ensures Reaches(l, u, steps, v) && Sound(l, v) && v.author == ByReaper(i)
    ensures v.slot.Some? && v.slot.value.Readable? && Uncertain(l, v.slot.value.envelope)
    ensures v.slot.value.envelope.terminalAt == terminalAt && v.slot.value.envelope.delivery == delivery
    ensures i in v.waits && v.waits[i].pc == Done(Some(v.slot.value.envelope))
  {
    assert WaitSound(l, u.kernel, u.slot, u.waits[i]);
    assert SameIdentity(u.waits[i].initial.value, l.receipt);
    hide Sound, K.Ended, WaitSound, NonBlank, Managed, K.WitnessComplete, Reaches, Brings, MayReap, SameIdentity, WellFormed;
    SoundLaunch(l, u);
    var judge := ComesToJudge(l, u, i);
    var gone := ComesToVerdict(l, u, i, judge);
    var draft := ComesToDraft(l, u, i, gone, terminalAt, delivery);
    var e := ReaperEnvelope(l, u.waits[i], u.waits[i].initial.value, terminalAt, delivery);
    v := Creates(l, u, i, draft, e);
    steps := draft + [WaitStep(i, Create(true))];
    RunKeeps(l, u, steps, v);
    SoundReaper(l, v);
  }

  lemma SoundLaunch(l: Launch, w: World)
    requires Sound(l, w)
    ensures WellFormed(l)
  {
  }

  lemma SoundReaper(l: Launch, w: World)
    requires Sound(l, w) && w.author.ByReaper?
    ensures w.slot.Some? && w.slot.value.Readable? && Uncertain(l, w.slot.value.envelope)
  {
    hide Uncertain;
  }

  /** A wait that polls reports what is at the path in two steps, whenever it is a valid winner and still confirmed. */
  lemma WaitReports(l: Launch, u: World, i: nat, read: Option<Receipt>, e: Envelope) returns (steps: seq<Step>, v: World)
    requires i in u.waits && u.waits[i].pc == Polling
    requires ReadWinner(l, u.waits[i], u.slot, read, true) == Winner(e) && Confirmed(u.waits[i], e, read)
    ensures Reaches(l, u, steps, v) && |steps| == 2 && v.slot == u.slot && i in v.waits && v.waits[i].pc == Done(Some(e))
  {
    hide ReadWinner, OfReceipt, SameIdentity, Brings;
    Starts(l, u, i);
    Goes(l, u, i, [], Polling, Poll(read, true));
    steps := [] + [WaitStep(i, Poll(read, true))];
    Goes(l, u, i, steps, Confirming(e), Confirm(read));
    steps := steps + [WaitStep(i, Confirm(read))];
    v := u.(waits := u.waits[i := u.waits[i].(pc := Done(Some(e)))]);
    BringsReaches(l, u, i, steps, Done(Some(e)));
  }

  lemma BringsReaches(l: Launch, u: World, i: nat, steps: seq<Step>, pc: Pc)
    requires Brings(l, u, i, steps, pc)
    ensures Reaches(l, u, steps, u.(waits := u.waits[i := u.waits[i].(pc := pc)]))
  {
  }

  /** A launcher at work that has a result gets its envelope to a free path and exits 0 exactly if the result is ok. */
  lemma LauncherPublishes(l: Launch, u: World, e: Envelope, ok: bool) returns (steps: seq<Step>, v: World)
    requires !K.Ended(u.kernel, l.id) && u.launcher == Working && u.slot.None? && LauncherEnvelope(l, e, ok)
    ensures Reaches(l, u, steps, v) && v.slot == Some(Readable(e)) && v.author == ByLauncher
    ensures v.launcher == Exited(if ok then 0 else 1, ok, v.slot)
  {
    hide LauncherEnvelope, K.Ended;
    var a, b, c := LauncherStep(Prepare(e, ok)), LauncherStep(Publish(true)), LauncherStep(Leave);
    var x := Apply(l, u, a);
    var y := Apply(l, x, b);
    v := Apply(l, y, c);
    steps := [a, b, c];
    assert steps[1..] == [b, c] && steps[1..][1..] == [c] && [c][1..] == [];
    assert Reaches(l, v, [], v) && Reaches(l, y, [c], v) && Reaches(l, x, [b, c], v);
  }
}
