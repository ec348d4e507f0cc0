/**
 Processes as an owner wait can see them: a boot id, pids reused inside a boot, zombies and reboots. A process
 is told apart by its start ticks, and the verdict that it has ended is sound and lasting.
 */
module Kernel {
  import opened Basics

  /** A pid as seen from one pid namespace. */
  datatype Slot = Slot(namespace: string, pid: int)

  datatype Process = Process(startTicks: string, state: char)

  datatype Kernel = Kernel(boot: string, pastBoots: set<string>, procs: map<Slot, Process>, used: set<(Slot, string)>)

  datatype Step =
    | Spawn(slot: Slot, process: Process)
    | Turn(slot: Slot, state: char)
    | Exit(slot: Slot, state: char)
    | Reap(slot: Slot)
    | Reboot(boot: string)

  predicate DeadState(state: char) {
    state == 'Z' || state == 'X'
  }

  predicate Enabled(k: Kernel, s: Step) {
    match s
    case Spawn(slot, p) => slot !in k.procs && (slot, p.startTicks) !in k.used && !DeadState(p.state)
    case Turn(slot, state) => slot in k.procs && !DeadState(k.procs[slot].state) && !DeadState(state)
    case Exit(slot, state) => slot in k.procs && !DeadState(k.procs[slot].state) && DeadState(state)
    case Reap(slot) => slot in k.procs && DeadState(k.procs[slot].state)
    case Reboot(boot) => boot != k.boot && boot !in k.pastBoots
  }

  function Apply(k: Kernel, s: Step): Kernel
    requires Enabled(k, s)
  {
    match s
    case Spawn(slot, p) => k.(procs := k.procs[slot := p], used := k.used + {(slot, p.startTicks)})
    case Turn(slot, state) => k.(procs := k.procs[slot := k.procs[slot].(state := state)])
    case Exit(slot, state) => k.(procs := k.procs[slot := k.procs[slot].(state := state)])
    case Reap(slot) => k.(procs := k.procs - {slot})
    case Reboot(boot) => Kernel(boot, k.pastBoots + {k.boot}, map[], {})
  }

  /** One process, told apart from every other one there was or will be. */
  datatype Identity = Identity(boot: string, slot: Slot, startTicks: string)

  predicate Ended(k: Kernel, id: Identity) {
    || k.boot != id.boot || id.slot !in k.procs
    || k.procs[id.slot].startTicks != id.startTicks || DeadState(k.procs[id.slot].state)
  }

  /** The process has been started: its start ticks are taken in its boot. */
  predicate Started(k: Kernel, id: Identity) {
    && k.boot !in k.pastBoots
    && (id.boot == k.boot || id.boot in k.pastBoots)
    && (id.boot == k.boot ==> (id.slot, id.startTicks) in k.used)
  }

  lemma EndedStays(k: Kernel, s: Step, id: Identity)
    requires Enabled(k, s) && Started(k, id)
    ensures Started(Apply(k, s), id)
    ensures Ended(k, id) ==> Ended(Apply(k, s), id)
  {
  }

  /** A running process ends by its own exit or by a reboot, and by nothing else. */
  lemma EndsExactly(k: Kernel, s: Step, id: Identity)
    requires Enabled(k, s) && Started(k, id) && !Ended(k, id)
    ensures Ended(Apply(k, s), id) <==> s.Reboot? || (s.Exit? && s.slot == id.slot)
    ensures forall c: char :: Enabled(k, Exit(id.slot, c)) <==> c == 'Z' || c == 'X'
    ensures !Enabled(k, Reap(id.slot)) && forall p :: !Enabled(k, Spawn(id.slot, p))
  {
  }

  /**
   A pid may come back: once its process has exited and was reaped, a process with other start ticks can take the
   slot. The first one stays ended, and a process that still runs there is another one.
   */
  lemma PidIsReused(k: Kernel, slot: Slot, first: Process, c: char, second: Process)
    requires k.boot !in k.pastBoots && Enabled(k, Spawn(slot, first)) && (c == 'Z' || c == 'X')
    ensures var id, next := Identity(k.boot, slot, first.startTicks), Identity(k.boot, slot, second.startTicks);
            var started := Apply(k, Spawn(slot, first));
            && Started(started, id) && !Ended(started, id) && Enabled(started, Exit(slot, c))
            && var gone := Apply(started, Exit(slot, c));
               && Ended(gone, id) && Enabled(gone, Reap(slot))
               && var free := Apply(gone, Reap(slot));
                  && (Enabled(free, Spawn(slot, second)) <==>
                        second.state != 'Z' && second.state != 'X' && next != id && (slot, second.startTicks) !in k.used)
                  && (Enabled(free, Spawn(slot, second)) ==>
                        Ended(Apply(free, Spawn(slot, second)), id) && !Ended(Apply(free, Spawn(slot, second)), next))
  {
  }

  /** What the launch receipt says of the launcher's process; each witness may be missing. */
  datatype Witness = Witness(
    pid: Option<int>, startTicks: Option<string>, namespace: Option<string>, boot: Option<string>, hardDeadline: Option<int>)

  /** The witnesses that are there are the launcher's own. */
  predicate Genuine(w: Witness, id: Identity) {
    && (w.pid.Some? ==> w.pid.value == id.slot.pid)
    && (w.startTicks.Some? ==> w.startTicks.value == id.startTicks)
    && (w.namespace.Some? ==> w.namespace.value == id.slot.namespace)
    && (w.boot.Some? ==> w.boot.value == id.boot)
  }

  datatype Verdict = Alive | Dead | Undecided | Open

  predicate Present(s: Option<string>) {
    s.Some? && s.value != ""
  }

  predicate WitnessComplete(w: Witness) {
    && w.pid.Some? && w.pid.value > 1 && Present(w.startTicks) && Present(w.namespace) && Present(w.boot)
    && w.hardDeadline.Some?
  }

  /** The three reads of the observation, in their order; `Open` means the next read decides. */
  function BootVerdict(k: Kernel, w: Witness, readable: bool): Verdict {
    if !readable || k.boot == "" then Undecided else if Some(k.boot) != w.boot then Dead else Open
  }

  function NamespaceVerdict(own: string, w: Witness, readable: bool): Verdict {
    if !readable || own == "" || Some(own) != w.namespace then Undecided else Open
  }

  function StatVerdict(k: Kernel, own: string, w: Witness, readable: bool): Verdict
    requires w.pid.Some?
  {
    var slot := Slot(own, w.pid.value);
    if !readable then Undecided
    else if slot !in k.procs then Dead
    else if Some(k.procs[slot].startTicks) != w.startTicks then Dead
    else if DeadState(k.procs[slot].state) then Dead
    else Alive
  }

  /** Whichever of the reads says dead, the launcher has ended. */
  lemma DeadIsSound(k: Kernel, own: string, w: Witness, id: Identity, readable: bool)
    requires Genuine(w, id) && WitnessComplete(w)
    ensures BootVerdict(k, w, readable) == Dead ==> Ended(k, id)
    ensures Some(own) == w.namespace && StatVerdict(k, own, w, readable) == Dead ==> Ended(k, id)
  {
  }

  /** And with everything readable from the launcher's own namespace, a live launcher is never called dead, an ended one always. */
  lemma VerdictExact(k: Kernel, own: string, w: Witness, id: Identity)
    requires Genuine(w, id) && WitnessComplete(w) && k.boot != "" && Some(own) == w.namespace
    ensures Ended(k, id) <==> BootVerdict(k, w, true) == Dead
                              || (BootVerdict(k, w, true) == Open && StatVerdict(k, own, w, true) == Dead)
  {
  }

  /**
   What each read settles. What cannot be read, or is empty, settles nothing; nor does another pid namespace, where the
   pid means another process. Alive is said only of the very process, seen in a state that is neither zombie nor dead.
   */
  lemma ReadsSettle(k: Kernel, own: string, w: Witness, readable: bool)
    requires w.pid.Some?
    ensures var boot, space, stat := BootVerdict(k, w, readable), NamespaceVerdict(own, w, readable), StatVerdict(k, own, w, readable);
            && boot != Alive && (boot == Undecided <==> !readable || k.boot == "") && (boot == Open ==> w.boot == Some(k.boot))
            && (w.boot == Some(k.boot) ==> boot != Dead)
            && (space == Open || space == Undecided) && (space == Open <==> readable && own != "" && w.namespace == Some(own))
            && stat != Open && (stat == Undecided <==> !readable)
            && (stat == Alive <==>
                  readable && Slot(own, w.pid.value) in k.procs && w.startTicks == Some(k.procs[Slot(own, w.pid.value)].startTicks)
                  && k.procs[Slot(own, w.pid.value)].state != 'Z' && k.procs[Slot(own, w.pid.value)].state != 'X')
  {
  }

  /** A witness is missing when its field is, or is empty, or when the pid is that of the first process. */
  lemma MissingWitness(w: Witness)
    ensures !WitnessComplete(w) <==>
            || w.pid == None || w.pid.value <= 1 || w.hardDeadline == None
            || w.startTicks == None || w.startTicks == Some("") || w.namespace == None || w.namespace == Some("")
            || w.boot == None || w.boot == Some("")
  {
  }
}
