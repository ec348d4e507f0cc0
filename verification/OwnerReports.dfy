/**
 What a wait may report and what a launcher may leave, said field by field: which files at the terminal path count
 as an answer to this launch, what the receipt has to be when they are confirmed, and that every wait ends.
 */
module OwnerReports {
  import opened Basics
  import opened OwnerWait
  import K = Kernel

  /** Some character of the text is not white space. */
  predicate HasText(s: string) {
    exists i :: 0 <= i < |s| && !IsSpace(s[i])
  }

  lemma TrimmedHasText(s: string)
    ensures NonBlank(s) <==> HasText(s)
  {
    hide IsSpace, HasText;
    StartKeepsText(s);
    EndKeepsText(TrimStart(s));
    EmptyHasNoText();
  }

  lemma EmptyHasNoText()
    ensures !HasText("")
  {
  }

  lemma {:induction false} StartKeepsText(s: string)
    ensures HasText(TrimStart(s)) <==> HasText(s)
  {
    hide IsSpace;
    if s != "" && IsSpace(s[0]) {
      assert forall i :: 0 <= i < |s[1..]| ==> s[1..][i] == s[i + 1];
      assert HasText(s) ==> HasText(s[1..]) by {
        if HasText(s) {
          var i :| 0 <= i < |s| && !IsSpace(s[i]);
          assert !IsSpace(s[1..][i - 1]);
        }
      }
      StartKeepsText(s[1..]);
    }
  }

  lemma {:induction false} EndKeepsText(s: string)
    ensures HasText(TrimEnd(s)) <==> HasText(s)
    ensures TrimEnd(s) != "" ==> HasText(s)
  {
    hide IsSpace;
    if s != "" && IsSpace(s[|s| - 1]) {
      var t := s[..|s| - 1];
      assert forall i :: 0 <= i < |t| ==> t[i] == s[i];
      EndKeepsText(t);
    }
  }

  /** `name` is what stands behind the last slash of `path`. */
  predicate LastPart(path: string, name: string) {
    var n := |path| - |name|;
    '/' !in name && 0 <= n && path[n..] == name && (n == 0 || path[n - 1] == '/')
  }

  /** The envelope names the receipt by its whole path, or relative by the file name alone. */
  ghost predicate NamesFile(written: string, path: string) {
    && written != ""
    && if written[0] == '/' then written == path else exists name :: LastPart(written, name) && LastPart(path, name)
  }

  lemma {:induction false} BaseNameIs(path: string, name: string)
    ensures LastPart(path, name) <==> name == BaseName(path)
  {
    hide LastPart;
    if path == "" || path[|path| - 1] == '/' {
      NothingBehind(path, name);
    } else {
      var init, c := path[..|path| - 1], path[|path| - 1];
      assert path == init + [c];
      OneBehind(init, c, name);
      if name != "" {
        BaseNameIs(init, name[..|name| - 1]);
        assert name == name[..|name| - 1] + [name[|name| - 1]];
        assert (BaseName(init) + [c])[..|BaseName(init)|] == BaseName(init);
      }
    }
  }

  lemma NothingBehind(path: string, name: string)
    requires path == "" || path[|path| - 1] == '/'
    ensures LastPart(path, name) <==> name == ""
  {
    if 0 < |name| <= |path| && path[|path| - |name|..] == name {
      assert name[|name| - 1] == path[|path| - 1];
    }
  }

  lemma OneBehind(init: string, c: char, name: string)
    requires c != '/'
    ensures LastPart(init + [c], name) <==> name != "" && name[|name| - 1] == c && LastPart(init, name[..|name| - 1])
  {
    var path := init + [c];
    if 0 < |name| <= |path| {
      var n, most := |path| - |name|, name[..|name| - 1];
      assert path[n..] == init[n..] + [c];
      assert name == most + [name[|name| - 1]];
      assert path[n..] == name <==> init[n..] == most && name[|name| - 1] == c by {
        assert (init[n..] + [c])[..|most|] == init[n..] && (init[n..] + [c])[|most|] == c;
      }
      assert n > 0 ==> path[n - 1] == init[n - 1];
    }
  }

  lemma NamesReceiptIs(e: Envelope, path: string)
    requires e.receiptPath != ""
    ensures NamesReceipt(e, path) <==> NamesFile(e.receiptPath, path)
  {
    hide LastPart, BaseName;
    assert Absolute(e.receiptPath) <==> e.receiptPath[0] == '/';
    forall name ensures LastPart(e.receiptPath, name) <==> name == BaseName(e.receiptPath)
                ensures LastPart(path, name) <==> name == BaseName(path) {
      BaseNameIs(e.receiptPath, name);
      BaseNameIs(path, name);
    }
    assert LastPart(e.receiptPath, BaseName(e.receiptPath));
  }

  /** An envelope that answers this launch: complete, of its run and attempt, its receipt, times and invocation. */
  ghost predicate Answers(l: Launch, e: Envelope) {
    && e.run == l.run && e.attempt == l.attempt && e.managed && e.recoveryKnown
    && HasText(e.terminalAt) && e.startedAt == l.receipt.startedAt && e.committedAt == l.receipt.committedAt
    && (e.outcome == Success || e.outcome == Incident)
    && (e.delivery == NotSent || e.delivery == PossiblyDelivered || e.delivery == Landed)
    && NamesFile(e.receiptPath, l.receiptPath)
    && (l.receipt.invocation == None || l.receipt.invocation == Some("") || e.invocation == l.receipt.invocation)
  }

  /** The same receipt, but for a baseline added meanwhile. */
  predicate SameReceipt(read: Option<Receipt>, r: Receipt) {
    && read.Some? && read.value.startedAt == r.startedAt && read.value.committedAt == r.committedAt
    && read.value.invocation == r.invocation && read.value.ownerTask == r.ownerTask
    && read.value.ownerDispatch == r.ownerDispatch && read.value.witnesses == r.witnesses
  }

  lemma SameReceiptIs(a: Receipt, b: Receipt)
    ensures SameIdentity(a, b) <==> SameReceipt(Some(a), b)
  {
  }

  /** The file at the path answers a wait; for an unchecked one any envelope of the run and attempt does. */
  ghost predicate Answered(l: Launch, w: Wait, slot: Option<Doc>, read: Option<Receipt>, located: bool) {
    && slot.Some? && slot.value.Readable?
    && if w.checked then w.bound && located && SameReceipt(read, l.receipt) && Answers(l, slot.value.envelope)
       else slot.value.envelope.run == l.run && slot.value.envelope.attempt == l.attempt
  }

  /**
   What a look at the path finds, exactly. It is the winner if it answers the wait. To a checked wait anything else there
   is a rejection; to an unchecked one it is as good as nothing.
   */
  lemma WinnerExactly(l: Launch, w: Wait, slot: Option<Doc>, read: Option<Receipt>, located: bool)
    requires WellFormed(l) && MayJoin(l, w.(pc := Polling))
    ensures ReadWinner(l, w, slot, read, located) ==
            if Answered(l, w, slot, read, located) then Winner(slot.value.envelope)
            else if w.checked && slot.Some? then Rejected else NoWinner
  {
    if slot.Some? && slot.value.Readable? {
      CompleteAnswers(l, slot.value.envelope);
      if read.Some? {
        SameReceiptIs(read.value, l.receipt);
        if w.initial.Some? {
          OfSame(l, slot.value.envelope, w.initial.value, read.value);
        }
      }
    }
    hide WellFormed, Complete, OfReceipt, Answers, SameIdentity, SameReceipt;
  }

  /** The fields the validation looks at. */
  predicate Matches(l: Launch, e: Envelope) {
    && Complete(e) && OfReceipt(e, l.receipt, l.receiptPath)
    && (l.receipt.invocation.GetOr("") != "" ==> e.invocation == l.receipt.invocation)
  }

  lemma CompleteAnswers(l: Launch, e: Envelope)
    requires WellFormed(l)
    ensures Answers(l, e) <==> e.run == l.run && e.attempt == l.attempt && Matches(l, e)
  {
    TrimmedHasText(e.terminalAt);
    if e.receiptPath != "" {
      NamesReceiptIs(e, l.receiptPath);
    }
    hide NonBlank, HasText, NamesReceipt, NamesFile;
  }

  lemma OfSame(l: Launch, e: Envelope, initial: Receipt, read: Receipt)
    ensures SameIdentity(initial, l.receipt) ==> (SameIdentity(initial, read) <==> SameIdentity(read, l.receipt))
    ensures SameIdentity(read, l.receipt) ==>
              (OfReceipt(e, read, l.receiptPath) <==> OfReceipt(e, l.receipt, l.receiptPath)) && read.invocation == l.receipt.invocation
  {
    hide NamesReceipt;
  }

  /**
   Having found an answer, a wait reports it exactly if the receipt, read once more, is still the same, and is of the
   invocation the envelope names, if it names one. An unchecked wait reports it in any case.
   */
  lemma ConfirmedExactly(l: Launch, w: Wait, e: Envelope, read: Option<Receipt>)
    requires MayJoin(l, w.(pc := Polling)) && (w.checked ==> w.bound && Answers(l, e))
    ensures Confirmed(w, e, read) <==>
            !w.checked || (SameReceipt(read, l.receipt) && (e.invocation == None || e.invocation == l.receipt.invocation))
  {
    if e.receiptPath != "" {
      NamesReceiptIs(e, l.receiptPath);
    }
    if read.Some? {
      SameReceiptIs(read.value, l.receipt);
    }
    hide NonBlank, HasText, NamesReceipt, NamesFile, BaseName;
  }

  /** What a wait does with the answer it found: it reports it then, and otherwise ends with nothing. */
  lemma ReportedExactly(l: Launch, k: K.Kernel, slot: Option<Doc>, w: Wait, read: Option<Receipt>)
    requires MayJoin(l, w.(pc := Polling)) && w.pc.Confirming? && (w.checked ==> w.bound && Answers(l, w.pc.e))
    ensures var e := w.pc.e;
            AfterAct(l, k, slot, w, Confirm(read)) ==
            Done(if !w.checked || (SameReceipt(read, l.receipt) && (e.invocation == None || e.invocation == l.receipt.invocation))
                 then Some(e) else None)
  {
    ConfirmedExactly(l, w, w.pc.e, read);
    hide Confirmed, MayJoin, Answers;
  }

  // ----- over runs -----

  /** What a wait reports, or is about to, answers the launch; to a checked wait in full. */
  ghost predicate ReportsAnswer(l: Launch, w: Wait) {
    && (w.pc.Confirming? ==> Answer(l, w, w.pc.e))
    && (w.pc.Done? && w.pc.report.Some? ==> Answer(l, w, w.pc.report.value))
  }

  ghost predicate Answer(l: Launch, w: Wait, e: Envelope) {
    e.run == l.run && e.attempt == l.attempt && (w.checked ==> w.bound && Answers(l, e))
  }

  ghost predicate AllReportAnswers(l: Launch, w: World) {
    forall i :: i in w.waits ==> ReportsAnswer(l, w.waits[i])
  }

  lemma UncertainAnswers(l: Launch, e: Envelope)
    requires WellFormed(l) && Uncertain(l, e)
    ensures Answers(l, e)
  {
    TrimmedHasText(e.terminalAt);
    hide NonBlank, HasText, K.Genuine, BaseName;
  }

  lemma ActReports(l: Launch, k: K.Kernel, slot: Option<Doc>, w: Wait, a: Act)
    requires WellFormed(l) && WaitSound(l, k, slot, w) && ReportsAnswer(l, w) && ActEnabled(l, w, a)
    ensures ReportsAnswer(l, w.(pc := AfterAct(l, k, slot, w, a)))
  {
    hide WellFormed, WaitSound, ReadWinner, AfterObserve, ReportsAnswer, Answer;
    SoundMeans(l, k, slot, w);
    match a
    case Poll(read, located) => LookReports(l, k, slot, w, a);
    case Look(read, located, lawful) => LookReports(l, k, slot, w, a);
    case Create(_) => CreateReports(l, k, slot, w, a);
    case Observe(readable) => ObserveReportsNothing(l, k, w, readable);
    case _ => OtherReports(l, k, slot, w, a);
  }

  lemma SoundMeans(l: Launch, k: K.Kernel, slot: Option<Doc>, w: Wait)
    requires WaitSound(l, k, slot, w)
    ensures MayJoin(l, w.(pc := Polling)) && (w.pc.Creating? ==> Uncertain(l, w.pc.e) && w.checked && w.bound)
  {
  }

  lemma LookReports(l: Launch, k: K.Kernel, slot: Option<Doc>, w: Wait, a: Act)
    requires WellFormed(l) && MayJoin(l, w.(pc := Polling)) && ActEnabled(l, w, a) && (a.Poll? || a.Look?)
    ensures ReportsAnswer(l, w.(pc := AfterAct(l, k, slot, w, a)))
  {
    hide WellFormed, ReadWinner, Answers, SameReceipt, SameIdentity, Managed, K.WitnessComplete;
    WinnerExactly(l, w, slot, a.read, a.located);
    if slot.Some? && slot.value.Readable? && Answers(l, slot.value.envelope) {
      AnswerIsOwn(l, slot.value.envelope);
    }
  }

  lemma AnswerIsOwn(l: Launch, e: Envelope)
    requires Answers(l, e)
    ensures e.run == l.run && e.attempt == l.attempt
  {
  }

  lemma CreateReports(l: Launch, k: K.Kernel, slot: Option<Doc>, w: Wait, a: Act)
    requires WellFormed(l) && a.Create? && w.pc.Creating? && Uncertain(l, w.pc.e) && w.checked && w.bound
    ensures ReportsAnswer(l, w.(pc := AfterAct(l, k, slot, w, a)))
  {
    UncertainAnswers(l, w.pc.e);
    UncertainIs(l, w.pc.e);
    hide WellFormed, Uncertain, Answers;
  }

  lemma OtherReports(l: Launch, k: K.Kernel, slot: Option<Doc>, w: Wait, a: Act)
    requires ReportsAnswer(l, w) && ActEnabled(l, w, a) && (a.TimeUp? || a.Confirm? || a.Compose?)
    ensures ReportsAnswer(l, w.(pc := AfterAct(l, k, slot, w, a)))
  {
    hide Answers, SameIdentity, Confirmed;
  }

  lemma UncertainIs(l: Launch, e: Envelope)
    requires Uncertain(l, e)
    ensures e.run == l.run && e.attempt == l.attempt
  {
  }

  lemma ObserveReportsNothing(l: Launch, k: K.Kernel, w: Wait, readable: bool)
    ensures ReportsAnswer(l, w.(pc := AfterObserve(k, w, readable)))
  {
    hide K.BootVerdict, K.NamespaceVerdict, K.StatVerdict, Answer;
  }

  lemma StepReports(l: Launch, w: World, s: Step)
    requires Sound(l, w) && Enabled(l, w, s) && AllReportAnswers(l, w)
    ensures AllReportAnswers(l, Apply(l, w, s))
  {
    hide ReportsAnswer, WaitSound, AfterAct, AfterLauncher, WellFormed, SlotSound, LauncherSound, K.Started, ActEnabled, LauncherEnabled, K.Apply, K.Enabled;
    var v := Apply(l, w, s);
    forall i | i in v.waits ensures ReportsAnswer(l, v.waits[i]) {
      if s.WaitStep? && s.i == i {
        ActReports(l, w.kernel, w.slot, w.waits[i], s.a);
      } else if s.Join? && s.i == i {
        NewReportsNothing(l, s.w);
      } else {
        assert v.waits[i] == w.waits[i];
      }
    }
  }

  lemma NewReportsNothing(l: Launch, w: Wait)
    requires MayJoin(l, w)
    ensures ReportsAnswer(l, w)
  {
  }

  lemma {:induction false} RunReports(l: Launch, w: World, steps: seq<Step>, v: World)
    requires Sound(l, w) && AllReportAnswers(l, w) && Reaches(l, w, steps, v)
    ensures AllReportAnswers(l, v)
    decreases |steps|
  {
    hide Sound, AllReportAnswers, Enabled, Apply;
    if steps != [] {
      StepKeeps(l, w, steps[0]);
      StepReports(l, w, steps[0]);
      RunReports(l, Apply(l, w, steps[0]), steps[1..], v);
    }
  }

  /**
   Whatever files and receipts the waits come to read: a checked wait reports only a complete envelope of this launch,
   of its receipt, its times and its invocation, and only when the locator named its paths; any wait only one of its
   run and attempt.
   */
  lemma ReportsAreAnswers(l: Launch, start: World, steps: seq<Step>, v: World, i: nat, e: Envelope)
    requires Begins(l, start) && Reaches(l, start, steps, v)
    requires i in v.waits && v.waits[i].pc == Done(Some(e))
    ensures e.run == l.run && e.attempt == l.attempt && (v.waits[i].checked ==> v.waits[i].bound && Answers(l, e))
  {
    hide Answers, Reaches;
    assert AllReportAnswers(l, start);
    RunReports(l, start, steps, v);
    assert ReportsAnswer(l, v.waits[i]);
  }

  // ----- every wait ends -----

  /** How many own steps a wait has left at most, once it no longer polls. */
  function StepsLeft(pc: Pc): nat {
    match pc
    case Polling => 13
    case Looking(Initial) => 12
    case Looking(OwnerRace) => 11
    case ReadingBoot => 10
    case ReadingNamespace => 9
    case ReadingStat => 8
    case Looking(Gone) => 7
    case Looking(PageRace) => 6
    case ReadingReceipt => 5
    case Looking(EffectRace(_)) => 4
    case Looking(Fence(_)) => 3
    case Creating(_) => 2
    case Looking(Final) => 1
    case Confirming(_) => 1
    case Done(_) => 0
  }

  /** Only a poll that finds nothing leaves a wait where it is; every other step of its own brings it nearer to its end. */
  lemma EveryWaitEnds(l: Launch, k: K.Kernel, slot: Option<Doc>, w: Wait, a: Act)
    requires ActEnabled(l, w, a)
    ensures var next := AfterAct(l, k, slot, w, a);
            StepsLeft(next) < StepsLeft(w.pc)
            || (a.Poll? && next == Polling && ReadWinner(l, w, slot, a.read, a.located) == NoWinner)
  {
    hide ReadWinner, Confirmed, SameIdentity, Managed, K.WitnessComplete, K.BootVerdict, K.NamespaceVerdict, K.StatVerdict, NonBlank;
  }

  // ----- what a reaping wait goes by -----

  /**
   The next point of a reaping wait that looks at a free path. It goes on only with a Task, a dispatch and an invocation
   in the receipt it started from, with its ownership lawful before the verdict and before the fence, and with all
   witnesses of the launcher; and once fenced it creates.
   */
  lemma FreePathLook(l: Launch, k: K.Kernel, w: Wait, read: Option<Receipt>, located: bool, lawful: bool)
    requires ActEnabled(l, w, Look(read, located, lawful))
    ensures var next, stage := AfterAct(l, k, None, w, Look(read, located, lawful)), w.pc.stage;
            && (next == Looking(OwnerRace) <==>
                  stage == Initial && w.initial.Some? && WithText(w.initial.value.ownerTask)
                  && WithText(w.initial.value.ownerDispatch) && WithText(w.initial.value.invocation))
            && (next == ReadingBoot <==>
                  stage == OwnerRace && lawful && w.initial.Some? && K.WitnessComplete(w.initial.value.witnesses))
            && (next == Looking(PageRace) <==> stage == Gone)
            && (next == ReadingReceipt <==> stage == PageRace)
            && (forall e :: next == Looking(Fence(e)) <==> stage == EffectRace(e) && lawful)
            && (next == Looking(Final) <==> stage.EffectRace? && !lawful)
            && (forall e :: next == Creating(e) <==> stage == Fence(e))
            && (next.Done? ==> next.report == None)
  {
    if w.initial.Some? {
      FilledIs(w.initial.value.ownerTask);
      FilledIs(w.initial.value.ownerDispatch);
      FilledIs(w.initial.value.invocation);
    }
    hide K.WitnessComplete, NonBlank, Filled, WithText;
  }

  predicate WithText(s: Option<string>) {
    s.Some? && HasText(s.value)
  }

  lemma FilledIs(s: Option<string>)
    ensures Filled(s) <==> WithText(s)
  {
    if s.Some? {
      TrimmedHasText(s.value);
    }
    hide NonBlank, HasText;
  }

  /**
   At a taken path a reaping wait reports what answers it; anything else makes it end with nothing. Only the look
   behind the fence leaves that to one more look.
   */
  lemma TakenPathLook(l: Launch, k: K.Kernel, slot: Option<Doc>, w: Wait, read: Option<Receipt>, located: bool, lawful: bool)
    requires WellFormed(l) && MayJoin(l, w.(pc := Polling)) && w.checked && slot.Some?
    requires ActEnabled(l, w, Look(read, located, lawful))
    ensures AfterAct(l, k, slot, w, Look(read, located, lawful)) ==
            if w.pc.stage.Fence? then Looking(Final)
            else Done(if Answered(l, w, slot, read, located) then Some(slot.value.envelope) else None)
  {
    WinnerExactly(l, w, slot, read, located);
    hide ReadWinner, Answers, SameReceipt, WellFormed, SameIdentity;
  }

  /**
   A wait gives up polling for reaping exactly as the owner's with the receipt still the one it started from, and
   composes its envelope exactly if that is so again after the verdict.
   */
  lemma ReceiptStillOwn(l: Launch, k: K.Kernel, slot: Option<Doc>, w: Wait, a: Act)
    requires MayJoin(l, w.(pc := Polling)) && w.reaper && ActEnabled(l, w, a)
    ensures a.TimeUp? ==> AfterAct(l, k, slot, w, a) == if SameReceipt(a.read, l.receipt) then Looking(Initial) else Done(None)
    ensures a.Compose? ==>
              AfterAct(l, k, slot, w, a) ==
              if SameReceipt(a.read, l.receipt)
              then Looking(EffectRace(Envelope(l.run, l.attempt, true, a.terminalAt, l.receipt.startedAt, l.receipt.committedAt,
                                               Incident, a.delivery, true, l.receiptPath, l.receipt.invocation)))
              else Done(None)
  {
    if (a.TimeUp? || a.Compose?) && a.read.Some? {
      SameReceiptIs(a.read.value, l.receipt);
      SameReceiptIs(w.initial.value, l.receipt);
      SameReceiptIs(a.read.value, w.initial.value);
    }
  }

  // ----- the launcher -----

  /** The path holds an envelope of this run and attempt. */
  predicate OwnAtPath(l: Launch, slot: Option<Doc>) {
    slot.Some? && slot.value.Readable? && slot.value.envelope.run == l.run && slot.value.envelope.attempt == l.attempt
  }

  /**
   How a launcher comes to its exit code. With its own envelope published, by its result; at a taken path with an ok
   result, 0 unless an incident of its own launch is there; cut short, 0 exactly over its own success, and where nothing
   of its own is there it tries to publish before it exits 1.
   */
  lemma LauncherDecides(l: Launch, slot: Option<Doc>, c: Launcher, a: LauncherAct)
    requires LauncherEnabled(l, c, a)
    ensures var d := AfterLauncher(l, slot, c, a);
            match a
            case Prepare(e, ok) => d == Publishing(e, ok)
            case Publish(writable) =>
              if slot.None? && writable then d == Ending(if c.ok then 0 else 1, c.ok, Some(Readable(c.e))) else d == Occupied(c.ok)
            case ReadOccupant =>
              && d.Ending? && d.ok == c.ok && d.over == slot && (d.code == 0 || d.code == 1)
              && (d.code == 0 <==> c.ok && !(OwnAtPath(l, slot) && slot.value.envelope.outcome != Success))
            case Leave => d == Exited(c.code, c.ok, c.over)
            case Abnormal(e) =>
              if OwnAtPath(l, slot)
              then d.Exited? && !d.ok && d.over == slot && d.code == if slot.value.envelope.outcome == Success then 0 else 1
              else d == Signalled(e)
            case PublishAbnormal(_) => d == Exited(1, false, slot)
  {
  }

  /** Who writes the path: at a free one only, and then a publication of the launcher, the create of a wait, or a foreign file. */
  lemma WritesExactly(l: Launch, w: World, s: Step)
    requires Enabled(l, w, s)
    ensures var v := Apply(l, w, s);
            var published := s.LauncherStep? && (s.move.Publish? || s.move.PublishAbnormal?) && s.move.writable;
            var created := s.WaitStep? && s.a.Create? && s.a.writable;
            if w.slot.None? && (published || created || s.Intrude?)
            then v.creations == w.creations + 1
                 && (published ==> v.slot == Some(Readable(w.launcher.e)) && v.author == ByLauncher)
                 && (created ==> v.slot == Some(Readable(w.waits[s.i].pc.e)) && v.author == ByReaper(s.i))
                 && (s.Intrude? ==> v.slot == Some(s.d) && v.author == ByIntruder)
            else v.slot == w.slot && v.author == w.author && v.creations == w.creations
  {
    hide AfterLauncher, AfterAct, K.Apply, K.Enabled, K.Ended;
  }

  /** What a launcher wrote is an envelope of its own run and attempt, and it leaves with 0 exactly over a success. */
  ghost predicate LeavesItsOwn(l: Launch, w: World) {
    w.author.ByLauncher? ==>
      && OwnAtPath(l, w.slot) && Leaving(w.launcher) && (w.launcher.code == 0 || w.launcher.code == 1)
      && (w.slot.value.envelope.outcome == Success || w.slot.value.envelope.outcome == Incident)
      && (w.launcher.code == 0 <==> w.slot.value.envelope.outcome == Success)
  }

  lemma StepLeavesItsOwn(l: Launch, w: World, s: Step)
    requires Sound(l, w) && Enabled(l, w, s) && LeavesItsOwn(l, w)
    ensures LeavesItsOwn(l, Apply(l, w, s))
  {
    WritesExactly(l, w, s);
    hide WaitSound, WellFormed, AfterAct, ActEnabled, MayJoin, K.Apply, K.Enabled, K.Ended, K.Started;
    if s.LauncherStep? {
      LauncherDecides(l, w.slot, w.launcher, s.move);
    }
  }

  lemma {:induction false} RunLeavesItsOwn(l: Launch, w: World, steps: seq<Step>, v: World)
    requires Sound(l, w) && LeavesItsOwn(l, w) && Reaches(l, w, steps, v)
    ensures LeavesItsOwn(l, v)
    decreases |steps|
  {
    hide Sound, LeavesItsOwn, Enabled, Apply;
    if steps != [] {
      StepKeeps(l, w, steps[0]);
      StepLeavesItsOwn(l, w, steps[0]);
      RunLeavesItsOwn(l, Apply(l, w, steps[0]), steps[1..], v);
    }
  }

  /**
   Over any run a path the launcher filled holds a success or an incident of its own run and attempt, and the launcher
   is on its way out, with 0 exactly if it is a success.
   */
  lemma LauncherLeavesItsOwn(l: Launch, start: World, steps: seq<Step>, v: World)
    requires Begins(l, start) && Reaches(l, start, steps, v) && v.author.ByLauncher?
    ensures OwnAtPath(l, v.slot) && Leaving(v.launcher)
    ensures || (v.launcher.code == 0 && v.slot.value.envelope.outcome == Success)
            || (v.launcher.code == 1 && v.slot.value.envelope.outcome == Incident)
  {
    hide Reaches;
    RunLeavesItsOwn(l, start, steps, v);
  }

  // ----- what can happen -----

  /** A polling wait reports in two steps what answers it at the path. */
  lemma AnswerIsReported(l: Launch, u: World, i: nat, read: Option<Receipt>) returns (steps: seq<Step>, v: World)
    requires Sound(l, u) && i in u.waits && u.waits[i].pc == Polling && Answered(l, u.waits[i], u.slot, read, true)
    requires var e := u.slot.value.envelope; u.waits[i].checked ==> e.invocation == None || e.invocation == l.receipt.invocation
    ensures Reaches(l, u, steps, v) && |steps| == 2 && i in v.waits && v.waits[i].pc == Done(Some(u.slot.value.envelope))
  {
    var w, e := u.waits[i], u.slot.value.envelope;
    assert WaitSound(l, u.kernel, u.slot, w);
    SoundLaunch(l, u);
    SoundMeans(l, u.kernel, u.slot, w);
    hide Sound, WellFormed, WaitSound, ReadWinner, Confirmed, Answers, SameReceipt, Reaches, MayJoin;
    WinnerExactly(l, w, u.slot, read, true);
    ConfirmedExactly(l, w, e, read);
    steps, v := WaitReports(l, u, i, read, e);
  }

  /** The race is one: a launcher that runs when it begins may die, and a wait of the owner that joins then has the path. */
  lemma ReaperCanWin(l: Launch, start: World, w: Wait, terminalAt: string, delivery: Delivery)
    returns (steps: seq<Step>, v: World)
    requires Begins(l, start) && !K.Ended(start.kernel, l.id) && MayJoin(l, w) && MayReap(l, start.kernel, w)
    requires NonBlank(terminalAt) && delivery in {PossiblyDelivered, Landed}
    ensures Reaches(l, start, steps, v) && v.author == ByReaper(0) && 0 in v.waits
    ensures exists e :: v.slot == Some(Readable(e)) && v.waits[0].pc == Done(Some(e)) && Answers(l, e)
  {
    hide NonBlank, WellFormed, Managed, K.WitnessComplete, Answers, Uncertain, WaitSound;
    var death, join := KernelStep(K.Exit(l.id.slot, 'Z')), Join(0, w);
    var dead := Apply(l, start, death);
    var u := Apply(l, dead, join);
    StepKeeps(l, start, death);
    StepKeeps(l, dead, join);
    var rest;
    rest, v := ReaperPublishes(l, u, 0, terminalAt, delivery);
    steps := [death, join] + rest;
    assert steps[1..] == [join] + rest && steps[1..][1..] == rest;
    SoundLaunch(l, u);
    UncertainAnswers(l, v.slot.value.envelope);
  }
}
