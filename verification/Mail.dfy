/**
 Orchestration mail: the message and worker identities, the ledger keys built from them, and the
 one pointer text a message puts into its recipient's composer.
 */
module Mail {
  import opened Basics

  datatype Message = Message(id: string, runId: string, recipient: string, consumed: bool)

  datatype Worker = Worker(runtime: string, id: string, generation: string, stableKey: Option<string>)

  function WorkerKey(w: Worker): string {
    w.runtime + "\0" + w.id + "\0" + w.generation
  }

  function RecipientEpisodeKey(w: Worker): string {
    if w.stableKey.Some? && Trim(w.stableKey.value) != "" then
      "stable\0" + Trim(w.stableKey.value)
    else
      WorkerKey(w)
  }

  function EpisodeKey(m: Message, w: Worker): string {
    RecipientEpisodeKey(w) + "\0message" + "\0" + m.id
  }

  const BARE_CHECK := "orca orchestration check"

  /** The command the printed pointer asks for. */
  function CheckCommand(m: Message): string {
    if "dispatch:" <= m.recipient then BARE_CHECK
    else if "run:" <= m.recipient then BARE_CHECK + " --run " + m.runId
    else if "term_" <= m.recipient then BARE_CHECK + " --terminal " + m.recipient
    else BARE_CHECK + " --run " + m.runId
  }

  function Prose(m: Message): string {
    if "run:" <= m.recipient then
      "Read orchestration mail, check the fleet, " + "and clear blockers " + "so the fleet does not idle."
    else
      "Read and act on your orchestration message."
  }

  function BuildDeliveryPointer(m: Message): string {
    "You have 1 orchestration message. " + Prose(m) + " Run `" + CheckCommand(m) + "`."
  }

  predicate PointerMatchesDelivery(pointer: string, m: Message, w: Worker) {
    if "dispatch:" <= m.recipient then
      pointer == BARE_CHECK
    else if "run:" <= m.recipient then
      var runId := Trim(m.recipient[|"run:"|..]);
      runId == m.runId && pointer == BARE_CHECK + " --run " + runId
    else if "term_" <= m.recipient then
      w.id == m.recipient && pointer == BARE_CHECK + " --terminal " + m.recipient
    else
      false
  }

  /** The recipients a pointer can be delivered to: bound to the worker or Run they name. */
  predicate Addressable(m: Message, w: Worker) {
    || "dispatch:" <= m.recipient
    || ("run:" <= m.recipient && Trim(m.recipient[|"run:"|..]) == m.runId)
    || ("term_" <= m.recipient && w.id == m.recipient)
  }

  /** What the delivery side accepts is exactly what the printing side prints, for addressable recipients. */
  lemma MatchIsOwnCommand(pointer: string, m: Message, w: Worker)
    ensures PointerMatchesDelivery(pointer, m, w) <==> Addressable(m, w) && pointer == CheckCommand(m)
  {
    var r := m.recipient;
    if "dispatch:" <= r {
      assert r[0] == 'd';
    } else if "run:" <= r {
      assert r[0] == 'r';
    } else if "term_" <= r {
      assert r[0] == 't';
    }
  }

  lemma WorkerKeyInjective(v: Worker, w: Worker)
    requires NulFree(v.runtime) && NulFree(v.id) && NulFree(v.generation)
    requires NulFree(w.runtime) && NulFree(w.id) && NulFree(w.generation)
    requires WorkerKey(v) == WorkerKey(w)
    ensures v.runtime == w.runtime && v.id == w.id && v.generation == w.generation
  {
    NulTailUnique(v.runtime + "\0" + v.id, v.generation, w.runtime + "\0" + w.id, w.generation);
    NulTailUnique(v.runtime, v.id, w.runtime, w.id);
  }

  /** Two messages with NUL-free ids share a ledger key only if they are the same message. */
  lemma EpisodeKeyNamesMessage(m: Message, v: Worker, n: Message, w: Worker)
    requires NulFree(m.id) && NulFree(n.id)
    requires EpisodeKey(m, v) == EpisodeKey(n, w)
    ensures m.id == n.id
  {
    NulTailUnique(RecipientEpisodeKey(v) + "\0message", m.id, RecipientEpisodeKey(w) + "\0message", n.id);
  }

  /** The stable key of a worker that has one: white space around it does not count, and a blank one is none. */
  function StableName(w: Worker): Option<string> {
    match w.stableKey
    case None => None
    case Some(k) => if Trim(k) == "" then None else Some(Trim(k))
  }

  predicate Plainly(w: Worker) {
    && NulFree(w.runtime) && NulFree(w.id) && NulFree(w.generation)
    && (StableName(w).Some? ==> NulFree(StableName(w).value))
  }

  /** Two workers are one recipient exactly if they have the same stable key, or none and the same identity. */
  lemma RecipientExactly(v: Worker, w: Worker)
    requires Plainly(v) && Plainly(w)
    ensures RecipientEpisodeKey(v) == RecipientEpisodeKey(w) <==>
            StableName(v) == StableName(w)
            && (StableName(v) == None ==> v.runtime == w.runtime && v.id == w.id && v.generation == w.generation)
  {
    hide Trim, NulFree;
    if StableName(v).None? && StableName(w).None? {
      if WorkerKey(v) == WorkerKey(w) {
        WorkerKeyInjective(v, w);
      }
    } else if StableName(v).Some? && StableName(w).Some? {
      assert ("stable\0" + StableName(v).value)[7..] == StableName(v).value;
      assert ("stable\0" + StableName(w).value)[7..] == StableName(w).value;
    } else if StableName(v).Some? {
      StableIsNoIdentity(StableName(v).value, w);
    } else {
      StableIsNoIdentity(StableName(w).value, v);
    }
  }

  lemma StableIsNoIdentity(name: string, w: Worker)
    requires NulFree(name)
    ensures "stable\0" + name != WorkerKey(w)
  {
    var stable, key := "stable\0" + name, WorkerKey(w);
    var first, second := |w.runtime|, |w.runtime| + 1 + |w.id|;
    assert key[first] == '\0' && key[second] == '\0';
    assert forall k :: 6 < k < |stable| ==> stable[k] == name[k - 7];
    assert stable[..6] == "stable";
    assert forall k :: 0 <= k < 6 ==> stable[k] == "stable"[k];
    assert forall k :: 0 <= k < |stable| && k != 6 ==> stable[k] != '\0';
  }
}
