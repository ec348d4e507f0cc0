/**
 Why a delivery does not come to look at the pane, told in the order of its checks, and what an older claim becomes
 when it is moved to the message's own key.
 */
module DeliveryRefusals {
  import opened Basics
  import opened Mail
  import opened Delivery

  /** The claim as recorded anew: by the worker it is delivered to now, with that worker's stable key if it has one. */
  predicate Rerecorded(e: Episode, was: Episode, w: Worker) {
    && e.messageId == was.messageId && e.runId == was.runId && e.recipient == was.recipient
    && e.nextEligibleAt == was.nextEligibleAt && e.backoffMs == was.backoffMs && e.phase == was.phase && e.reason == was.reason
    && e.workerKey == WorkerKey(w)
    && (w.stableKey == None || Trim(w.stableKey.value) == "" ==> e.stableKey == was.stableKey)
    && (w.stableKey != None && Trim(w.stableKey.value) != "" ==> e.stableKey == Some(Trim(w.stableKey.value)))
  }

  /** An older claim is moved exactly if the message has none under its own key, and nothing else changes. */
  lemma LiftExactly(eps: Ledger, m: Message, w: Worker)
    requires OneStray(eps, EpisodeKey(m, w), m.id)
    ensures var l, key := Lift(eps, m, w), EpisodeKey(m, w);
            && (key in eps ==> l == eps)
            && (key !in eps ==>
                  && (key in l <==> exists k :: k in eps && eps[k].messageId == m.id)
                  && (forall k :: k in eps && eps[k].messageId == m.id ==> k !in l && key in l && Rerecorded(l[key], eps[k], w))
                  && (forall k :: k != key && !(k in eps && eps[k].messageId == m.id) ==> Lookup(l, k) == Lookup(eps, k)))
  {
    hide EpisodeKey, WorkerKey, Trim;
    var key := EpisodeKey(m, w);
    if key !in eps {
      assert forall k :: k in eps && eps[k].messageId == m.id ==> k in LegacyKeys(eps, key, m.id);
      if LegacyKeys(eps, key, m.id) != {} {
        var k :| k in LegacyKeys(eps, key, m.id);
        assert forall j :: j in LegacyKeys(eps, key, m.id) ==> j == k;
        assert LegacyKeys(eps, key, m.id) == {k};
      }
    }
  }

  /** Another message's Enter on this worker, with the same text, whose wait is not over. */
  ghost predicate SiblingHolds(eps: Ledger, m: Message, w: Worker, now: int) {
    exists k :: k in eps && k != EpisodeKey(m, w) && HoldsText(eps[k], m, w, now)
  }

  predicate HoldsText(e: Episode, m: Message, w: Worker, now: int) {
    && e.phase == PointerVisible && e.workerKey == WorkerKey(w) && e.nextEligibleAt > now
    && BuildDeliveryPointer(Message(e.messageId, e.runId, e.recipient, false)) == BuildDeliveryPointer(m)
  }

  predicate Nameless(w: Worker) {
    w.runtime == "" || Trim(w.id) == "" || Trim(w.generation) == ""
  }

  /** A delivery refuses for the first of these reasons that applies, and otherwise observes the pane. */
  lemma RefusesExactly(eps: Ledger, m: Message, w: Worker, now: int, pane: Pane, allow: bool)
    ensures var r, key, lifted := Delivered(eps, m, w, now, pane, allow), EpisodeKey(m, w), Lift(eps, m, w);
            var claim := Lookup(lifted, key);
            if m.consumed && !allow then r == Result(eps, Report(AlreadyConsumed, None))
            else if Nameless(w) then r == Result(eps, Report(IdentityIncomplete, None))
            else if HasPhase(claim, Refused) && now < claim.value.nextEligibleAt
            then r == Result(lifted, Report(if claim.value.reason == None then PointerAbsent else claim.value.reason.value, None))
            else
              var base := if HasPhase(claim, Refused) || HasPhase(claim, Claimed) then lifted - {key} else lifted;
              if SiblingHolds(base, m, w, now) then r == Result(base, Report(AlreadyClaimed, None))
              else if pane.family != Cursor then r == Result(base, Report(FamilyUnbound, None))
              else r == Observe(base, m, w, now, pane)
  {
    var base := Released(Lift(eps, m, w), EpisodeKey(m, w));
    PendingIs(base, m, w, now);
    hide EpisodeKey, Lift, Observe, PendingPointerClaim, SiblingHolds, Trim;
  }

  lemma PendingIs(eps: Ledger, m: Message, w: Worker, now: int)
    ensures PendingPointerClaim(eps, m, w, now, EpisodeKey(m, w)) <==> SiblingHolds(eps, m, w, now)
  {
    hide EpisodeKey, BuildDeliveryPointer, WorkerKey;
    var key := EpisodeKey(m, w);
    forall k | k in eps && k != key ensures PendingAt(eps, m, w, now, key, k) <==> HoldsText(eps[k], m, w, now) {
    }
  }

  /** An empty composer is read a second time, and the second reading counts; any other first reading stands. */
  lemma ReadTwiceExactly(pane: Pane, again: Screen)
    ensures pane.first == Unreadable || !pane.first.empty ==> SettledScreen(pane.(afterGrace := again)) == pane.first
    ensures !(pane.first == Unreadable || !pane.first.empty) ==> SettledScreen(pane.(afterGrace := again)) == again
  {
  }

  /** What is reported of an Enter goes with what became of it; without one, with what kept it back. */
  lemma OutcomeIsReported(pane: Pane, pointer: string)
    ensures var r := Settled(pane, pointer);
            && (r.press == Some(Failed) <==> r.reason == SendFailure)
            && (r.press == Some(Consumed) <==> r.reason == EnterSent)
            && (r.press == Some(Unconfirmed) <==> r.reason == SubmissionUnconfirmed)
            && (r.press == None <==> pane.familyAtEnter == Unbound || pane.livenessAtEnter == Gone)
            && (r.press == None ==> r.reason == if pane.familyAtEnter == Unbound then FamilyUnbound else WorkerGone)
  {
  }

  // ----- the rows of a tick -----

  /** The Enter may have gone out, or the pointer was found to be gone. */
  predicate Spent(r: Report) {
    !(r.press == None || r.press == Some(Failed)) || r.reason == PointerConsumed
  }

  /** Both rows would put the same text to the same recipient. */
  predicate SameText(a: Row, b: Row) {
    && RecipientEpisodeKey(a.worker) == RecipientEpisodeKey(b.worker)
    && BuildDeliveryPointer(a.message) == BuildDeliveryPointer(b.message)
  }

  ghost predicate SpentBefore(rows: seq<Row>, reports: seq<Report>, i: nat)
    requires i < |rows| && |reports| == |rows|
  {
    exists j :: 0 <= j < i && SameText(rows[j], rows[i]) && Spent(reports[j])
  }

  lemma KeyIsText(a: Row, b: Row)
    requires NulFree(BuildDeliveryPointer(a.message)) && NulFree(BuildDeliveryPointer(b.message))
    ensures PointerLedgerKey(a.message, a.worker) == PointerLedgerKey(b.message, b.worker) <==> SameText(a, b)
  {
    hide BuildDeliveryPointer, RecipientEpisodeKey, NulFree;
    if PointerLedgerKey(a.message, a.worker) == PointerLedgerKey(b.message, b.worker) {
      var x, y := RecipientEpisodeKey(a.worker), RecipientEpisodeKey(b.worker);
      NulTailUnique(x + "\0pointer", BuildDeliveryPointer(a.message), y + "\0pointer", BuildDeliveryPointer(b.message));
      assert x == (x + "\0pointer")[..|x + "\0pointer"| - 8] && y == (y + "\0pointer")[..|y + "\0pointer"| - 8];
    }
  }

  /** The pointers a tick remembers to have tried are those of the rows that spent them. */
  ghost predicate Remembers(rows: seq<Row>, t: Tick) {
    && |t.reports| == |rows|
    && forall k :: k in t.coalesced <==>
                   exists j :: 0 <= j < |rows| && Spent(t.reports[j]) && PointerLedgerKey(rows[j].message, rows[j].worker) == k
  }

  lemma RowRemembers(t: Tick, row: Row, now: int)
    ensures var u, key := TickRow(t, row, now), PointerLedgerKey(row.message, row.worker);
            && |u.reports| == |t.reports| + 1 && u.reports[..|t.reports|] == t.reports
            && u.coalesced == if Spent(u.reports[|t.reports|]) then t.coalesced + {key} else t.coalesced
  {
    hide Delivered, PointerLedgerKey, Spent, PointerAttempted;
    SpentIs(Report(AlreadyClaimed, None));
    SpentIs(Delivered(t.ledger, row.message, row.worker, now, row.pane, row.allowConsumedRetry).report);
    assert !Spent(Report(AlreadyClaimed, None)) by { NothingSpent(); }
  }

  lemma NothingSpent()
    ensures !Spent(Report(AlreadyClaimed, None))
  {
  }

  lemma SpentIs(r: Report)
    ensures Spent(r) <==> PointerAttempted(r)
  {
    match r.press
    case None =>
    case Some(o) =>
      match o {
        case Failed =>
        case Unconfirmed =>
        case Consumed =>
      }
  }

  lemma {:induction false} TickRemembers(eps: Ledger, rows: seq<Row>, now: int)
    ensures Remembers(rows, TickRows(eps, rows, now))
  {
    hide Delivered, PointerLedgerKey, TickRow, Spent;
    if rows != [] {
      var n := |rows| - 1;
      var t, u := TickRows(eps, rows[..n], now), TickRows(eps, rows, now);
      TickRemembers(eps, rows[..n], now);
      RowRemembers(t, rows[n], now);
      assert forall j :: 0 <= j < n ==> rows[..n][j] == rows[j] && u.reports[j] == u.reports[..n][j] == t.reports[j];
      forall k ensures k in u.coalesced <==>
                       exists j :: 0 <= j < |rows| && Spent(u.reports[j]) && PointerLedgerKey(rows[j].message, rows[j].worker) == k
      {
        if k in t.coalesced {
          var j :| 0 <= j < n && Spent(t.reports[j]) && PointerLedgerKey(rows[..n][j].message, rows[..n][j].worker) == k;
          assert Spent(u.reports[j]) && PointerLedgerKey(rows[j].message, rows[j].worker) == k;
        }
        if j :| 0 <= j < |rows| && Spent(u.reports[j]) && PointerLedgerKey(rows[j].message, rows[j].worker) == k {
          assert j < n ==> Spent(t.reports[j]) && PointerLedgerKey(rows[..n][j].message, rows[..n][j].worker) == k;
        }
      }
    }
  }

  /**
   Row by row: a row whose text an earlier one has spent on the same recipient is skipped, every other one is delivered
   to what the rows before it left.
   */
  lemma RowsExactly(eps: Ledger, rows: seq<Row>, now: int, i: nat)
    requires i < |rows| && forall j :: 0 <= j < |rows| ==> NulFree(BuildDeliveryPointer(rows[j].message))
    ensures var before, after := TickRows(eps, rows[..i], now), TickRows(eps, rows[..i + 1], now);
            && |after.reports| == i + 1 && after.reports[..i] == before.reports
            && if SpentBefore(rows[..i + 1], after.reports, i)
               then after.reports[i] == Report(AlreadyClaimed, None) && after.ledger == before.ledger
               else Result(after.ledger, after.reports[i]) ==
                    Delivered(before.ledger, rows[i].message, rows[i].worker, now, rows[i].pane, rows[i].allowConsumedRetry)
  {
    hide Delivered, PointerLedgerKey, BuildDeliveryPointer, Spent, SameText;
    var all, row := rows[..i + 1], rows[i];
    var before, after := TickRows(eps, rows[..i], now), TickRows(eps, all, now);
    assert all[..i] == rows[..i] && all[i] == row;
    TickRemembers(eps, rows[..i], now);
    var key := PointerLedgerKey(row.message, row.worker);
    forall j | 0 <= j < i
      ensures rows[..i][j] == all[j] == rows[j] && after.reports[j] == before.reports[j]
      ensures PointerLedgerKey(rows[j].message, rows[j].worker) == key <==> SameText(rows[j], row)
    {
      KeyIsText(rows[j], row);
    }
    if SpentBefore(all, after.reports, i) {
      var j :| 0 <= j < i && SameText(all[j], all[i]) && Spent(after.reports[j]);
      assert Spent(before.reports[j]) && PointerLedgerKey(rows[..i][j].message, rows[..i][j].worker) == key;
    }
    if key in before.coalesced {
      var j :| 0 <= j < i && Spent(before.reports[j]) && PointerLedgerKey(rows[..i][j].message, rows[..i][j].worker) == key;
      assert SameText(all[j], all[i]) && Spent(after.reports[j]);
    }
  }
}
