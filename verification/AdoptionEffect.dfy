/**
 Verifying that a merge took effect: every affected consumer is observed, stale ones are restarted, and
 aliased process identities count for nobody. `Judged` says what each row comes to on its own; the verifier
 works it out with identity maps over several passes.
 */
module AdoptionEffect {
  import opened Basics

  datatype State = Running | NotRunning | Ephemeral | Unknown

  /** One observation; a start time is there only if it is finite, an identity only if it is not empty. */
  datatype Observation = Observation(state: State, startedAt: Option<int>, identity: Option<string>)

  const UNKNOWN := Observation(Unknown, None, None)

  datatype Restart = NoRestart | RestartFails | RestartRuns

  /** What a controller answers: when first observed, to a restart, and after one (None: reading back fails). */
  datatype Controller = Controller(first: Observation, restart: Restart, readback: Option<Observation>)

  datatype Kind = Fleet | Supervisor | Other

  datatype Consumer = Consumer(id: string, kind: Kind)

  datatype Input = Input(
    startedAt: int, consumers: seq<Consumer>, controllers: map<string, Controller>,
    liveOk: bool, restartStale: bool, fleetAdoptedAt: Option<int>)

  datatype Action = Nothing | Stopped | FreshInvocation | Restarted | RestartUnavailable

  datatype Row = Row(id: string, before: Observation, action: Action, after: Option<Observation>, verified: bool)

  datatype Report = Report(rows: seq<Row>, effectVerified: bool)

  /** The identity two instances of one kind must not share. */
  datatype Key = Key(kind: Kind, identity: string)

  function KeyOf(c: Consumer, o: Observation): Option<Key> {
    if c.kind != Other && o.state == Running && o.identity.Some? then Some(Key(c.kind, o.identity.value)) else None
  }

  predicate Distinct(input: Input) {
    forall i, j :: 0 <= i < j < |input.consumers| ==> input.consumers[i].id != input.consumers[j].id
  }

  predicate Controlled(input: Input, i: nat)
    requires i < |input.consumers|
  {
    input.consumers[i].id in input.controllers
  }

  /** Instances of both qualified kinds are observed before any restart. */
  predicate Qualified(input: Input, i: nat)
    requires i < |input.consumers|
  {
    input.consumers[i].kind != Other && Controlled(input, i)
  }

  function FirstKey(input: Input, i: nat): Option<Key>
    requires i < |input.consumers|
  {
    if Qualified(input, i) then KeyOf(input.consumers[i], input.controllers[input.consumers[i].id].first) else None
  }

  /** Another instance among the first `n` was first seen under the same identity. */
  ghost predicate SharedWithin(input: Input, i: nat, n: nat)
    requires i < n <= |input.consumers|
  {
    exists j: nat :: j < n && j != i && FirstKey(input, j) == FirstKey(input, i) && FirstKey(input, i).Some?
  }

  ghost predicate Shared(input: Input, i: nat)
    requires i < |input.consumers|
  {
    SharedWithin(input, i, |input.consumers|)
  }

  /** What a row starts from: an aliased instance counts as unknown. */
  ghost function BeforeOf(input: Input, i: nat): Observation
    requires i < |input.consumers|
  {
    if !Controlled(input, i) then UNKNOWN
    else if !Qualified(input, i) then input.controllers[input.consumers[i].id].first
    else if Shared(input, i) then UNKNOWN
    else input.controllers[input.consumers[i].id].first
  }

  function Cutoff(input: Input, c: Consumer): Option<int> {
    if c.kind == Other then Some(input.startedAt)
    else if input.fleetAdoptedAt.Some? && input.fleetAdoptedAt.value > 0 then input.fleetAdoptedAt
    else None
  }

  predicate StartedAfter(o: Observation, cutoff: int) {
    o.state == Running && o.startedAt.Some? && o.startedAt.value > cutoff
  }

  /** A restart that took: running since the cutoff, as a different process. */
  predicate Renewed(c: Consumer, before: Observation, after: Observation, cutoff: int) {
    && StartedAfter(after, cutoff)
    && if c.kind != Other then before.identity.Some? && after.identity.Some? && before.identity != after.identity
       else before.identity.None? || after.identity.None? || before.identity != after.identity
  }

  predicate Stale(c: Consumer, before: Observation, cutoff: int) {
    && before.state == Running && before.startedAt.Some? && before.startedAt.value <= cutoff
    && (c.kind != Other ==> before.identity.Some?)
  }

  /** The row of one consumer, judged by itself. */
  function Judged(input: Input, c: Consumer, before: Observation): Row {
    if c.id !in input.controllers then
      Row(c.id, UNKNOWN, RestartUnavailable, None, false)
    else
      var controller, cutoff := input.controllers[c.id], Cutoff(input, c);
      if cutoff.None? then Row(c.id, before, Nothing, None, false)
      else if before.state == Ephemeral then Row(c.id, before, FreshInvocation, None, true)
      else if before.state == NotRunning then Row(c.id, before, Stopped, None, true)
      else if StartedAfter(before, cutoff.value) && (c.kind != Other ==> before.identity.Some?) then Row(c.id, before, Nothing, None, true)
      else if !Stale(c, before, cutoff.value) then Row(c.id, before, Nothing, None, false)
      else if !input.restartStale || controller.restart == NoRestart then Row(c.id, before, RestartUnavailable, None, false)
      else if controller.restart == RestartFails || controller.readback.None? then Row(c.id, before, Restarted, None, false)
      else Row(c.id, before, Restarted, controller.readback, Renewed(c, before, controller.readback.value, cutoff.value))
  }

  ghost function OwnRow(input: Input, i: nat): Row
    requires i < |input.consumers|
  {
    Judged(input, input.consumers[i], BeforeOf(input, i))
  }

  function FinalObservation(r: Row): Observation {
    r.after.GetOr(r.before)
  }

  function FinalKey(c: Consumer, r: Row): Option<Key> {
    KeyOf(c, FinalObservation(r))
  }

  ghost function EndKey(input: Input, i: nat): Option<Key>
    requires i < |input.consumers|
  {
    FinalKey(input.consumers[i], OwnRow(input, i))
  }

  /** Two rows among the first `n` end up at the same process. */
  ghost predicate AliasedWithin(input: Input, i: nat, n: nat)
    requires i < n <= |input.consumers|
  {
    exists j: nat :: j < n && j != i && EndKey(input, j) == EndKey(input, i) && EndKey(input, i).Some?
  }

  ghost predicate RowVerified(input: Input, i: nat)
    requires i < |input.consumers|
  {
    OwnRow(input, i).verified && !AliasedWithin(input, i, |input.consumers|)
  }

  /** Of the first `n` consumers, the instances observed up front, the aliased ones as unknown. */
  ghost predicate SurveyedRows(input: Input, n: nat, initial: map<string, Observation>)
    requires n <= |input.consumers|
  {
    && (forall i :: 0 <= i < |input.consumers| ==>
                      (input.consumers[i].id in initial <==> i < n && Qualified(input, i)))
    && (forall i :: 0 <= i < n && Qualified(input, i) ==>
                      initial[input.consumers[i].id] ==
                      if SharedWithin(input, i, n) then UNKNOWN else input.controllers[input.consumers[i].id].first)
  }

  /** And who was first seen under each identity. */
  ghost predicate Surveyed(input: Input, n: nat, initial: map<string, Observation>, owners: map<Key, string>)
    requires n <= |input.consumers|
  {
    && SurveyedRows(input, n, initial)
    && (forall i :: 0 <= i < n && FirstKey(input, i).Some? ==> FirstKey(input, i).value in owners)
    && (forall k :: k in owners ==> HasOwner(input, n, k, owners[k]))
  }

  /** One of the first `n` instances was first seen under this identity. */
  ghost predicate HasOwner(input: Input, n: nat, k: Key, id: string)
    requires n <= |input.consumers|
  {
    exists i: nat :: i < n && input.consumers[i].id == id && FirstKey(input, i) == Some(k)
  }

  method Survey(input: Input) returns (initial: map<string, Observation>)
    requires Distinct(input)
    ensures exists owners :: Surveyed(input, |input.consumers|, initial, owners)
  {
    hide Surveyed;
    initial := map[];
    var owners: map<Key, string> := map[];
    var n := 0;
    SurveyStart(input);
    while n < |input.consumers|
      invariant 0 <= n <= |input.consumers|
      invariant Surveyed(input, n, initial, owners)
    {
      var c := input.consumers[n];
      ghost var was, held := initial, owners;
      if c.kind != Other && c.id in input.controllers {
        var before := input.controllers[c.id].first;
        initial := initial[c.id := before];
        var key := KeyOf(c, before);
        if key.Some? {
          if key.value in owners {
            initial := initial[owners[key.value] := UNKNOWN][c.id := UNKNOWN];
          } else {
            owners := owners[key.value := c.id];
          }
        }
      }
      SurveyStep(input, n, was, held, initial, owners);
      n := n + 1;
    }
  }

  lemma SurveyStart(input: Input)
    ensures Surveyed(input, 0, map[], map[])
  {
  }

  lemma SurveyStep(
    input: Input, n: nat, was: map<string, Observation>, held: map<Key, string>,
    initial: map<string, Observation>, owners: map<Key, string>)
    requires Distinct(input) && n < |input.consumers| && Surveyed(input, n, was, held)
    requires var c, key := input.consumers[n], FirstKey(input, n);
             if !Qualified(input, n) then initial == was && owners == held
             else
               var seen := was[c.id := input.controllers[c.id].first];
               if key.None? then initial == seen && owners == held
               else if key.value in held then initial == seen[held[key.value] := UNKNOWN][c.id := UNKNOWN] && owners == held
               else initial == seen && owners == held[key.value := c.id]
    ensures Surveyed(input, n + 1, initial, owners)
  {
    var c, key := input.consumers[n], FirstKey(input, n);
    hide FirstKey, SharedWithin, HasOwner, SurveyedRows, Qualified;
    SharedSteps(input, n, was, held);
    OwnersStep(input, n, was, held, owners);
    KeyNeedsQualified(input, n);
    if !Qualified(input, n) {
      RowsStep(input, n, was, initial, None);
    } else if key.Some? && key.value in held {
      RowsStep(input, n, was, initial, Some(held[key.value]));
    } else {
      RowsStep(input, n, was, initial, None);
    }
  }

  /** The surveyed rows with one more consumer; `marked` is whose alias it turned out to be. */
  lemma RowsStep(input: Input, n: nat, was: map<string, Observation>, initial: map<string, Observation>, marked: Option<string>)
    requires Distinct(input) && n < |input.consumers| && SurveyedRows(input, n, was)
    requires if !Qualified(input, n) then initial == was && marked.None?
             else
               var c := input.consumers[n];
               var seen := was[c.id := input.controllers[c.id].first];
               initial == if marked.Some? then seen[marked.value := UNKNOWN][c.id := UNKNOWN] else seen
    requires marked.Some? ==> marked.value != input.consumers[n].id
                              && exists i: nat :: i < n && input.consumers[i].id == marked.value && Qualified(input, i)
    requires forall i: nat :: i < n ==>
               (SharedWithin(input, i, n + 1) <==> SharedWithin(input, i, n) || Some(input.consumers[i].id) == marked)
    requires SharedWithin(input, n, n + 1) <==> marked.Some?
    ensures SurveyedRows(input, n + 1, initial)
  {
    hide SharedWithin;
    var c := input.consumers[n];
    forall i | 0 <= i < |input.consumers|
      ensures input.consumers[i].id in initial <==> i < n + 1 && Qualified(input, i)
    {
      assert i != n ==> input.consumers[i].id != c.id;
      if marked.Some? {
        var o: nat :| o < n && input.consumers[o].id == marked.value && Qualified(input, o);
        assert i != o ==> input.consumers[i].id != marked.value;
      }
    }
    forall i | 0 <= i < n + 1 && Qualified(input, i)
      ensures initial[input.consumers[i].id] ==
              if SharedWithin(input, i, n + 1) then UNKNOWN else input.controllers[input.consumers[i].id].first
    {
      assert i != n ==> input.consumers[i].id != c.id;
    }
  }

  lemma OwnersStep(
    input: Input, n: nat, was: map<string, Observation>, held: map<Key, string>, owners: map<Key, string>)
    requires n < |input.consumers| && Surveyed(input, n, was, held)
    requires owners == held
             || (FirstKey(input, n).Some? && owners == held[FirstKey(input, n).value := input.consumers[n].id])
    ensures forall k :: k in owners ==> HasOwner(input, n + 1, k, owners[k])
  {
    hide FirstKey, SharedWithin;
    forall k | k in owners ensures HasOwner(input, n + 1, k, owners[k]) {
      if k in held && owners[k] == held[k] {
        var i: nat :| i < n && input.consumers[i].id == held[k] && FirstKey(input, i) == Some(k);
        assert i < n + 1;
      } else {
        assert input.consumers[n].id == owners[k];
      }
    }
  }

  /** A new instance shares its identity with those seen under it before: the first one is remembered, the others are marked. */
  lemma SharedSteps(input: Input, n: nat, was: map<string, Observation>, held: map<Key, string>)
    requires Distinct(input) && n < |input.consumers| && Surveyed(input, n, was, held)
    ensures var key := FirstKey(input, n);
            && (forall i: nat :: i < n ==>
                  (SharedWithin(input, i, n + 1) <==>
                   SharedWithin(input, i, n) || (key.Some? && key.value in held && input.consumers[i].id == held[key.value])))
            && (SharedWithin(input, n, n + 1) <==> key.Some? && key.value in held)
            && (key.Some? && key.value in held ==> held[key.value] != input.consumers[n].id)
            && (key.Some? && key.value in held ==>
                  exists i: nat :: i < n && input.consumers[i].id == held[key.value] && Qualified(input, i))
  {
    hide FirstKey;
    var key := FirstKey(input, n);
    if key.Some? && key.value in held {
      assert HasOwner(input, n, key.value, held[key.value]);
      var o: nat :| o < n && input.consumers[o].id == held[key.value] && FirstKey(input, o) == key;
      assert o < n + 1 && o != n && FirstKey(input, o) == FirstKey(input, n);
      KeyNeedsQualified(input, o);
      forall i: nat | i < n
        ensures SharedWithin(input, i, n + 1) <==> SharedWithin(input, i, n) || input.consumers[i].id == held[key.value]
      {
        SharedGrows(input, i, n);
        if i != o && FirstKey(input, i) == key {
          assert o < n && o != i && FirstKey(input, o) == FirstKey(input, i);
        }
      }
    } else {
      forall i: nat | i < n ensures SharedWithin(input, i, n + 1) <==> SharedWithin(input, i, n) {
        SharedGrows(input, i, n);
      }
    }
  }

  lemma KeyNeedsQualified(input: Input, i: nat)
    requires i < |input.consumers|
    ensures FirstKey(input, i).Some? ==> Qualified(input, i)
  {
  }

  lemma SharedGrows(input: Input, i: nat, n: nat)
    requires i < n < |input.consumers|
    ensures SharedWithin(input, i, n + 1) <==>
            SharedWithin(input, i, n) || (FirstKey(input, n).Some? && FirstKey(input, i) == FirstKey(input, n))
  {
    hide FirstKey;
    if SharedWithin(input, i, n) {
      var j: nat :| j < n && j != i && FirstKey(input, j) == FirstKey(input, i) && FirstKey(input, i).Some?;
      assert j < n + 1;
    }
    if FirstKey(input, n).Some? && FirstKey(input, i) == FirstKey(input, n) {
      assert n < n + 1 && n != i;
    }
  }

  // ----- the second pass: a row for every consumer -----

  method JudgeConsumer(input: Input, c: Consumer, before: Observation) returns (row: Row, restarted: bool)
    requires c.id in input.controllers
    ensures row == Judged(input, c, before) && restarted == (row.action == Restarted)
  {
    restarted := false;
    var controller := input.controllers[c.id];
    var late := c.kind != Other;
    var cutoff := if late then input.fleetAdoptedAt else Some(input.startedAt);
    if late && (cutoff == None || cutoff.value <= 0) {
      return Row(c.id, before, Nothing, None, false), restarted;
    }
    if before.state == Ephemeral {
      return Row(c.id, before, FreshInvocation, None, true), restarted;
    }
    if before.state == NotRunning {
      return Row(c.id, before, Stopped, None, true), restarted;
    }
    if before.state != Running || before.startedAt == None || (late && before.identity == None) {
      return Row(c.id, before, Nothing, None, false), restarted;
    }
    if before.startedAt.value > cutoff.value {
      return Row(c.id, before, Nothing, None, true), restarted;
    }
    if !input.restartStale || controller.restart == NoRestart {
      return Row(c.id, before, RestartUnavailable, None, false), restarted;
    }
    restarted := true;
    if controller.restart == RestartFails || controller.readback == None {
      return Row(c.id, before, Restarted, None, false), restarted;
    }
    var after := controller.readback.value;
    var renewed := after.state == Running && after.startedAt.Some? && after.startedAt.value > cutoff.value
      && (if late then before.identity.Some? && after.identity.Some? && before.identity != after.identity
          else before.identity == None || after.identity == None || before.identity != after.identity);
    row := Row(c.id, before, Restarted, Some(after), renewed);
  }

  ghost predicate AllVerified(rows: seq<Row>) {
    forall i :: 0 <= i < |rows| ==> rows[i].verified
  }

  ghost predicate RestartsAre(input: Input, n: nat, restarts: seq<string>)
    requires n <= |input.consumers|
  {
    forall id :: id in restarts <==> RestartedWithin(input, n, id)
  }

  ghost predicate RestartedWithin(input: Input, n: nat, id: string)
    requires n <= |input.consumers|
  {
    exists i: nat :: i < n && input.consumers[i].id == id && OwnRow(input, i).action == Restarted
  }

  /** The row of the consumer at hand, from what was observed of it up front or is observed now. */
  method JudgeNext(input: Input, initial: map<string, Observation>, n: nat) returns (row: Row, restarted: bool)
    requires n < |input.consumers| && exists owners :: Surveyed(input, |input.consumers|, initial, owners)
    ensures row == OwnRow(input, n) && restarted == (row.action == Restarted)
  {
    hide Judged, BeforeOf, OwnRow, Surveyed;
    var c := input.consumers[n];
    if c.id in input.controllers {
      BeforeIsSurveyed(input, n, initial);
      var before := if c.id in initial then initial[c.id] else input.controllers[c.id].first;
      row, restarted := JudgeConsumer(input, c, before);
      OwnRowIs(input, n);
    } else {
      UncontrolledRow(input, n);
      row, restarted := Row(c.id, UNKNOWN, RestartUnavailable, None, false), false;
    }
  }

  method JudgeAll(input: Input, initial: map<string, Observation>)
    returns (rows: seq<Row>, failures: seq<string>, restarts: seq<string>)
    requires Distinct(input) && exists owners :: Surveyed(input, |input.consumers|, initial, owners)
    ensures |rows| == |input.consumers| && forall i :: 0 <= i < |rows| ==> rows[i] == OwnRow(input, i)
    ensures failures == [] <==> AllVerified(rows)
    ensures RestartsAre(input, |input.consumers|, restarts)
  {
    rows, failures, restarts := [], [], [];
    assert RestartsAre(input, 0, []) && AllVerified([]);
    hide Judged, RestartsAre, AllVerified, BeforeOf, OwnRow, Surveyed;
    while |rows| < |input.consumers|
      invariant |rows| <= |input.consumers|
      invariant forall i :: 0 <= i < |rows| ==> rows[i] == OwnRow(input, i)
      invariant failures == [] <==> AllVerified(rows)
      invariant RestartsAre(input, |rows|, restarts)
    {
      var n := |rows|;
      var c := input.consumers[n];
      var row, restarted := JudgeNext(input, initial, n);
      RestartsStep(input, n, restarts, restarted);
      AppendVerified(rows, row);
      if !row.verified {
        failures := failures + [c.id];
      }
      if restarted {
        restarts := restarts + [c.id];
      }
      rows := rows + [row];
    }
  }

  lemma OwnRowIs(input: Input, i: nat)
    requires i < |input.consumers|
    ensures OwnRow(input, i) == Judged(input, input.consumers[i], BeforeOf(input, i))
  {
  }

  lemma AppendVerified(rows: seq<Row>, row: Row)
    ensures AllVerified(rows + [row]) <==> AllVerified(rows) && row.verified
  {
    var all := rows + [row];
    assert all[|rows|] == row;
    assert forall i :: 0 <= i < |rows| ==> all[i] == rows[i];
    if AllVerified(all) {
      forall i | 0 <= i < |rows| ensures rows[i].verified {
        assert all[i].verified;
      }
    }
  }

  lemma UncontrolledRow(input: Input, i: nat)
    requires i < |input.consumers| && !Controlled(input, i)
    ensures OwnRow(input, i) == Row(input.consumers[i].id, UNKNOWN, RestartUnavailable, None, false)
  {
  }

  lemma BeforeIsSurveyed(input: Input, n: nat, initial: map<string, Observation>)
    requires n < |input.consumers| && Controlled(input, n)
    requires exists owners :: Surveyed(input, |input.consumers|, initial, owners)
    ensures var id := input.consumers[n].id;
            BeforeOf(input, n) == if id in initial then initial[id] else input.controllers[id].first
  {
    var owners :| Surveyed(input, |input.consumers|, initial, owners);
    hide SharedWithin, FirstKey;
  }

  lemma RestartsStep(input: Input, n: nat, restarts: seq<string>, restarted: bool)
    requires n < |input.consumers| && RestartsAre(input, n, restarts)
    requires restarted == (OwnRow(input, n).action == Restarted)
    ensures RestartsAre(input, n + 1, if restarted then restarts + [input.consumers[n].id] else restarts)
  {
    hide OwnRow;
    forall id ensures RestartedWithin(input, n + 1, id) <==>
                      RestartedWithin(input, n, id) || (restarted && id == input.consumers[n].id)
    {
      if RestartedWithin(input, n, id) {
        var i: nat :| i < n && input.consumers[i].id == id && OwnRow(input, i).action == Restarted;
        assert i < n + 1;
      }
      if restarted && id == input.consumers[n].id {
        assert n < n + 1;
      }
    }
  }

  // ----- the third pass: aliases after control -----

  /** The rows once the first `n` have been compared, and where each identity was seen first. */
  ghost predicate Compared(input: Input, n: nat, rows: seq<Row>, owners: map<Key, nat>)
    requires n <= |input.consumers|
  {
    && |rows| == |input.consumers|
    && (forall i: nat :: i < |rows| ==>
                           rows[i] == OwnRow(input, i).(verified := OwnRow(input, i).verified && (i < n ==> !AliasedWithin(input, i, n))))
    && (forall i: nat :: i < n && EndKey(input, i).Some? ==> EndKey(input, i).value in owners)
    && (forall k :: k in owners ==> owners[k] < n && EndKey(input, owners[k]) == Some(k))
  }

  method CompareAll(input: Input, start: seq<Row>, known: seq<string>) returns (rows: seq<Row>, failures: seq<string>)
    requires |start| == |input.consumers| && forall i :: 0 <= i < |start| ==> start[i] == OwnRow(input, i)
    requires known == [] <==> AllVerified(start)
    ensures |rows| == |input.consumers|
    ensures forall i :: 0 <= i < |rows| ==> rows[i] == OwnRow(input, i).(verified := RowVerified(input, i))
    ensures failures == [] <==> AllVerified(rows)
  {
    hide Judged, OwnRow, AliasedWithin;
    rows, failures := start, known;
    var owners: map<Key, nat> := map[];
    var n := 0;
    while n < |rows|
      invariant 0 <= n <= |input.consumers| && Compared(input, n, rows, owners)
      invariant failures == [] <==> AllVerified(rows)
    {
      ghost var was, held := rows, owners;
      var row := rows[n];
      var key := FinalKey(input.consumers[n], row);
      if key.Some? {
        if key.value in owners {
          var previous := owners[key.value];
          failures := failures + [rows[previous].id, row.id];
          rows := rows[previous := rows[previous].(verified := false)];
          rows := rows[n := rows[n].(verified := false)];
          assert !rows[n].verified;
        } else {
          owners := owners[key.value := n];
        }
      }
      CompareStep(input, n, was, held, rows, owners);
      n := n + 1;
    }
  }

  lemma CompareStep(input: Input, n: nat, was: seq<Row>, held: map<Key, nat>, rows: seq<Row>, owners: map<Key, nat>)
    requires n < |input.consumers| && Compared(input, n, was, held)
    requires var key := FinalKey(input.consumers[n], was[n]);
             if key.None? then rows == was && owners == held
             else if key.value in held then
               var previous := held[key.value];
               && owners == held
               && rows == was[previous := was[previous].(verified := false)][n := was[n].(verified := false)]
             else rows == was && owners == held[key.value := n]
    ensures Compared(input, n + 1, rows, owners)
  {
    hide OwnRow, KeyOf;
    var key := EndKey(input, n);
    assert FinalKey(input.consumers[n], was[n]) == key;
    AliasSteps(input, n, was, held);
    hide EndKey, AliasedWithin, FinalKey;
    forall i: nat | i < |rows|
      ensures rows[i] == OwnRow(input, i).(verified := OwnRow(input, i).verified && (i < n + 1 ==> !AliasedWithin(input, i, n + 1)))
    {
      assert was[i] == OwnRow(input, i).(verified := OwnRow(input, i).verified && (i < n ==> !AliasedWithin(input, i, n)));
    }
  }

  /** A row ends up where others did before: the first of them is remembered, the others are marked already. */
  lemma AliasSteps(input: Input, n: nat, rows: seq<Row>, owners: map<Key, nat>)
    requires n < |input.consumers| && Compared(input, n, rows, owners)
    ensures var key := EndKey(input, n);
            && (forall i: nat :: i < n ==>
                  (AliasedWithin(input, i, n + 1) <==>
                   AliasedWithin(input, i, n) || (key.Some? && key.value in owners && i == owners[key.value])))
            && (AliasedWithin(input, n, n + 1) <==> key.Some? && key.value in owners)
  {
    hide OwnRow, EndKey, AliasedWithin;
    var key := EndKey(input, n);
    forall i: nat | i < n
      ensures AliasedWithin(input, i, n + 1) <==>
              AliasedWithin(input, i, n) || (key.Some? && key.value in owners && i == owners[key.value])
    {
      AliasStepsAt(input, n, rows, owners, i);
    }
    AliasStepLast(input, n, rows, owners);
  }

  lemma AliasStepLast(input: Input, n: nat, rows: seq<Row>, owners: map<Key, nat>)
    requires n < |input.consumers| && Compared(input, n, rows, owners)
    ensures AliasedWithin(input, n, n + 1) <==> EndKey(input, n).Some? && EndKey(input, n).value in owners
  {
    hide OwnRow, EndKey, AliasedWithin;
    var key := EndKey(input, n);
    if key.Some? && key.value in owners {
      var o := owners[key.value];
      assert EndKey(input, o) == key;
      AliasWitness(input, n, o, n + 1);
    } else if AliasedWithin(input, n, n + 1) {
      var j := AliasOther(input, n, n + 1);
    }
  }

  lemma AliasStepsAt(input: Input, n: nat, rows: seq<Row>, owners: map<Key, nat>, i: nat)
    requires i < n < |input.consumers| && Compared(input, n, rows, owners)
    ensures var key := EndKey(input, n);
            AliasedWithin(input, i, n + 1) <==>
            AliasedWithin(input, i, n) || (key.Some? && key.value in owners && i == owners[key.value])
  {
    hide OwnRow, EndKey, AliasedWithin;
    var key := EndKey(input, n);
    AliasGrows(input, i, n);
    if key.Some? && EndKey(input, i) == key && i != owners[key.value] {
      AliasWitness(input, i, owners[key.value], n);
    }
  }

  lemma AliasWitness(input: Input, i: nat, j: nat, n: nat)
    requires i < n <= |input.consumers| && j < n && i != j && EndKey(input, j) == EndKey(input, i) && EndKey(input, i).Some?
    ensures AliasedWithin(input, i, n)
  {
    hide EndKey;
  }

  lemma AliasOther(input: Input, i: nat, n: nat) returns (j: nat)
    requires i < n <= |input.consumers| && AliasedWithin(input, i, n)
    ensures j < n && j != i && EndKey(input, j) == EndKey(input, i) && EndKey(input, i).Some?
  {
    hide EndKey;
    j :| j < n && j != i && EndKey(input, j) == EndKey(input, i);
  }

  lemma AliasGrows(input: Input, i: nat, n: nat)
    requires i < n < |input.consumers|
    ensures AliasedWithin(input, i, n + 1) <==>
            AliasedWithin(input, i, n) || (EndKey(input, n).Some? && EndKey(input, i) == EndKey(input, n))
  {
    hide EndKey;
    if AliasedWithin(input, i, n) {
      var j: nat :| j < n && j != i && EndKey(input, j) == EndKey(input, i);
      assert j < n + 1;
    }
    if EndKey(input, n).Some? && EndKey(input, i) == EndKey(input, n) {
      assert n < n + 1 && n != i;
    }
  }

  // ----- the verifier -----

  /** The effect is verified exactly if the live check passes and every row holds by itself and aliases no other. */
  method VerifyAdoptionEffect(input: Input) returns (report: Report, restarts: seq<string>)
    requires Distinct(input)
    ensures |report.rows| == |input.consumers|
    ensures forall i :: 0 <= i < |report.rows| ==> report.rows[i] == OwnRow(input, i).(verified := RowVerified(input, i))
    ensures report.effectVerified <==> input.liveOk && AllVerified(report.rows)
    ensures RestartsAre(input, |input.consumers|, restarts)
  {
    hide OwnRow, AliasedWithin;
    var initial := Survey(input);
    var rows, failures;
    rows, failures, restarts := JudgeAll(input, initial);
    rows, failures := CompareAll(input, rows, failures);
    if !input.liveOk {
      failures := failures + ["live_check"];
    }
    report := Report(rows, failures == []);
  }

  // ----- what a verified effect means -----

  /** Every verified row that is running started strictly after its cutoff. */
  lemma VerifiedIsFresh(input: Input, i: nat)
    requires i < |input.consumers| && RowVerified(input, i)
    ensures var c, o := input.consumers[i], FinalObservation(OwnRow(input, i));
            o.state == Running ==>
              && Cutoff(input, c).Some? && StartedAfter(o, Cutoff(input, c).value)
              && (c.kind != Other ==> o.identity.Some?)
  {
  }

  /** No two verified rows of one project-bound kind stand for the same process. */
  lemma VerifiedAreDistinct(input: Input, i: nat, j: nat)
    requires i < |input.consumers| && j < |input.consumers| && i != j && RowVerified(input, i) && RowVerified(input, j)
    requires input.consumers[i].kind == input.consumers[j].kind != Other
    requires FinalObservation(OwnRow(input, i)).state == Running && FinalObservation(OwnRow(input, j)).state == Running
    ensures FinalObservation(OwnRow(input, i)).identity != FinalObservation(OwnRow(input, j)).identity
  {
    VerifiedIsFresh(input, i);
    VerifiedIsFresh(input, j);
    NotAliased(input, i, j);
    hide OwnRow;
  }

  lemma NotAliased(input: Input, i: nat, j: nat)
    requires i < |input.consumers| && j < |input.consumers| && i != j && RowVerified(input, i)
    ensures EndKey(input, i).Some? ==> EndKey(input, j) != EndKey(input, i)
  {
    hide EndKey;
    assert !AliasedWithin(input, i, |input.consumers|);
  }

  /** A restart is called only on a stale instance whose first identity nobody else of its kind had. */
  lemma RestartNeverShared(input: Input, i: nat, j: nat)
    requires i < |input.consumers| && j < |input.consumers| && i != j && OwnRow(input, i).action == Restarted
    requires Qualified(input, i) && Qualified(input, j) && input.consumers[i].kind == input.consumers[j].kind
    ensures var mine, other := input.controllers[input.consumers[i].id].first, input.controllers[input.consumers[j].id].first;
            other.state == Running ==> other.identity != mine.identity
  {
    hide StartedAfter, Renewed;
    assert BeforeOf(input, i) != UNKNOWN;
    assert !Shared(input, i);
    assert FirstKey(input, i).Some?;
    NotShared(input, i, j);
  }

  lemma NotShared(input: Input, i: nat, j: nat)
    requires i < |input.consumers| && j < |input.consumers| && i != j && !Shared(input, i)
    ensures FirstKey(input, i).Some? ==> FirstKey(input, j) != FirstKey(input, i)
  {
    hide FirstKey;
  }

  /** A project-bound row that was restarted and verified runs as another process than before. */
  lemma RestartIsAnother(input: Input, i: nat)
    requires i < |input.consumers| && RowVerified(input, i) && OwnRow(input, i).action == Restarted
    ensures var r := OwnRow(input, i);
            && r.after.Some? && r.before.state == Running && r.before.startedAt.value <= Cutoff(input, input.consumers[i]).value
            && (input.consumers[i].kind != Other ==> r.before.identity.Some? && r.after.value.identity.Some?
                                                     && r.before.identity != r.after.value.identity)
  {
  }

  /** What the controller of a consumer first said, unless another instance of its kind was seen under the same identity. */
  ghost predicate FirstSeen(input: Input, i: nat, o: Observation)
    requires i < |input.consumers|
  {
    var c := input.consumers[i];
    && c.id in input.controllers && o == input.controllers[c.id].first
    && forall j: nat :: j < |input.consumers| && j != i ==> !SameInstance(input, i, j)
  }

  /** Both are of one project-bound kind, controlled, and were first seen running under one identity. */
  predicate SameInstance(input: Input, i: nat, j: nat)
    requires i < |input.consumers| && j < |input.consumers|
  {
    var c, d := input.consumers[i], input.consumers[j];
    && c.kind == d.kind != Other && c.id in input.controllers && d.id in input.controllers
    && input.controllers[c.id].first.state == Running && input.controllers[d.id].first.state == Running
    && input.controllers[c.id].first.identity.Some?
    && input.controllers[d.id].first.identity == input.controllers[c.id].first.identity
  }

  /** The instant a running instance has to have started after: of adoption for the fleet's own, of the check for others. */
  predicate Since(input: Input, c: Consumer, at: int) {
    if c.kind == Other then at == input.startedAt else input.fleetAdoptedAt == Some(at) && at > 0
  }

  /** It runs, known by an identity where the kind has one, and it started at a known time. */
  predicate KnownRunning(c: Consumer, o: Observation) {
    o.state == Running && o.startedAt.Some? && (c.kind == Other || o.identity.Some?)
  }

  /** A consumer to be restarted: restarting is asked for and possible, and its one instance runs since before the instant. */
  ghost predicate ToRestart(input: Input, i: nat)
    requires i < |input.consumers|
  {
    var c := input.consumers[i];
    && input.restartStale && c.id in input.controllers && input.controllers[c.id].restart != NoRestart
    && exists o, at :: FirstSeen(input, i, o) && Since(input, c, at) && KnownRunning(c, o) && o.startedAt.value <= at
  }

  /** The restart ran, and what was read back after it runs since the instant, as another process than before. */
  predicate TookEffect(input: Input, i: nat, at: int)
    requires i < |input.consumers| && Controlled(input, i)
  {
    var c := input.consumers[i];
    var controller := input.controllers[c.id];
    && controller.restart == RestartRuns && controller.readback.Some?
    && var o := controller.readback.value;
       && KnownRunning(c, o) && o.startedAt.value > at
       && (controller.first.identity.Some? ==> o.identity != controller.first.identity)
  }

  lemma SharedIsSame(input: Input, i: nat)
    requires i < |input.consumers|
    ensures Shared(input, i) <==> exists j: nat :: j < |input.consumers| && j != i && SameInstance(input, i, j)
  {
    forall j: nat | j < |input.consumers|
      ensures SameInstance(input, i, j) <==> FirstKey(input, j) == FirstKey(input, i) && FirstKey(input, i).Some?
    {
    }
    hide FirstKey, SameInstance;
    if Shared(input, i) {
      var j: nat :| j < |input.consumers| && j != i && FirstKey(input, j) == FirstKey(input, i);
      assert SameInstance(input, i, j);
    }
    if j: nat :| j < |input.consumers| && j != i && SameInstance(input, i, j) {
      assert FirstKey(input, j) == FirstKey(input, i);
    }
  }

  lemma BeforeIs(input: Input, i: nat)
    requires i < |input.consumers|
    ensures forall o :: FirstSeen(input, i, o) ==> BeforeOf(input, i) == o
    ensures BeforeOf(input, i).state != Unknown ==> FirstSeen(input, i, BeforeOf(input, i))
  {
    SharedIsSame(input, i);
    hide Shared;
  }

  /** A consumer is restarted exactly if restarting is asked for and possible, and its one instance is stale. */
  lemma RestartedExactly(input: Input, i: nat)
    requires i < |input.consumers|
    ensures OwnRow(input, i).action == Restarted <==> ToRestart(input, i)
  {
    hide FirstSeen, BeforeOf;
    BeforeIs(input, i);
    var c, before := input.consumers[i], BeforeOf(input, i);
    if ToRestart(input, i) {
      var o, at :| FirstSeen(input, i, o) && Since(input, c, at) && KnownRunning(c, o) && o.startedAt.value <= at;
      assert before == o && Cutoff(input, c) == Some(at);
    }
    if OwnRow(input, i).action == Restarted {
      assert FirstSeen(input, i, before) && Since(input, c, Cutoff(input, c).value) && KnownRunning(c, before);
    }
  }

  /** The one instance does not run on, or runs since the instant. */
  ghost predicate HoldsAsSeen(input: Input, i: nat, at: int)
    requires i < |input.consumers|
  {
    exists o :: FirstSeen(input, i, o)
                && (o.state == NotRunning || o.state == Ephemeral
                    || (KnownRunning(input.consumers[i], o) && o.startedAt.value > at))
  }

  /** A row holds by itself exactly if its instance does not run on, or runs since the instant, or was restarted to effect. */
  lemma OwnVerifiedExactly(input: Input, i: nat)
    requires i < |input.consumers|
    ensures OwnRow(input, i).verified <==>
            Controlled(input, i) && exists at :: Since(input, input.consumers[i], at)
                                                 && (HoldsAsSeen(input, i, at) || (ToRestart(input, i) && TookEffect(input, i, at)))
  {
    hide OwnRow;
    var c := input.consumers[i];
    forall at ensures Since(input, c, at) <==> Cutoff(input, c) == Some(at) {
    }
    if !Controlled(input, i) {
      UncontrolledRow(input, i);
    } else if Cutoff(input, c).None? {
      OwnRowIs(input, i);
    } else {
      VerifiedSince(input, i, Cutoff(input, c).value);
    }
  }

  lemma VerifiedSince(input: Input, i: nat, at: int)
    requires i < |input.consumers| && Controlled(input, i) && Since(input, input.consumers[i], at)
    ensures OwnRow(input, i).verified <==> HoldsAsSeen(input, i, at) || (ToRestart(input, i) && TookEffect(input, i, at))
  {
    hide FirstSeen, BeforeOf, ToRestart;
    BeforeIs(input, i);
    RestartedExactly(input, i);
    var before := BeforeOf(input, i);
    assert before.state != Unknown ==> FirstSeen(input, i, before);
    if OwnRow(input, i).action == Restarted {
      assert before == input.controllers[input.consumers[i].id].first by { SeenFirst(input, i, before); }
    }
  }

  lemma SeenFirst(input: Input, i: nat, o: Observation)
    requires i < |input.consumers| && Controlled(input, i) && FirstSeen(input, i, o)
    ensures o == input.controllers[input.consumers[i].id].first
  {
  }

  /** The one instance runs since before the instant. */
  ghost predicate SeenStale(input: Input, i: nat)
    requires i < |input.consumers|
  {
    var c := input.consumers[i];
    exists o, at :: FirstSeen(input, i, o) && Since(input, c, at) && KnownRunning(c, o) && o.startedAt.value <= at
  }

  ghost predicate SeenIn(input: Input, i: nat, state: State)
    requires i < |input.consumers|
  {
    exists o, at :: FirstSeen(input, i, o) && Since(input, input.consumers[i], at) && o.state == state
  }

  /** What a row says was done, and what it is judged from. */
  lemma ActionExactly(input: Input, i: nat)
    requires i < |input.consumers|
    ensures var r, c := OwnRow(input, i), input.consumers[i];
            && r.id == c.id
            && (r.before.state != Unknown ==> FirstSeen(input, i, r.before))
            && (r.action == Stopped <==> SeenIn(input, i, NotRunning))
            && (r.action == FreshInvocation <==> SeenIn(input, i, Ephemeral))
            && (r.action == RestartUnavailable <==>
                  !Controlled(input, i)
                  || (SeenStale(input, i) && (!input.restartStale || input.controllers[c.id].restart == NoRestart)))
            && (r.after.Some? ==> r.action == Restarted && r.after == input.controllers[c.id].readback)
  {
    hide FirstSeen, BeforeOf, ToRestart;
    BeforeIs(input, i);
    var c, before := input.consumers[i], BeforeOf(input, i);
    forall at ensures Since(input, c, at) <==> Cutoff(input, c) == Some(at) {
    }
    if Controlled(input, i) && Cutoff(input, c).Some? {
      SeenSince(input, i, Cutoff(input, c).value);
    } else if !Controlled(input, i) {
      Unseen(input, i);
    }
  }

  lemma Unseen(input: Input, i: nat)
    requires i < |input.consumers| && !Controlled(input, i)
    ensures forall o :: !FirstSeen(input, i, o)
  {
  }

  lemma SeenSince(input: Input, i: nat, at: int)
    requires i < |input.consumers| && Controlled(input, i) && Since(input, input.consumers[i], at)
    ensures var before, c := BeforeOf(input, i), input.consumers[i];
            && (SeenIn(input, i, NotRunning) <==> before.state == NotRunning)
            && (SeenIn(input, i, Ephemeral) <==> before.state == Ephemeral)
            && (SeenStale(input, i) <==> KnownRunning(c, before) && before.startedAt.value <= at)
  {
    hide FirstSeen, BeforeOf;
    BeforeIs(input, i);
    var before := BeforeOf(input, i);
    assert before.state != Unknown ==> FirstSeen(input, i, before);
  }
}
