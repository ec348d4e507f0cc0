/**
 What the upkeep of a tick leaves in the ledger, message by message: which claim survives and under which key,
 and which entries go.
 */
module DeliveryUpkeep {
  import opened Basics
  import opened Delivery

  /** A key that names a message holds an episode of that message. */
  ghost predicate Keyed(eps: Ledger) {
    forall k :: k in eps && KeyMessage(k).Some? ==> eps[k].messageId == KeyMessage(k).value
  }

  /** A confirmed claim outranks one whose pointer may still be visible, and both outrank the rest. */
  predicate Outranks(a: Phase, b: Phase) {
    || (a == Confirmed && b != Confirmed)
    || (a == PointerVisible && (b == Claimed || b == Refused))
  }

  lemma OutranksByRank(a: Phase, b: Phase)
    ensures Outranks(a, b) <==> Rank(a) > Rank(b)
  {
  }

  /** No entry of the message outranks `e`; one under the key itself wins a tie. */
  ghost predicate Strongest(eps: Ledger, id: string, key: string, e: Episode) {
    && (exists k :: k in eps && eps[k].messageId == id && eps[k] == e)
    && (forall k :: k in eps && eps[k].messageId == id ==> !Outranks(eps[k].phase, e.phase))
    && (key in eps && !Outranks(e.phase, eps[key].phase) ==> e == eps[key])
  }

  /** All the message had is now one entry, under the key, and it is the strongest. */
  ghost predicate MovedTo(eps: Ledger, l: Ledger, id: string, key: string) {
    && (forall k :: k in l && l[k].messageId == id ==> k == key)
    && (key in l <==> exists k :: k in eps && eps[k].messageId == id)
    && (key in l ==> Strongest(eps, id, key, l[key]))
  }

  /** The entries of a message are the same. */
  ghost predicate SameFor(eps: Ledger, l: Ledger, id: string) {
    forall k :: (k in eps && eps[k].messageId == id) || (k in l && l[k].messageId == id) ==> k in eps && k in l && l[k] == eps[k]
  }

  ghost predicate Named(unread: seq<(string, string)>, id: string) {
    exists i :: 0 <= i < |unread| && unread[i].0 == id
  }

  lemma MigrateOneExactly(eps: Ledger, id: string, key: string)
    requires Keyed(eps) && OneStray(eps, key, id) && KeyMessage(key) == Some(id)
    ensures var l := MigrateOne(eps, id, key);
            Keyed(l) && MovedTo(eps, l, id, key) && forall other :: other != id ==> SameFor(eps, l, other)
  {
    hide KeyMessage, MovedTo, SameFor, Keyed;
    if LegacyKeys(eps, key, id) == {} {
      NothingMoves(eps, id, key);
    } else {
      var k :| k in LegacyKeys(eps, key, id);
      assert LegacyKeys(eps, key, id) == {k};
      StrayMoves(eps, id, key, k);
    }
  }

  lemma NothingMoves(eps: Ledger, id: string, key: string)
    requires Keyed(eps) && LegacyKeys(eps, key, id) == {} && KeyMessage(key) == Some(id)
    ensures MovedTo(eps, eps, id, key) && forall other :: SameFor(eps, eps, other)
  {
    hide KeyMessage;
    forall k | k in eps && eps[k].messageId == id ensures k == key {
      assert k != key ==> k in LegacyKeys(eps, key, id);
    }
  }

  lemma StrayMoves(eps: Ledger, id: string, key: string, k: string)
    requires Keyed(eps) && LegacyKeys(eps, key, id) == {k} && KeyMessage(key) == Some(id)
    ensures var l := (if key !in eps || Rank(eps[k].phase) > Rank(eps[key].phase) then eps[key := eps[k]] else eps) - {k};
            Keyed(l) && MovedTo(eps, l, id, key) && forall other :: other != id ==> SameFor(eps, l, other)
  {
    hide KeyMessage, Rank, Outranks;
    assert k in LegacyKeys(eps, key, id);
    forall a, b ensures Outranks(a, b) <==> Rank(a) > Rank(b) {
      OutranksByRank(a, b);
    }
    forall j | j in eps && eps[j].messageId == id ensures j == key || j == k {
      assert j != key ==> j in LegacyKeys(eps, key, id);
    }
  }

  /**
   After the migration of distinct messages, all that a named message had is one entry under its key, the strongest
   of them, and every other message has what it had.
   */
  lemma {:induction false} MigratedExactly(eps: Ledger, unread: seq<(string, string)>)
    requires Keyed(eps)
    requires forall i :: 0 <= i < |unread| ==> OneStray(eps, unread[i].1, unread[i].0) && KeyMessage(unread[i].1) == Some(unread[i].0)
    requires forall i, j :: 0 <= i < j < |unread| ==> unread[i].0 != unread[j].0
    ensures var l := Migrate(eps, unread);
            && Keyed(l)
            && (forall i :: 0 <= i < |unread| ==> MovedTo(eps, l, unread[i].0, unread[i].1))
            && (forall id :: !Named(unread, id) ==> SameFor(eps, l, id))
  {
    hide KeyMessage, MovedTo, SameFor, MigrateOne, OneStray, Keyed;
    if unread == [] {
      forall id ensures SameFor(eps, eps, id) {
        SameAsItself(eps, id);
      }
    } else {
      var n := |unread| - 1;
      var before, id, key := Migrate(eps, unread[..n]), unread[n].0, unread[n].1;
      assert forall i :: 0 <= i < n ==> unread[..n][i] == unread[i];
      MigratedExactly(eps, unread[..n]);
      assert !Named(unread[..n], id);
      SameStray(eps, before, id, key);
      MigrateOneExactly(before, id, key);
      var l := MigrateOne(before, id, key);
      forall i | 0 <= i <= n ensures MovedTo(eps, l, unread[i].0, unread[i].1) {
        if i < n {
          assert MovedTo(eps, before, unread[..n][i].0, unread[..n][i].1);
          MovedStays(eps, before, l, unread[i].0, unread[i].1);
        } else {
          MovedFrom(eps, before, l, id, key);
        }
      }
      forall other | !Named(unread, other) ensures SameFor(eps, l, other) {
        assert unread[n].0 != other;
        SameTwice(eps, before, l, other);
      }
    }
  }

  lemma SameAsItself(eps: Ledger, id: string)
    ensures SameFor(eps, eps, id)
  {
  }

  lemma SameStray(eps: Ledger, l: Ledger, id: string, key: string)
    requires SameFor(eps, l, id) && OneStray(eps, key, id)
    ensures OneStray(l, key, id)
  {
    assert forall k :: k in LegacyKeys(l, key, id) ==> k in LegacyKeys(eps, key, id);
  }

  lemma SameTwice(a: Ledger, b: Ledger, c: Ledger, id: string)
    requires SameFor(a, b, id) && SameFor(b, c, id)
    ensures SameFor(a, c, id)
  {
  }

  lemma MovedFrom(a: Ledger, b: Ledger, c: Ledger, id: string, key: string)
    requires Keyed(a) && KeyMessage(key) == Some(id) && SameFor(a, b, id) && MovedTo(b, c, id, key)
    ensures MovedTo(a, c, id, key)
  {
    hide KeyMessage;
    assert forall k :: k in a && a[k].messageId == id <==> k in b && b[k].messageId == id;
    assert key in a ==> a[key].messageId == id;
  }

  lemma MovedStays(a: Ledger, b: Ledger, c: Ledger, id: string, key: string)
    requires Keyed(b) && Keyed(c) && KeyMessage(key) == Some(id) && MovedTo(a, b, id, key) && SameFor(b, c, id)
    ensures MovedTo(a, c, id, key)
  {
    hide KeyMessage, Strongest;
    assert key in b ==> b[key].messageId == id;
    assert key in c ==> c[key].messageId == id;
  }

  /**
   What a tick keeps, exactly. With every active row resolved: of what the migration left, the entries under the keys
   of active rows whose message is active. Otherwise: of the ledger as it was, the entries of active messages.
   */
  lemma MaintainedExactly(
    eps: Ledger, resolved: bool, unread: seq<(string, string)>, keys: set<string>, active: set<string>, k: string)
    ensures var l, base := Maintained(eps, resolved, unread, keys, active), if resolved then Migrate(eps, unread) else eps;
            && (k in l <==> k in base && base[k].messageId in active && (resolved ==> k in keys))
            && (k in l ==> l[k] == base[k])
  {
    hide Migrate;
  }

  /** So the claim of an unread active message is kept as the strongest it had, and nothing else is kept of it. */
  lemma UnreadKeepsStrongest(
    eps: Ledger, unread: seq<(string, string)>, keys: set<string>, active: set<string>, i: nat)
    requires Keyed(eps) && i < |unread|
    requires forall i :: 0 <= i < |unread| ==> OneStray(eps, unread[i].1, unread[i].0) && KeyMessage(unread[i].1) == Some(unread[i].0)
    requires forall i, j :: 0 <= i < j < |unread| ==> unread[i].0 != unread[j].0
    requires unread[i].1 in keys && unread[i].0 in active
    ensures MovedTo(eps, Maintained(eps, true, unread, keys, active), unread[i].0, unread[i].1)
  {
    hide KeyMessage, Migrate, Maintained, Strongest, OneStray;
    MigratedExactly(eps, unread);
    var l := Maintained(eps, true, unread, keys, active);
    forall k ensures k in l <==> k in Migrate(eps, unread) && Migrate(eps, unread)[k].messageId in active && k in keys
             ensures k in l ==> l[k] == Migrate(eps, unread)[k] {
      MaintainedExactly(eps, true, unread, keys, active, k);
    }
    assert MovedTo(eps, Migrate(eps, unread), unread[i].0, unread[i].1);
  }
}
