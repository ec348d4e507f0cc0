/**
 Watch mode: one pass over the live composers, with a store that carries the submitted and the ambiguous
 pointers over restarts. `Settled`, `Stores` and `Hydrated` specify the watch object's three operations.
 */
module Watch {
  import opened Basics

  datatype Identity = Identity(runtime: string, id: string, generation: string)

  predicate CleanField(s: string) {
    s != "" && NulFree(s)
  }

  predicate Clean(i: Identity) {
    CleanField(i.runtime) && CleanField(i.id) && CleanField(i.generation)
  }

  function KeyOf(i: Identity): string {
    i.runtime + "\0" + i.id + "\0" + i.generation
  }

  function FirstNul(s: string): (n: nat)
    ensures n <= |s| && NulFree(s[..n]) && (n < |s| ==> s[n] == '\0')
  {
    if s == [] || s[0] == '\0' then 0
    else
      var n := FirstNul(s[1..]);
      assert s[..n + 1] == [s[0]] + s[1..][..n];
      n + 1
  }

  function Fields(key: string): (r: seq<string>)
    ensures r != []
    decreases |key|
  {
    var n := FirstNul(key);
    if n == |key| then [key] else [key[..n]] + Fields(key[n + 1..])
  }

  /** The identity a stored row gets from a worker key: its first three fields, none of them empty. */
  function IdentityFromKey(key: string): Option<Identity> {
    var f := Fields(key);
    if |f| < 3 || f[0] == "" || f[1] == "" || f[2] == "" then None else Some(Identity(f[0], f[1], f[2]))
  }

  lemma FirstField(a: string, rest: string)
    requires NulFree(a)
    ensures Fields(a + "\0" + rest) == [a] + Fields(rest)
  {
    hide Fields, FirstNul;
    var key := a + "\0" + rest;
    var n := FirstNul(key);
    assert key[|a|] == '\0';
    assert n < |key| && key == key[..n] + "\0" + key[n + 1..];
    NulHeadUnique(key[..n], key[n + 1..], a, rest);
    FieldsStep(key);
  }

  lemma FieldsStep(key: string)
    ensures var n := FirstNul(key);
            Fields(key) == if n == |key| then [key] else [key[..n]] + Fields(key[n + 1..])
  {
    hide FirstNul;
  }

  lemma LastField(a: string)
    requires NulFree(a)
    ensures Fields(a) == [a]
  {
    hide FirstNul, Fields;
    FieldsStep(a);
  }

  /** The key of a clean identity gives that identity back. */
  lemma IdentityRoundTrip(i: Identity)
    requires Clean(i)
    ensures IdentityFromKey(KeyOf(i)) == Some(i)
  {
    hide Fields, FirstNul;
    assert KeyOf(i) == i.runtime + "\0" + (i.id + "\0" + i.generation);
    FirstField(i.runtime, i.id + "\0" + i.generation);
    FirstField(i.id, i.generation);
    LastField(i.generation);
    assert Fields(KeyOf(i)) == [i.runtime, i.id, i.generation];
  }

  /** An identity is read from its own key, with or without further fields behind it, and from no other. */
  lemma IdentityExactly(key: string, i: Identity)
    ensures IdentityFromKey(key) == Some(i) <==> Clean(i) && (key == KeyOf(i) || KeyOf(i) + "\0" <= key)
  {
    hide Fields, FirstNul;
    if Clean(i) && key == KeyOf(i) {
      IdentityRoundTrip(i);
    } else if Clean(i) && KeyOf(i) + "\0" <= key {
      var rest := key[|KeyOf(i)| + 1..];
      assert key == i.runtime + "\0" + (i.id + "\0" + (i.generation + "\0" + rest));
      FirstField(i.runtime, i.id + "\0" + (i.generation + "\0" + rest));
      FirstField(i.id, i.generation + "\0" + rest);
      FirstField(i.generation, rest);
    }
    if IdentityFromKey(key) == Some(i) {
      KeyHasFields(key);
    }
  }

  lemma KeyHasFields(key: string)
    requires |Fields(key)| >= 3
    ensures var f := Fields(key); var k := f[0] + "\0" + f[1] + "\0" + f[2];
            NulFree(f[0]) && NulFree(f[1]) && NulFree(f[2]) && (key == k || k + "\0" <= key)
  {
    hide *;
    var f := Fields(key);
    var second := FieldCut(key);
    var third := FieldCut(second);
    LastCut(third);
    ThreeCuts(f[0], f[1], f[2], second, third);
  }

  lemma FieldCut(key: string) returns (rest: string)
    requires |Fields(key)| >= 2
    ensures var f := Fields(key); NulFree(f[0]) && key == f[0] + "\0" + rest && f[1..] == Fields(rest)
  {
    hide Fields, FirstNul, NulFree;
    FieldsStep(key);
    var n := FirstNul(key);
    rest := key[n + 1..];
    assert key == key[..n] + "\0" + rest;
  }

  lemma LastCut(key: string)
    ensures var f := Fields(key); NulFree(f[0]) && (key == f[0] || f[0] + "\0" <= key)
  {
    hide Fields, FirstNul, NulFree;
    FieldsStep(key);
    var n := FirstNul(key);
    if n == |key| {
      assert key[..n] == key;
    } else {
      assert key == key[..n] + "\0" + key[n + 1..];
    }
  }

  lemma ThreeCuts(a: string, b: string, c: string, second: string, third: string)
    requires second == b + "\0" + third && (third == c || c + "\0" <= third)
    ensures var k, key := a + "\0" + b + "\0" + c, a + "\0" + second; key == k || k + "\0" <= key
  {
    var k, key := a + "\0" + b + "\0" + c, a + "\0" + second;
    assert key == a + "\0" + b + "\0" + third;
    if third != c {
      var rest := third[|c| + 1..];
      assert third == c + "\0" + rest;
      assert key == k + "\0" + rest;
    }
  }

  datatype Liveness = Idle | Busy | Gone | Unknown
  datatype Dispatch = Dispatched | SendFailed | DispatchUnknown
  datatype Family = Unbound | OpenCode(controlBound: bool) | Cursor
  datatype Screen = Unreadable | Shown(empty: bool, pointer: Option<string>)

  /** What one look at a worker finds; `seam` tells whether liveness can be observed at all. */
  datatype Look = Look(
    family: Family, screen: Screen, dryRun: bool, seam: bool,
    before: Liveness, dispatch: Dispatch, rereadOk: bool, after: Liveness)

  datatype Enter = Accepted | Ambiguous | NotSent

  datatype Memory = Memory(submitted: map<string, string>, ambiguous: map<string, set<string>>)

  const EMPTY := Memory(map[], map[])

  function AmbiguousAt(m: Memory, key: string): set<string> {
    if key in m.ambiguous then m.ambiguous[key] else {}
  }

  /** The pairs of worker and pointer that watch mode will not Enter. */
  predicate Blocked(m: Memory, key: string, pointer: string) {
    (key in m.submitted && m.submitted[key] == pointer) || pointer in AmbiguousAt(m, key)
  }

  /** The Enter a look leads to, if any. */
  function EnterOf(m: Memory, key: string, l: Look): Option<Enter> {
    if l.family == Unbound || l.family == OpenCode(false) || l.screen.Unreadable? || l.screen.pointer.None?
       || Blocked(m, key, l.screen.pointer.value) || l.dryRun then
      None
    else if l.family.OpenCode? then
      if l.seam && l.before in {Gone, Unknown} then None
      else Some(match l.dispatch case SendFailed => NotSent case DispatchUnknown => Ambiguous case Dispatched => Accepted)
    else if l.seam && l.before != Idle then
      None
    else if l.dispatch == SendFailed then
      Some(NotSent)
    else if l.seam then
      Some(if l.rereadOk && l.after == Busy then Accepted else Ambiguous)
    else
      Some(if l.dispatch == DispatchUnknown then Ambiguous else Accepted)
  }

  predicate SeenEmpty(l: Look) {
    && l.family != Unbound && l.family != OpenCode(false)
    && l.screen.Shown? && l.screen.empty && l.screen.pointer.None?
  }

  function Settled(m: Memory, key: string, l: Look): Memory {
    match EnterOf(m, key, l)
    case None =>
      if SeenEmpty(l) && key !in m.ambiguous then m.(submitted := m.submitted - {key}) else m
    case Some(NotSent) =>
      m.(submitted := m.submitted - {key})
    case Some(Ambiguous) =>
      Memory(m.submitted[key := l.screen.pointer.value],
             m.ambiguous[key := AmbiguousAt(m, key) + {l.screen.pointer.value}])
    case Some(Accepted) =>
      m.(submitted := m.submitted[key := l.screen.pointer.value])
  }

  datatype Row = Row(identity: Identity, pointer: string, ambiguous: bool)

  predicate CleanKey(key: string) {
    IdentityFromKey(key).Some? && Clean(IdentityFromKey(key).value) && KeyOf(IdentityFromKey(key).value) == key
  }

  ghost predicate CleanMemory(m: Memory) {
    && (forall k :: k in m.submitted || k in m.ambiguous ==> CleanKey(k))
    && (forall k :: k in m.ambiguous ==> m.ambiguous[k] != {})
  }

  /** The first row of the store for a worker. */
  ghost predicate FirstRow(rows: seq<Row>, key: string, i: int) {
    0 <= i < |rows| && KeyOf(rows[i].identity) == key && forall j :: 0 <= j < i ==> KeyOf(rows[j].identity) != key
  }

  ghost predicate HasRow(rows: seq<Row>, key: string, pointer: string, ambiguous: bool) {
    exists i :: 0 <= i < |rows| && KeyOf(rows[i].identity) == key && rows[i].pointer == pointer && rows[i].ambiguous == ambiguous
  }

  ghost predicate SoundRow(r: Row, m: Memory) {
    var k := KeyOf(r.identity);
    && Clean(r.identity)
    && Blocked(m, k, r.pointer)
    && (r.ambiguous <==> r.pointer in AmbiguousAt(m, k))
  }

  ghost predicate Sound(rows: seq<Row>, m: Memory) {
    forall i :: 0 <= i < |rows| ==> SoundRow(rows[i], m)
  }

  ghost predicate SubmittedFirst(rows: seq<Row>, m: Memory, keys: set<string>)
    requires keys <= m.submitted.Keys
  {
    forall k :: k in keys ==> exists i :: FirstRow(rows, k, i) && rows[i].pointer == m.submitted[k]
  }

  /** The store holds the memory: nothing else, each worker's submitted pointer first. */
  ghost predicate Stores(rows: seq<Row>, m: Memory) {
    && Sound(rows, m)
    && SubmittedFirst(rows, m, m.submitted.Keys)
    && forall k, p :: p in AmbiguousAt(m, k) ==> HasRow(rows, k, p, true)
  }

  function HydratedRow(m: Memory, r: Row): Memory {
    var key := KeyOf(r.identity);
    Memory(if key in m.submitted then m.submitted else m.submitted[key := r.pointer],
           if r.ambiguous then m.ambiguous[key := AmbiguousAt(m, key) + {r.pointer}] else m.ambiguous)
  }

  function Hydrated(m: Memory, rows: seq<Row>): Memory {
    if rows == [] then m else HydratedRow(Hydrated(m, rows[..|rows| - 1]), rows[|rows| - 1])
  }

  class WatchState {
    var submittedFingerprint: map<string, string>
    var ambiguousSubmittedFingerprints: map<string, set<string>>

    function Value(): Memory
      reads this
    {
      Memory(submittedFingerprint, ambiguousSubmittedFingerprints)
    }

    ghost predicate Valid()
      reads this
    {
      CleanMemory(Value())
    }

    constructor ()
      ensures Valid() && Value() == EMPTY
    {
      submittedFingerprint, ambiguousSubmittedFingerprints := map[], map[];
    }

    method MarkAmbiguous(key: string, pointer: string)
      requires Valid() && CleanKey(key)
      modifies this
      ensures Valid()
      ensures Value() == old(Memory(submittedFingerprint[key := pointer],
                                    ambiguousSubmittedFingerprints[key := AmbiguousAt(Value(), key) + {pointer}]))
    {
      var pointers := if key in ambiguousSubmittedFingerprints then ambiguousSubmittedFingerprints[key] else {};
      ambiguousSubmittedFingerprints := ambiguousSubmittedFingerprints[key := pointers + {pointer}];
      submittedFingerprint := submittedFingerprint[key := pointer];
    }

    /** One look at a worker, with at most one Enter. */
    method Settle(identity: Identity, l: Look) returns (enter: Option<Enter>)
      requires Valid() && Clean(identity)
      modifies this
      ensures Valid()
      ensures enter == old(EnterOf(Value(), KeyOf(identity), l))
      ensures Value() == old(Settled(Value(), KeyOf(identity), l))
    {
      hide KeyOf, IdentityFromKey, Clean;
      var key := KeyOf(identity);
      IdentityRoundTrip(identity);
      if l.family == Unbound || l.family == OpenCode(false) || l.screen.Unreadable? {
        return None;
      }
      if l.screen.pointer.None? {
        if l.screen.empty && key !in ambiguousSubmittedFingerprints {
          submittedFingerprint := submittedFingerprint - {key};
        }
        return None;
      }
      var pointer := l.screen.pointer.value;
      var ambiguous := key in ambiguousSubmittedFingerprints && pointer in ambiguousSubmittedFingerprints[key];
      if (key in submittedFingerprint && submittedFingerprint[key] == pointer) || ambiguous || l.dryRun {
        return None;
      }
      if l.family.OpenCode? {
        if l.seam && (l.before == Gone || l.before == Unknown) {
          return None;
        }
        if l.dispatch == SendFailed {
          submittedFingerprint := submittedFingerprint - {key};
          return Some(NotSent);
        }
        if l.dispatch == DispatchUnknown {
          MarkAmbiguous(key, pointer);
          return Some(Ambiguous);
        }
        submittedFingerprint := submittedFingerprint[key := pointer];
        return Some(Accepted);
      }
      if l.seam && l.before != Idle {
        return None;
      }
      if l.dispatch == SendFailed {
        submittedFingerprint := submittedFingerprint - {key};
        return Some(NotSent);
      }
      if !l.seam && l.dispatch == DispatchUnknown {
        MarkAmbiguous(key, pointer);
        return Some(Ambiguous);
      }
      var started := !l.seam || (l.rereadOk && l.after == Busy);
      if !started {
        MarkAmbiguous(key, pointer);
        return Some(Ambiguous);
      }
      submittedFingerprint := submittedFingerprint[key := pointer];
      return Some(Accepted);
    }

    method HydrateRow(row: Row)
      requires Valid() && Clean(row.identity)
      modifies this
      ensures Valid()
      ensures Value() == HydratedRow(old(Value()), row)
    {
      hide KeyOf, IdentityFromKey, Clean;
      var key := KeyOf(row.identity);
      IdentityRoundTrip(row.identity);
      if key !in submittedFingerprint {
        submittedFingerprint := submittedFingerprint[key := row.pointer];
      }
      if row.ambiguous {
        var pointers := if key in ambiguousSubmittedFingerprints then ambiguousSubmittedFingerprints[key] else {};
        ambiguousSubmittedFingerprints := ambiguousSubmittedFingerprints[key := pointers + {row.pointer}];
      }
    }

    /** Takes the stored rows in their order; what is already known stays. */
    method HydrateSubmitted(rows: seq<Row>)
      requires Valid() && forall r :: r in rows ==> Clean(r.identity)
      modifies this
      ensures Valid()
      ensures Value() == Hydrated(old(Value()), rows)
    {
      hide KeyOf, IdentityFromKey, Clean, CleanMemory, HydratedRow;
      var n := 0;
      while n < |rows|
        invariant 0 <= n <= |rows|
        invariant Valid() && Value() == Hydrated(old(Value()), rows[..n])
      {
        assert rows[n] in rows && rows[..n + 1][..n] == rows[..n];
        HydrateRow(rows[n]);
        n := n + 1;
      }
      assert rows[..n] == rows;
    }

    /** The rows of the store: submitted pointers first, then the ambiguous ones not among them. */
    method SaveWatchStore() returns (rows: seq<Row>)
      requires Valid()
      ensures Stores(rows, Value())
    {
      hide KeyOf, IdentityFromKey, Clean;
      rows := [];
      var keys := submittedFingerprint.Keys;
      while keys != {}
        invariant keys <= submittedFingerprint.Keys
        invariant forall i :: 0 <= i < |rows| ==> KeyOf(rows[i].identity) !in keys
        invariant Sound(rows, Value())
        invariant SubmittedFirst(rows, Value(), submittedFingerprint.Keys - keys)
      {
        var key :| key in keys;
        var pointer := submittedFingerprint[key];
        var row := Row(IdentityFromKey(key).value, pointer, pointer in AmbiguousAt(Value(), key));
        AppendKeeps(rows, row, Value(), submittedFingerprint.Keys - keys);
        rows := PutRow(rows, row);
        keys := keys - {key};
        assert FirstRow(rows, key, |rows| - 1);
      }
      keys := ambiguousSubmittedFingerprints.Keys;
      while keys != {}
        invariant keys <= ambiguousSubmittedFingerprints.Keys
        invariant Sound(rows, Value()) && SubmittedFirst(rows, Value(), submittedFingerprint.Keys)
        invariant forall k, p :: k !in keys && p in AmbiguousAt(Value(), k) ==> HasRow(rows, k, p, true)
      {
        var key :| key in keys;
        rows := SaveAmbiguous(rows, key);
        keys := keys - {key};
      }
    }

    method SaveAmbiguous(start: seq<Row>, key: string) returns (rows: seq<Row>)
      requires Valid() && key in ambiguousSubmittedFingerprints
      requires Sound(start, Value()) && SubmittedFirst(start, Value(), submittedFingerprint.Keys)
      ensures Sound(rows, Value()) && SubmittedFirst(rows, Value(), submittedFingerprint.Keys)
      ensures forall k, p :: HasRow(start, k, p, true) ==> HasRow(rows, k, p, true)
      ensures forall p :: p in AmbiguousAt(Value(), key) ==> HasRow(rows, key, p, true)
    {
      hide KeyOf, IdentityFromKey, Clean;
      rows := start;
      var pointers := ambiguousSubmittedFingerprints[key];
      while pointers != {}
        invariant pointers <= ambiguousSubmittedFingerprints[key]
        invariant Sound(rows, Value()) && SubmittedFirst(rows, Value(), submittedFingerprint.Keys)
        invariant forall k, p :: HasRow(start, k, p, true) ==> HasRow(rows, k, p, true)
        invariant forall p :: p in ambiguousSubmittedFingerprints[key] - pointers ==> HasRow(rows, key, p, true)
      {
        var pointer :| pointer in pointers;
        var row := Row(IdentityFromKey(key).value, pointer, true);
        AppendKeeps(rows, row, Value(), submittedFingerprint.Keys);
        rows := PutRow(rows, row);
        pointers := pointers - {pointer};
      }
    }
  }

  /** Rows are keyed by worker and pointer: a second one replaces the first in place. */
  function PutRow(rows: seq<Row>, row: Row): seq<Row> {
    if rows == [] then [row]
    else if KeyOf(rows[0].identity) == KeyOf(row.identity) && rows[0].pointer == row.pointer then [row] + rows[1..]
    else [rows[0]] + PutRow(rows[1..], row)
  }

  /** Putting a sound row keeps what the rows already say: they are only ever extended. */
  lemma AppendKeeps(rows: seq<Row>, row: Row, m: Memory, keys: set<string>)
    requires Sound(rows, m) && SoundRow(row, m) && keys <= m.submitted.Keys && SubmittedFirst(rows, m, keys)
    ensures var t := PutRow(rows, row);
            && Sound(t, m) && SubmittedFirst(t, m, keys)
            && HasRow(t, KeyOf(row.identity), row.pointer, row.ambiguous)
            && (forall k, p, a :: HasRow(rows, k, p, a) ==> HasRow(t, k, p, a))
            && (|t| == |rows| || t == rows + [row])
            && ((forall i :: 0 <= i < |rows| ==> KeyOf(rows[i].identity) != KeyOf(row.identity)) ==> t == rows + [row])
  {
    hide KeyOf, Clean;
    var t := PutRow(rows, row);
    var at := PutRowShape(rows, row);
    assert SoundRow(t[at], m) && t[at] == row;
    assert forall i :: 0 <= i < |rows| ==> SoundRow(rows[i], m);
    assert forall i :: 0 <= i < |rows| ==> SameEntry(t[i], rows[i]);
    forall k, p, a | HasRow(rows, k, p, a) ensures HasRow(t, k, p, a) {
      var i :| 0 <= i < |rows| && KeyOf(rows[i].identity) == k && rows[i].pointer == p && rows[i].ambiguous == a;
      assert SameEntry(t[i], rows[i]);
    }
    forall k | k in keys ensures exists i :: FirstRow(t, k, i) && t[i].pointer == m.submitted[k] {
      var i :| FirstRow(rows, k, i) && rows[i].pointer == m.submitted[k];
      assert FirstRow(t, k, i);
    }
  }

  predicate SameEntry(r: Row, q: Row) {
    KeyOf(r.identity) == KeyOf(q.identity) && r.pointer == q.pointer && r.ambiguous == q.ambiguous
  }

  lemma {:induction false} PutRowShape(rows: seq<Row>, row: Row) returns (at: nat)
    ensures at <= |rows|
    ensures at == |rows| ==> PutRow(rows, row) == rows + [row]
    ensures at < |rows| ==>
              && PutRow(rows, row) == rows[at := row]
              && KeyOf(rows[at].identity) == KeyOf(row.identity) && rows[at].pointer == row.pointer
  {
    hide KeyOf;
    if rows == [] {
      at := 0;
    } else if KeyOf(rows[0].identity) == KeyOf(row.identity) && rows[0].pointer == row.pointer {
      at := 0;
    } else {
      var rest := PutRowShape(rows[1..], row);
      at := rest + 1;
      assert rows == [rows[0]] + rows[1..];
    }
  }
}
