/**
 The deny overlay for OpenCode permissions and the check that its rules are terminal. Permissions are ordered
 objects: overriding a key keeps its position, a new key goes last, and later rules win.
 */
module DenyOverlay {
  import opened Basics

  /** The value of a rule: a word such as `deny`, or anything else. */
  datatype Action = Word(text: string) | Opaque

  const DENY := Word("deny")

  datatype Entry = Entry(pattern: string, action: Action)

  datatype Permission = Plain(action: string) | Table(entries: seq<Entry>) | Neither

  datatype Named = Named(name: string, permission: Permission)

  type Permissions = seq<Named>

  /** One row of the overlay: a permission and the patterns to deny in it, in order. */
  datatype Denied = Denied(name: string, patterns: seq<string>)

  datatype Rule = Rule(permission: string, pattern: string, action: Action)

  // ----- the overlay -----

  function Entries(p: Permission): seq<Entry> {
    match p
    case Plain(action) => [Entry("*", Word(action))]
    case Table(entries) => entries
    case Neither => []
  }

  function Without(entries: seq<Entry>, pattern: string): seq<Entry> {
    if entries == [] then []
    else (if entries[0].pattern == pattern then [] else [entries[0]]) + Without(entries[1..], pattern)
  }

  function AppendDeny(p: Permission, pattern: string): Permission {
    Table(Without(Entries(p), pattern) + [Entry(pattern, DENY)])
  }

  function DenyAll(p: Permission, patterns: seq<string>): Permission {
    if patterns == [] then p else AppendDeny(DenyAll(p, patterns[..|patterns| - 1]), patterns[|patterns| - 1])
  }

  function Lookup(ps: Permissions, name: string): Permission {
    if ps == [] then Neither else if ps[0].name == name then ps[0].permission else Lookup(ps[1..], name)
  }

  /** Object spread: a present key keeps its place, a new one is appended. */
  function Put(ps: Permissions, name: string, p: Permission): Permissions {
    if ps == [] then [Named(name, p)]
    else if ps[0].name == name then [Named(name, p)] + ps[1..]
    else [ps[0]] + Put(ps[1..], name, p)
  }

  function Overlaid(inherited: Permissions, table: seq<Denied>): Permissions {
    if table == [] then inherited
    else
      var row := table[|table| - 1];
      Put(Overlaid(inherited, table[..|table| - 1]), row.name, DenyAll(Lookup(inherited, row.name), row.patterns))
  }

  const EXECUTABLES := [
    "bsk", "/bsk", "/*/bsk", "~?bsk", "~?*/bsk", "env bsk",
    "codex", "/codex", "/*/codex", "~?codex", "~?*/codex", "env codex",
    "agent-launch", "/agent-launch", "/*/agent-launch", "~?agent-launch", "~?*/agent-launch", "env agent-launch"]

  /** Every pattern, alone and followed by arguments. */
  function WithArguments(patterns: seq<string>): seq<string> {
    if patterns == [] then [] else [patterns[0], patterns[0] + " *"] + WithArguments(patterns[1..])
  }

  const CONTAINING := ["*codex*", "*agent-launch*", "*/bsk*"]

  const BASH := Denied("bash", WithArguments(EXECUTABLES) + CONTAINING)
  const CODEX := Denied("codex", ["*"])
  const AGENT_LAUNCH := Denied("agent-launch", ["*"])
  const SKILL := Denied("skill", ["browser-skill"])
  const READ := Denied("read", ["*.env", "*.env.*"])

  const FLEET: seq<Denied> := [BASH, CODEX, AGENT_LAUNCH, SKILL, READ]

  function WithFleetBrowserDenies(inherited: Permissions): Permissions {
    Overlaid(inherited, FLEET)
  }

  // ----- the check -----

  function RulesOf(n: Named): seq<Rule> {
    RulesIn(n.name, Entries(n.permission))
  }

  function RulesIn(name: string, entries: seq<Entry>): seq<Rule> {
    seq(|entries|, i requires 0 <= i < |entries| => Rule(name, entries[i].pattern, entries[i].action))
  }

  function Rules(ps: Permissions): seq<Rule> {
    if ps == [] then [] else RulesOf(ps[0]) + Rules(ps[1..])
  }

  function Key(r: Rule): string {
    r.permission + "\0" + r.pattern
  }

  ghost predicate KeyIn(key: string, rules: seq<Rule>) {
    exists r :: r in rules && Key(r) == key
  }

  /** Of the rules sharing a key only the last one stays. */
  ghost function Canonical(rules: seq<Rule>): seq<Rule> {
    if rules == [] then []
    else (if KeyIn(Key(rules[0]), rules[1..]) then [] else [rules[0]]) + Canonical(rules[1..])
  }

  predicate Matches(r: Rule, expected: Rule) {
    r.permission == expected.permission && r.pattern == expected.pattern
  }

  predicate Applicable(r: Rule, expected: Rule) {
    r.permission == expected.permission || r.permission == "*"
  }

  ghost predicate HasMatch(rules: seq<Rule>, expected: Rule) {
    exists r :: r in rules && Matches(r, expected)
  }

  /** The last matching rule is a deny and nothing that applies after it is anything else. */
  ghost predicate TerminalDeny(rules: seq<Rule>, expected: Rule) {
    if rules == [] then false
    else if HasMatch(rules[1..], expected) then TerminalDeny(rules[1..], expected)
    else Matches(rules[0], expected) && rules[0].action == DENY && AllDeny(rules[1..], expected)
  }

  ghost predicate AllDeny(rules: seq<Rule>, expected: Rule) {
    forall r :: r in rules && Applicable(r, expected) ==> r.action == DENY
  }

  ghost predicate TerminalFor(ps: Permissions, table: seq<Denied>) {
    forall e :: e in Canonical(Rules(Overlaid([], table))) ==> TerminalDeny(Canonical(Rules(ps)), e)
  }

  ghost predicate FleetBrowserDenyRulesAreTerminal(ps: Permissions) {
    TerminalFor(ps, FLEET)
  }

  // ----- well-formed input -----

  predicate UniquePatterns(entries: seq<Entry>) {
    forall i, j :: 0 <= i < j < |entries| ==> entries[i].pattern != entries[j].pattern
  }

  /** An object: no key twice, neither among the permissions nor within one. */
  predicate IsObject(ps: Permissions) {
    && (forall i, j :: 0 <= i < j < |ps| ==> ps[i].name != ps[j].name)
    && (forall i :: 0 <= i < |ps| ==> UniquePatterns(Entries(ps[i].permission)))
  }

  /** No permission name can be taken for `*` in the NUL-joined rule keys. */
  predicate StarUnambiguous(ps: Permissions) {
    forall i :: 0 <= i < |ps| ==> !("*\0" <= ps[i].name)
  }

  predicate TableWellFormed(table: seq<Denied>) {
    && (forall i, j :: 0 <= i < j < |table| ==> table[i].name != table[j].name)
    && (forall i :: 0 <= i < |table| ==> RowWellFormed(table[i]))
  }

  predicate RowWellFormed(row: Denied) {
    row.name != "*" && NulFree(row.name) && row.patterns != [] && forall p :: p in row.patterns ==> NulFree(p)
  }

  predicate Protected(table: seq<Denied>, name: string) {
    exists i :: 0 <= i < |table| && table[i].name == name
  }

  predicate NonDeny(p: Permission) {
    exists i :: 0 <= i < |Entries(p)| && Entries(p)[i].action != DENY
  }

  /** A `*` permission with something other than denies comes after a protected one. */
  ghost predicate PlainClash(ps: Permissions, table: seq<Denied>) {
    exists i, j :: 0 <= i < j < |ps| && Protected(table, ps[i].name) && ps[j].name == "*" && NonDeny(ps[j].permission)
  }

  /** An entry that is no deny and whose joined key no later rule repeats. */
  ghost predicate Exposed(ps: Permissions, j: nat)
    requires j < |ps|
  {
    exists n :: 0 <= n < |Entries(ps[j].permission)| && ExposedAt(ps, j, n)
  }

  ghost predicate ExposedAt(ps: Permissions, j: nat, n: nat)
    requires j < |ps| && n < |Entries(ps[j].permission)|
  {
    Entries(ps[j].permission)[n].action != DENY && !KeyIn(Key(RuleAt(ps, j, n)), Rules(ps[j + 1..]))
  }

  function RuleAt(ps: Permissions, j: nat, n: nat): Rule
    requires j < |ps| && n < |Entries(ps[j].permission)|
  {
    var e := Entries(ps[j].permission)[n];
    Rule(ps[j].name, e.pattern, e.action)
  }

  /** A `*` permission comes after a protected one and has something other than a deny that is not replaced later. */
  ghost predicate Clashes(ps: Permissions, table: seq<Denied>) {
    exists i, j :: 0 <= i < j < |ps| && Protected(table, ps[i].name) && ps[j].name == "*" && Exposed(ps, j)
  }

  // ----- where things are in an overlaid object -----

  lemma WithoutShape(entries: seq<Entry>, pattern: string)
    ensures forall e :: e in Without(entries, pattern) <==> e in entries && e.pattern != pattern
  {
  }

  lemma {:induction false} WithoutUnique(entries: seq<Entry>, pattern: string)
    requires UniquePatterns(entries)
    ensures UniquePatterns(Without(entries, pattern))
  {
    if entries != [] {
      var rest := entries[1..];
      assert forall i :: 0 <= i < |rest| ==> rest[i] == entries[i + 1];
      WithoutUnique(rest, pattern);
      WithoutShape(rest, pattern);
      var t := Without(rest, pattern);
      forall i | 0 <= i < |t| ensures t[i].pattern != entries[0].pattern {
        assert t[i] in t;
        var k :| 0 <= k < |rest| && rest[k] == t[i];
      }
    }
  }

  lemma {:induction false} WithoutAppend(a: seq<Entry>, b: seq<Entry>, pattern: string)
    ensures Without(a + b, pattern) == Without(a, pattern) + Without(b, pattern)
  {
    if a == [] {
      assert a + b == b;
    } else {
      WithoutAppend(a[1..], b, pattern);
      assert (a + b)[1..] == a[1..] + b && (a + b)[0] == a[0];
      var x, y, z := if a[0].pattern == pattern then [] else [a[0]], Without(a[1..], pattern), Without(b, pattern);
      assert x + (y + z) == (x + y) + z;
    }
  }

  /** The entries of a denied table: what is kept, then the denies, one at least for every pattern. */
  ghost predicate DeniedShape(entries: seq<Entry>, patterns: seq<string>, kept: seq<Entry>, denied: seq<Entry>) {
    && entries == kept + denied && UniquePatterns(entries)
    && (forall e :: e in kept ==> e.pattern !in patterns)
    && (forall e :: e in denied ==> e.pattern in patterns && e.action == DENY)
    && (forall q :: q in patterns ==> Entry(q, DENY) in denied)
  }

  /** Denying leaves a table whose denied patterns come last, all of them denies. */
  lemma {:induction false} DenyAllShape(p: Permission, patterns: seq<string>) returns (kept: seq<Entry>, denied: seq<Entry>)
    requires UniquePatterns(Entries(p))
    ensures DeniedShape(Entries(DenyAll(p, patterns)), patterns, kept, denied)
  {
    hide *;
    if patterns == [] {
      kept, denied := Entries(p), [];
      DenyNone(p);
    } else {
      var front, last := patterns[..|patterns| - 1], patterns[|patterns| - 1];
      kept, denied := DenyAllShape(p, front);
      DenyAllLast(p, front, last);
      DenyOneShape(Entries(DenyAll(p, front)), front, kept, denied, last);
      assert patterns == front + [last];
      kept, denied := Without(kept, last), Without(denied, last) + [Entry(last, DENY)];
    }
  }

  lemma DenyNone(p: Permission)
    requires UniquePatterns(Entries(p))
    ensures DeniedShape(Entries(DenyAll(p, [])), [], Entries(p), [])
  {
    assert Entries(p) + [] == Entries(p);
  }

  lemma DenyAllLast(p: Permission, front: seq<string>, last: string)
    ensures Entries(DenyAll(p, front + [last])) == Without(Entries(DenyAll(p, front)), last) + [Entry(last, DENY)]
  {
    assert (front + [last])[..|front|] == front;
  }

  lemma DenyOneShape(entries: seq<Entry>, patterns: seq<string>, kept: seq<Entry>, denied: seq<Entry>, last: string)
    requires DeniedShape(entries, patterns, kept, denied)
    ensures DeniedShape(Without(entries, last) + [Entry(last, DENY)], patterns + [last],
                        Without(kept, last), Without(denied, last) + [Entry(last, DENY)])
  {
    hide UniquePatterns, Without;
    var k, d, rest := Without(kept, last), Without(denied, last), Without(entries, last);
    WithoutAppend(kept, denied, last);
    WithoutUnique(entries, last);
    WithoutShape(kept, last);
    WithoutShape(denied, last);
    WithoutShape(entries, last);
    UniqueAppend(rest, Entry(last, DENY));
    assert rest + [Entry(last, DENY)] == k + (d + [Entry(last, DENY)]);
    forall q | q in patterns + [last] ensures Entry(q, DENY) in d + [Entry(last, DENY)] {
      if q != last {
        assert Entry(q, DENY) in denied;
      }
    }
  }

  lemma UniqueAppend(entries: seq<Entry>, e: Entry)
    requires UniquePatterns(entries) && forall x :: x in entries ==> x.pattern != e.pattern
    ensures UniquePatterns(entries + [e])
  {
    forall i, j | 0 <= i < j < |entries + [e]| ensures (entries + [e])[i].pattern != (entries + [e])[j].pattern {
      assert entries[i] in entries;
    }
  }

  lemma {:induction false} PutShape(ps: Permissions, name: string, p: Permission) returns (at: nat)
    requires forall i, j :: 0 <= i < j < |ps| ==> ps[i].name != ps[j].name
    ensures at <= |ps| && Put(ps, name, p) == Placed(ps, Named(name, p), at)
    ensures at < |ps| ==> ps[at].name == name
    ensures at == |ps| ==> forall i :: 0 <= i < |ps| ==> ps[i].name != name
  {
    if ps == [] || ps[0].name == name {
      at := 0;
    } else {
      var below := PutShape(ps[1..], name, p);
      at := below + 1;
      PlacedBelow(ps, Named(name, p), below);
    }
  }

  lemma PlacedBelow(ps: Permissions, row: Named, at: nat)
    requires ps != [] && at < |ps|
    ensures Placed(ps, row, at + 1) == [ps[0]] + Placed(ps[1..], row, at)
  {
  }

  lemma LookupUnique(ps: Permissions, name: string)
    requires IsObject(ps)
    ensures UniquePatterns(Entries(Lookup(ps, name)))
  {
    if ps != [] {
      assert UniquePatterns(Entries(ps[0].permission));
      if ps[0].name != name {
        LookupUnique(ps[1..], name);
      }
    }
  }

  /** The overlay keeps every key at its place, changes protected ones only, and adds the missing ones last. */
  ghost predicate OverlayShape(inherited: Permissions, table: seq<Denied>, o: Permissions) {
    && IsObject(o) && |o| >= |inherited|
    && KeepsPlaces(inherited, table, o)
    && (forall i :: |inherited| <= i < |o| ==> Protected(table, o[i].name))
    && (forall t :: 0 <= t < |table| ==> HoldsRow(inherited, table[t], o))
  }

  predicate KeepsPlaces(inherited: Permissions, table: seq<Denied>, o: Permissions) {
    && |o| >= |inherited|
    && (forall i :: 0 <= i < |inherited| ==> o[i].name == inherited[i].name)
    && (forall i :: 0 <= i < |inherited| && !Protected(table, inherited[i].name) ==> o[i] == inherited[i])
  }

  predicate HoldsRow(inherited: Permissions, row: Denied, o: Permissions) {
    exists i :: 0 <= i < |o| && o[i] == Named(row.name, DenyAll(Lookup(inherited, row.name), row.patterns))
  }

  lemma {:induction false} OverlaidShape(inherited: Permissions, table: seq<Denied>)
    requires IsObject(inherited) && forall i, j :: 0 <= i < j < |table| ==> table[i].name != table[j].name
    ensures OverlayShape(inherited, table, Overlaid(inherited, table))
  {
    if table != [] {
      var front, row := table[..|table| - 1], table[|table| - 1];
      OverlaidShape(inherited, front);
      var o, p := Overlaid(inherited, front), DenyAll(Lookup(inherited, row.name), row.patterns);
      var at := PutShape(o, row.name, p);
      LookupUnique(inherited, row.name);
      var _, _ := DenyAllShape(Lookup(inherited, row.name), row.patterns);
      PutKeepsShape(inherited, table, o, p, at);
    }
  }

  lemma PutKeepsShape(inherited: Permissions, table: seq<Denied>, o: Permissions, p: Permission, at: nat)
    requires table != [] && OverlayShape(inherited, table[..|table| - 1], o)
    requires forall i, j :: 0 <= i < j < |table| ==> table[i].name != table[j].name
    requires var row := table[|table| - 1];
             && p == DenyAll(Lookup(inherited, row.name), row.patterns) && UniquePatterns(Entries(p))
             && at <= |o| && (at < |o| ==> o[at].name == row.name)
             && (at == |o| ==> forall i :: 0 <= i < |o| ==> o[i].name != row.name)
    ensures OverlayShape(inherited, table, Placed(o, Named(table[|table| - 1].name, p), at))
  {
    hide DenyAll, Lookup, IsObject, KeepsPlaces, HoldsRow, Protected;
    var front, row := table[..|table| - 1], Named(table[|table| - 1].name, p);
    var v := Placed(o, row, at);
    PlacedIsObject(o, row, at);
    PlacedKeepsPlaces(inherited, table, o, row, at);
    forall i | |inherited| <= i < |v| ensures Protected(table, v[i].name) {
      ProtectedGrows(table, v[i].name);
    }
    forall t | 0 <= t < |table| ensures HoldsRow(inherited, table[t], v) {
      if t == |table| - 1 {
        PlacedHoldsNew(inherited, table[t], o, at);
      } else {
        assert front[t] == table[t];
        PlacedHoldsOld(inherited, table[t], o, row, at);
      }
    }
  }

  function Placed(o: Permissions, row: Named, at: nat): Permissions
    requires at <= |o|
  {
    if at == |o| then o + [row] else o[at := row]
  }

  lemma ProtectedGrows(table: seq<Denied>, name: string)
    requires table != []
    ensures Protected(table, name) <==> Protected(table[..|table| - 1], name) || name == table[|table| - 1].name
  {
    var front := table[..|table| - 1];
    if Protected(front, name) {
      var i :| 0 <= i < |front| && front[i].name == name;
      assert table[i].name == name;
    }
    if Protected(table, name) && name != table[|table| - 1].name {
      var i :| 0 <= i < |table| && table[i].name == name;
      assert front[i].name == name;
    }
  }

  lemma PlacedIsObject(o: Permissions, row: Named, at: nat)
    requires IsObject(o) && UniquePatterns(Entries(row.permission)) && at <= |o|
    requires if at < |o| then o[at].name == row.name else forall i :: 0 <= i < |o| ==> o[i].name != row.name
    ensures IsObject(Placed(o, row, at))
  {
    hide UniquePatterns, Entries;
  }

  lemma PlacedKeepsPlaces(inherited: Permissions, table: seq<Denied>, o: Permissions, row: Named, at: nat)
    requires table != [] && row.name == table[|table| - 1].name && KeepsPlaces(inherited, table[..|table| - 1], o)
    requires at <= |o| && (at < |o| ==> o[at].name == row.name)
    ensures KeepsPlaces(inherited, table, Placed(o, row, at))
  {
    hide Protected;
    var v := Placed(o, row, at);
    forall i | 0 <= i < |inherited|
      ensures v[i].name == inherited[i].name && (!Protected(table, inherited[i].name) ==> v[i] == inherited[i])
    {
      ProtectedGrows(table, inherited[i].name);
    }
  }

  lemma PlacedHoldsNew(inherited: Permissions, row: Denied, o: Permissions, at: nat)
    requires at <= |o|
    ensures HoldsRow(inherited, row, Placed(o, Named(row.name, DenyAll(Lookup(inherited, row.name), row.patterns)), at))
  {
    hide DenyAll, Lookup;
    var added := Named(row.name, DenyAll(Lookup(inherited, row.name), row.patterns));
    assert Placed(o, added, at)[at] == added;
  }

  lemma PlacedHoldsOld(inherited: Permissions, was: Denied, o: Permissions, row: Named, at: nat)
    requires HoldsRow(inherited, was, o) && was.name != row.name && at <= |o| && (at < |o| ==> o[at].name == row.name)
    ensures HoldsRow(inherited, was, Placed(o, row, at))
  {
    hide DenyAll, Lookup;
    var i :| 0 <= i < |o| && o[i] == Named(was.name, DenyAll(Lookup(inherited, was.name), was.patterns));
    assert Placed(o, row, at)[i] == o[i];
  }

  lemma OverlayClashes(inherited: Permissions, table: seq<Denied>, o: Permissions)
    requires OverlayShape(inherited, table, o) && TableWellFormed(table) && !Protected(table, "*")
    ensures Clashes(o, table) <==> Clashes(inherited, table)
  {
    hide Protected, IsObject, Exposed, TableWellFormed;
    if Clashes(o, table) {
      var i, j :| 0 <= i < j < |o| && Protected(table, o[i].name) && o[j].name == "*" && Exposed(o, j);
      assert j < |inherited| && Protected(table, inherited[i].name);
      ExposedCarries(inherited, table, o, j);
    }
    if Clashes(inherited, table) {
      var i, j :| 0 <= i < j < |inherited| && Protected(table, inherited[i].name) && inherited[j].name == "*" && Exposed(inherited, j);
      assert Protected(table, o[i].name) && o[j].name == "*";
      ExposedCarries(inherited, table, o, j);
    }
  }

  /** Only an inherited permission that is not protected can repeat a key of `*`, so the overlay changes nothing there. */
  lemma ExposedCarries(inherited: Permissions, table: seq<Denied>, o: Permissions, j: nat)
    requires OverlayShape(inherited, table, o) && TableWellFormed(table) && !Protected(table, "*")
    requires j < |inherited| && inherited[j].name == "*"
    ensures Exposed(o, j) <==> Exposed(inherited, j)
  {
    hide Rules, HoldsRow, Entries, UniquePatterns;
    assert o[j] == inherited[j];
    var later, was := o[j + 1..], inherited[j + 1..];
    forall k | 0 <= k < |later| && "*\0" <= later[k].name ensures later[k] in was {
      UnprotectedStar(table, later[k].name);
      assert later[k] == o[j + 1 + k] && was[k] == inherited[j + 1 + k];
    }
    forall k | 0 <= k < |was| && "*\0" <= was[k].name ensures was[k] in later {
      UnprotectedStar(table, was[k].name);
      assert later[k] == o[j + 1 + k] && was[k] == inherited[j + 1 + k];
    }
    forall n: nat | n < |Entries(o[j].permission)| ensures ExposedAt(o, j, n) <==> ExposedAt(inherited, j, n) {
      var key := Key(RuleAt(o, j, n));
      assert key == "*\0" + Entries(o[j].permission)[n].pattern;
      if KeyIn(key, Rules(later)) {
        StarKeysCarry(later, was, key);
      }
      if KeyIn(key, Rules(was)) {
        StarKeysCarry(was, later, key);
      }
    }
  }

  lemma UnprotectedStar(table: seq<Denied>, name: string)
    requires TableWellFormed(table) && "*\0" <= name
    ensures !Protected(table, name)
  {
    assert name[1] == '\0' && !NulFree(name);
    forall t | 0 <= t < |table| ensures table[t].name != name {
      assert RowWellFormed(table[t]);
    }
  }

  lemma StarKeysCarry(from: Permissions, to: Permissions, key: string)
    requires "*\0" <= key && KeyIn(key, Rules(from)) && forall k :: 0 <= k < |from| ==> from[k].name != "*"
    requires forall k :: 0 <= k < |from| && "*\0" <= from[k].name ==> from[k] in to
    ensures KeyIn(key, Rules(to))
  {
    hide Rules, Entries, Key;
    var r :| r in Rules(from) && Key(r) == key;
    var i, n := RulesOrigin(from, r);
    KeyStarPrefix(r);
    var m :| 0 <= m < |to| && to[m] == from[i];
    RulesContain(to, m, n);
    assert r in Rules(to);
  }

  // ----- canonical rules -----

  lemma CanonicalSubset(rules: seq<Rule>)
    ensures forall r :: r in Canonical(rules) ==> r in rules
  {
  }

  /** Only the rule itself has its key, as for a NUL-free permission and pattern. */
  predicate Decodable(e: Rule) {
    NulFree(e.permission) && NulFree(e.pattern)
  }

  lemma DecodableKey(e: Rule, r: Rule)
    requires Decodable(e) && Key(r) == Key(e)
    ensures Matches(r, e)
  {
    var key := Key(e);
    assert forall k :: |e.permission| < k < |key| ==> key[k] == e.pattern[k - |e.permission| - 1];
    assert forall k :: 0 <= k < |e.permission| ==> key[k] == e.permission[k];
    assert key == r.permission + "\0" + r.pattern;
    assert key[|r.permission|] == '\0' && key[|e.permission|] == '\0';
    assert |r.permission| == |e.permission|;
    assert r.permission == key[..|e.permission|] == e.permission;
    assert r.pattern == key[|e.permission| + 1..] == e.pattern;
  }

  /** What the check says of a rule list, seen from the last rule that matches. */
  lemma {:induction false} TerminalSplit(before: seq<Rule>, d: Rule, after: seq<Rule>, e: Rule)
    requires Decodable(e) && Matches(d, e) && !HasMatch(after, e)
    ensures HasMatch(Canonical(before + [d] + after), e)
    ensures TerminalDeny(Canonical(before + [d] + after), e) <==> d.action == DENY && AllDeny(Canonical(after), e)
  {
    var all := before + [d] + after;
    if before == [] {
      assert all[1..] == after && all[0] == d;
      if KeyIn(Key(d), after) {
        var r :| r in after && Key(r) == Key(d);
        DecodableKey(e, r);
        assert false;
      }
      CanonicalSubset(after);
      var c := [d] + Canonical(after);
      assert Canonical(all) == c;
      assert c[1..] == Canonical(after) && c[0] == d;
      assert d in c;
    } else {
      assert all[1..] == before[1..] + [d] + after && all[0] == before[0];
      TerminalSplit(before[1..], d, after, e);
      var c := Canonical(all[1..]);
      var h := [all[0]] + c;
      assert h[1..] == c;
      assert HasMatch(c, e);
      assert HasMatch(h, e) by {
        var r :| r in c && Matches(r, e);
        assert r in h;
      }
      assert Canonical(all) == c || Canonical(all) == h;
    }
  }

  // ----- stars survive -----

  lemma KeyInConcat(key: string, a: seq<Rule>, b: seq<Rule>)
    ensures KeyIn(key, a + b) <==> KeyIn(key, a) || KeyIn(key, b)
  {
    if KeyIn(key, a + b) {
      var r :| r in a + b && Key(r) == key;
      assert r in a || r in b;
    }
    if r :| (r in a || r in b) && Key(r) == key {
      assert r in a + b;
    }
  }

  /** What stays of a list stays if nothing put after it repeats its key. */
  lemma {:induction false} CanonicalSplit(a: seq<Rule>, b: seq<Rule>, r: Rule)
    ensures r in Canonical(a + b) <==> r in Canonical(b) || (r in Canonical(a) && !KeyIn(Key(r), b))
  {
    hide KeyIn, Key;
    if a == [] {
      assert a + b == b;
    } else {
      CanonicalSplit(a[1..], b, r);
      assert (a + b)[1..] == a[1..] + b && (a + b)[0] == a[0];
      KeyInConcat(Key(a[0]), a[1..], b);
    }
  }

  /** A rule stays exactly if no later permission has a rule with its joined key. */
  lemma RuleStays(pre: seq<Rule>, post: Permissions, i: nat, n: nat)
    requires IsObject(post) && i < |post| && n < |Entries(post[i].permission)|
    requires forall x :: x in pre ==> x.permission != post[i].name
    ensures RuleAt(post, i, n) in Canonical(pre + Rules(post)) <==> !KeyIn(Key(RuleAt(post, i, n)), Rules(post[i + 1..]))
  {
    hide Canonical, KeyIn, Key, Rules, RulesIn, UniquePatterns;
    var r := RuleAt(post, i, n);
    var a, b, c := pre + Rules(post[..i]), RulesOf(post[i]), Rules(post[i + 1..]);
    RulesSplit(post, i);
    Joined(pre, Rules(post[..i]), b, c);
    assert a + b + c == a + (b + c);
    CanonicalSplit(a, b + c, r);
    CanonicalSplit(b, c, r);
    CanonicalSubset(a);
    CanonicalSubset(c);
    NoRuleOf(post[..i], r);
    NoRuleOf(post[i + 1..], r);
    OwnKeysStay(post[i].name, Entries(post[i].permission), n);
  }

  lemma NoRuleOf(ps: Permissions, r: Rule)
    requires forall i :: 0 <= i < |ps| ==> ps[i].name != r.permission
    ensures r !in Rules(ps)
  {
    if r in Rules(ps) {
      var i, n := RulesOrigin(ps, r);
    }
  }

  lemma OwnKeysStay(name: string, entries: seq<Entry>, n: nat)
    requires UniquePatterns(entries) && n < |entries|
    ensures Rule(name, entries[n].pattern, entries[n].action) in Canonical(RulesIn(name, entries))
  {
    var rules, r := RulesIn(name, entries), Rule(name, entries[n].pattern, entries[n].action);
    assert rules[n] == r;
    forall x | x in rules && Key(x) == Key(r) ensures x == r {
      var m := RulesInOrigin(name, entries, x);
      assert Key(x)[|name| + 1..] == x.pattern && Key(r)[|name| + 1..] == r.pattern;
    }
    OnlyOfItsKeyStays(rules, r);
  }

  lemma {:induction false} RulesOrigin(ps: Permissions, r: Rule) returns (i: nat, n: nat)
    requires r in Rules(ps)
    ensures i < |ps| && n < |Entries(ps[i].permission)| && r.permission == ps[i].name
    ensures r.pattern == Entries(ps[i].permission)[n].pattern && r.action == Entries(ps[i].permission)[n].action
  {
    var block := RulesOf(ps[0]);
    if r in block {
      i := 0;
      n :| 0 <= n < |block| && block[n] == r;
    } else {
      i, n := RulesOrigin(ps[1..], r);
      i := i + 1;
    }
  }

  lemma {:induction false} RulesContain(ps: Permissions, i: nat, n: nat)
    requires i < |ps| && n < |Entries(ps[i].permission)|
    ensures Rule(ps[i].name, Entries(ps[i].permission)[n].pattern, Entries(ps[i].permission)[n].action) in Rules(ps)
  {
    if i == 0 {
      assert RulesOf(ps[0])[n] in RulesOf(ps[0]);
    } else {
      RulesContain(ps[1..], i - 1, n);
    }
  }

  lemma StarPrefix(name: string, pattern: string)
    requires "*\0" <= name + "\0" + pattern
    ensures name == "*" || "*\0" <= name
  {
    var key := name + "\0" + pattern;
    assert key[0] == '*' && key[1] == '\0';
    assert name != "" by {
      assert name == "" ==> key == "\0" + pattern;
    }
    assert name[0] == key[0];
    if |name| > 1 {
      assert name[1] == key[1];
    }
  }

  lemma KeyStarPrefix(r: Rule)
    requires "*\0" <= Key(r)
    ensures r.permission == "*" || "*\0" <= r.permission
  {
    StarPrefix(r.permission, r.pattern);
  }

  lemma {:induction false} RulesSplit(ps: Permissions, i: nat)
    requires i < |ps|
    ensures Rules(ps) == Rules(ps[..i]) + RulesOf(ps[i]) + Rules(ps[i + 1..])
  {
    hide Rules, RulesOf;
    RulesHead(ps);
    if i == 0 {
      assert ps[..0] == [];
      NoRules();
      Joined([], RulesOf(ps[0]), [], Rules(ps[1..]));
    } else {
      RulesSplit(ps[1..], i - 1);
      RulesHead(ps[..i]);
      assert ps[1..][..i - 1] == ps[..i][1..] && ps[..i][0] == ps[0];
      assert ps[1..][i - 1] == ps[i] && ps[1..][i..] == ps[i + 1..];
      Joined(RulesOf(ps[0]), Rules(ps[..i][1..]), RulesOf(ps[i]), Rules(ps[i + 1..]));
    }
  }

  lemma RulesHead(ps: Permissions)
    requires ps != []
    ensures Rules(ps) == RulesOf(ps[0]) + Rules(ps[1..])
  {
  }

  lemma NoRules()
    ensures Rules([]) == []
  {
  }

  lemma Joined(a: seq<Rule>, b: seq<Rule>, c: seq<Rule>, d: seq<Rule>)
    ensures a + (b + c + d) == (a + b) + c + d
    ensures b + d == [] + b + d
  {
  }

  ghost predicate StarsDeny(ps: Permissions) {
    forall i :: 0 <= i < |ps| && ps[i].name == "*" ==> !Exposed(ps, i)
  }

  /** After the denies of a protected permission, all that applies denies exactly if every later `*` does. */
  lemma AfterIsStars(name: string, denied: seq<Entry>, post: Permissions, e: Rule)
    requires e.permission == name && name != "*" && IsObject(post)
    requires forall i :: 0 <= i < |post| ==> post[i].name != name
    requires forall d :: d in denied ==> d.action == DENY
    ensures AllDeny(Canonical(RulesIn(name, denied) + Rules(post)), e) <==> StarsDeny(post)
  {
    hide IsObject, Canonical, Rules, RulesIn, KeyIn, Key;
    var after := RulesIn(name, denied) + Rules(post);
    CanonicalSubset(after);
    forall r | r in RulesIn(name, denied) ensures r.permission == name && r.action == DENY {
      var n := RulesInOrigin(name, denied, r);
      assert denied[n] in denied;
    }
    if StarsDeny(post) {
      forall r | r in Canonical(after) && Applicable(r, e) ensures r.action == DENY {
        if r !in RulesIn(name, denied) {
          var i, n := RulesOrigin(post, r);
          RuleStays(RulesIn(name, denied), post, i, n);
          assert !Exposed(post, i);
          assert !ExposedAt(post, i, n);
        }
      }
    } else {
      var i :| 0 <= i < |post| && post[i].name == "*" && Exposed(post, i);
      var n :| 0 <= n < |Entries(post[i].permission)| && ExposedAt(post, i, n);
      RuleStays(RulesIn(name, denied), post, i, n);
      assert RuleAt(post, i, n) in Canonical(after) && Applicable(RuleAt(post, i, n), e);
    }
  }

  lemma UniqueSuffix(head: seq<Entry>, d: Entry, tail: seq<Entry>)
    requires UniquePatterns(head + [d] + tail)
    ensures UniquePatterns(tail) && forall x :: x in tail ==> x.pattern != d.pattern
  {
    var all, n := head + [d] + tail, |head|;
    assert all[n] == d && forall i :: 0 <= i < |tail| ==> all[n + 1 + i] == tail[i];
    forall i, j | 0 <= i < j < |tail| ensures tail[i].pattern != tail[j].pattern {
      assert all[n + 1 + i].pattern != all[n + 1 + j].pattern;
    }
    forall x | x in tail ensures x.pattern != d.pattern {
      var i :| 0 <= i < |tail| && tail[i] == x;
      assert all[n].pattern != all[n + 1 + i].pattern;
    }
  }

  lemma RulesInSplit(name: string, head: seq<Entry>, d: Entry, tail: seq<Entry>)
    ensures RulesIn(name, head + [d] + tail) == RulesIn(name, head) + [Rule(name, d.pattern, d.action)] + RulesIn(name, tail)
  {
  }

  lemma RulesInOrigin(name: string, entries: seq<Entry>, r: Rule) returns (n: nat)
    requires r in RulesIn(name, entries)
    ensures n < |entries| && r == Rule(name, entries[n].pattern, entries[n].action)
  {
    n :| 0 <= n < |entries| && RulesIn(name, entries)[n] == r;
  }

  /** The check for one denied pattern of an overlaid object, which stands between `head` and the denies `tail`. */
  lemma TerminalAt(o: Permissions, at: nat, head: seq<Entry>, tail: seq<Entry>, pattern: string)
    requires IsObject(o) && at < |o| && o[at].name != "*" && Decodable(Rule(o[at].name, pattern, DENY))
    requires Entries(o[at].permission) == head + [Entry(pattern, DENY)] + tail
    requires forall d :: d in tail ==> d.action == DENY
    ensures TerminalDeny(Canonical(Rules(o)), Rule(o[at].name, pattern, DENY)) <==> StarsDeny(o[at + 1..])
  {
    hide TerminalDeny, Canonical, StarsDeny, RulesIn, AllDeny;
    var name, post, e := o[at].name, o[at + 1..], Rule(o[at].name, pattern, DENY);
    UniqueSuffix(head, Entry(pattern, DENY), tail);
    RulesSplit(o, at);
    RulesInSplit(name, head, Entry(pattern, DENY), tail);
    var before, after := Rules(o[..at]) + RulesIn(name, head), RulesIn(name, tail) + Rules(post);
    Regroup(Rules(o[..at]), RulesIn(name, head), e, RulesIn(name, tail), Rules(post));
    assert Rules(o) == before + [e] + after;
    PostObject(o, at, post);
    forall r | r in after ensures !Matches(r, e) {
      if r in RulesIn(name, tail) {
        var n := RulesInOrigin(name, tail, r);
      } else {
        var i, n := RulesOrigin(post, r);
      }
    }
    TerminalSplit(before, e, after, e);
    AfterIsStars(name, tail, post, e);
  }

  lemma Regroup(a: seq<Rule>, h: seq<Rule>, e: Rule, t: seq<Rule>, z: seq<Rule>)
    ensures a + (h + [e] + t) + z == (a + h) + [e] + (t + z)
  {
  }

  lemma PostObject(o: Permissions, at: nat, post: Permissions)
    requires IsObject(o) && at < |o| && post == o[at + 1..]
    ensures IsObject(post)
    ensures forall i :: 0 <= i < |post| ==> post[i].name != o[at].name
  {
    assert forall i :: 0 <= i < |post| ==> post[i] == o[at + 1 + i];
  }

  // ----- main results -----

  ghost predicate Expected(table: seq<Denied>, e: Rule) {
    exists t :: 0 <= t < |table| && e.permission == table[t].name && e.pattern in table[t].patterns && e.action == DENY
  }

  lemma ExpectedRules(table: seq<Denied>, e: Rule)
    requires TableWellFormed(table)
    ensures e in Rules(Overlaid([], table)) <==> Expected(table, e)
  {
    hide OverlayShape, Rules, Overlaid;
    OverlaidShape([], table);
    if e in Rules(Overlaid([], table)) {
      RuleIsExpected(table, Overlaid([], table), e);
    }
    if Expected(table, e) {
      ExpectedIsRule(table, Overlaid([], table), e);
    }
  }

  lemma RuleIsExpected(table: seq<Denied>, o: Permissions, e: Rule)
    requires OverlayShape([], table, o) && e in Rules(o)
    ensures Expected(table, e)
  {
    hide DenyAll, Rules, UniquePatterns, Entries;
    var i, n := RulesOrigin(o, e);
    assert Protected(table, o[i].name);
    var t :| 0 <= t < |table| && table[t].name == o[i].name;
    var at := RowAt([], table, o, t);
    SameName(o, i, at, [], table);
    EmptyKept(table[t].patterns);
    assert Entries(o[i].permission)[n] in Entries(DenyAll(Neither, table[t].patterns));
  }

  lemma ExpectedIsRule(table: seq<Denied>, o: Permissions, e: Rule)
    requires OverlayShape([], table, o) && Expected(table, e)
    ensures e in Rules(o)
  {
    hide DenyAll, Rules, OverlayShape;
    var t :| 0 <= t < |table| && e.permission == table[t].name && e.pattern in table[t].patterns && e.action == DENY;
    var at := RowAt([], table, o, t);
    var kept, denied := DenyAllShape(Neither, table[t].patterns);
    var n :| 0 <= n < |denied| && denied[n] == Entry(e.pattern, DENY);
    assert (kept + denied)[|kept| + n] == denied[n];
    RulesContain(o, at, |kept| + n);
  }

  lemma {:induction false} EmptyKept(patterns: seq<string>)
    ensures forall e :: e in Entries(DenyAll(Neither, patterns)) ==> e.pattern in patterns && e.action == DENY
  {
    if patterns != [] {
      EmptyKept(patterns[..|patterns| - 1]);
      WithoutShape(Entries(DenyAll(Neither, patterns[..|patterns| - 1])), patterns[|patterns| - 1]);
    }
  }

  lemma ExpectedStay(table: seq<Denied>, e: Rule)
    requires TableWellFormed(table) && e in Rules(Overlaid([], table))
    ensures e in Canonical(Rules(Overlaid([], table)))
  {
    ExpectedRules(table, e);
    var rules := Rules(Overlaid([], table));
    forall r | r in rules && Key(r) == Key(e) ensures r == e {
      DecodableKey(e, r);
      ExpectedRules(table, r);
    }
    OnlyOfItsKeyStays(rules, e);
  }

  lemma {:induction false} OnlyOfItsKeyStays(rules: seq<Rule>, e: Rule)
    requires e in rules && forall r :: r in rules && Key(r) == Key(e) ==> r == e
    ensures e in Canonical(rules)
  {
    if e in rules[1..] {
      OnlyOfItsKeyStays(rules[1..], e);
    } else {
      assert rules[0] == e;
    }
  }

  /**
   The overlay passes the terminal check exactly when no inherited `*`, after a protected permission that was
   already there, has an entry other than a deny whose joined key no later rule repeats.
   */
  lemma OverlayTerminal(inherited: Permissions, table: seq<Denied>)
    requires IsObject(inherited) && TableWellFormed(table)
    ensures TerminalFor(Overlaid(inherited, table), table) <==> !Clashes(inherited, table)
  {
    hide TerminalDeny, Canonical, StarsDeny, Rules, IsObject, OverlayShape, Overlaid, Clashes;
    var o := Overlaid(inherited, table);
    OverlaidShape(inherited, table);
    assert !Protected(table, "*") by {
      assert forall i :: 0 <= i < |table| ==> RowWellFormed(table[i]);
    }
    OverlayClashes(inherited, table, o);
    ClashAfter(o, table);
    if !Clashes(o, table) {
      forall e | e in Canonical(Rules(Overlaid([], table))) ensures TerminalDeny(Canonical(Rules(o)), e) {
        NoClashTerminal(inherited, table, o, e);
      }
    } else {
      var at :| 0 <= at < |o| && Protected(table, o[at].name) && !StarsDeny(o[at + 1..]);
      var e := ClashNotTerminal(inherited, table, o, at);
    }
  }

  lemma NoClashTerminal(inherited: Permissions, table: seq<Denied>, o: Permissions, e: Rule)
    requires IsObject(inherited) && TableWellFormed(table) && OverlayShape(inherited, table, o)
    requires !Clashes(o, table) && e in Canonical(Rules(Overlaid([], table)))
    ensures TerminalDeny(Canonical(Rules(o)), e)
  {
    hide TerminalDeny, Canonical, StarsDeny, Rules, IsObject, OverlayShape, Overlaid, Clashes, TableWellFormed;
    CanonicalSubset(Rules(Overlaid([], table)));
    ExpectedRules(table, e);
    var t :| 0 <= t < |table| && e.permission == table[t].name && e.pattern in table[t].patterns && e.action == DENY;
    var at := TerminalForPattern(inherited, table, o, t, e.pattern);
    ClashAfter(o, table);
    assert Protected(table, o[at].name);
  }

  lemma ClashNotTerminal(inherited: Permissions, table: seq<Denied>, o: Permissions, at: nat) returns (e: Rule)
    requires IsObject(inherited) && TableWellFormed(table) && OverlayShape(inherited, table, o)
    requires at < |o| && Protected(table, o[at].name) && !StarsDeny(o[at + 1..])
    ensures e in Canonical(Rules(Overlaid([], table))) && !TerminalDeny(Canonical(Rules(o)), e)
  {
    hide TerminalDeny, Canonical, StarsDeny, Rules, IsObject, OverlayShape, Overlaid;
    var t :| 0 <= t < |table| && table[t].name == o[at].name;
    assert RowWellFormed(table[t]);
    e := Rule(table[t].name, table[t].patterns[0], DENY);
    assert Expected(table, e);
    ExpectedRules(table, e);
    ExpectedStay(table, e);
    var at' := TerminalForPattern(inherited, table, o, t, e.pattern);
    SameName(o, at, at', inherited, table);
  }

  lemma SameName(o: Permissions, i: nat, j: nat, inherited: Permissions, table: seq<Denied>)
    requires OverlayShape(inherited, table, o) && i < |o| && j < |o| && o[i].name == o[j].name
    ensures i == j
  {
  }

  /** Where a row of the table ends up in the overlaid object. */
  lemma RowAt(inherited: Permissions, table: seq<Denied>, o: Permissions, t: nat) returns (at: nat)
    requires OverlayShape(inherited, table, o) && t < |table|
    ensures at < |o| && o[at] == Named(table[t].name, DenyAll(Lookup(inherited, table[t].name), table[t].patterns))
  {
    hide DenyAll, Lookup;
    assert HoldsRow(inherited, table[t], o);
    at :| 0 <= at < |o| && o[at] == Named(table[t].name, DenyAll(Lookup(inherited, table[t].name), table[t].patterns));
  }

  /** For each pattern of a row: the check passes exactly if every later `*` denies. */
  lemma TerminalForPattern(
    inherited: Permissions, table: seq<Denied>, o: Permissions, t: nat, pattern: string) returns (at: nat)
    requires IsObject(inherited) && TableWellFormed(table) && OverlayShape(inherited, table, o)
    requires t < |table| && pattern in table[t].patterns
    ensures at < |o| && o[at].name == table[t].name
    ensures TerminalDeny(Canonical(Rules(o)), Rule(table[t].name, pattern, DENY)) <==> StarsDeny(o[at + 1..])
  {
    hide TerminalDeny, Canonical, StarsDeny, DenyAll, Lookup, UniquePatterns, Rules, Entries;
    var row := table[t];
    assert RowWellFormed(row);
    at := RowAt(inherited, table, o, t);
    LookupUnique(inherited, row.name);
    var kept, denied := DenyAllShape(Lookup(inherited, row.name), row.patterns);
    TerminalInShape(o, at, row.patterns, kept, denied, pattern);
  }

  lemma TerminalInShape(
    o: Permissions, at: nat, patterns: seq<string>, kept: seq<Entry>, denied: seq<Entry>, pattern: string)
    requires IsObject(o) && at < |o| && o[at].name != "*" && Decodable(Rule(o[at].name, pattern, DENY))
    requires DeniedShape(Entries(o[at].permission), patterns, kept, denied) && pattern in patterns
    ensures TerminalDeny(Canonical(Rules(o)), Rule(o[at].name, pattern, DENY)) <==> StarsDeny(o[at + 1..])
  {
    hide TerminalDeny, Canonical, StarsDeny, Rules, IsObject, UniquePatterns;
    var k :| 0 <= k < |denied| && denied[k] == Entry(pattern, DENY);
    var head, tail := kept + denied[..k], denied[k + 1..];
    assert kept + denied == head + [denied[k]] + tail;
    TerminalAt(o, at, head, tail, pattern);
  }

  /** A clash is a protected key with a later `*` that does not deny. */
  lemma ClashAfter(o: Permissions, table: seq<Denied>)
    ensures Clashes(o, table) <==> exists at :: 0 <= at < |o| && Protected(table, o[at].name) && !StarsDeny(o[at + 1..])
  {
    hide Protected, Exposed;
    if i, j :| 0 <= i < j < |o| && Protected(table, o[i].name) && o[j].name == "*" && Exposed(o, j) {
      ExposedAfter(o, i + 1, j - i - 1);
      assert !StarsDeny(o[i + 1..]);
    }
    if at :| 0 <= at < |o| && Protected(table, o[at].name) && !StarsDeny(o[at + 1..]) {
      var post := o[at + 1..];
      var k :| 0 <= k < |post| && post[k].name == "*" && Exposed(post, k);
      ExposedAfter(o, at + 1, k);
      assert o[at + 1 + k] == post[k];
    }
  }

  lemma ExposedAfter(o: Permissions, from: nat, k: nat)
    requires from + k < |o|
    ensures o[from..][k] == o[from + k] && (Exposed(o[from..], k) <==> Exposed(o, from + k))
  {
    hide KeyIn, Key, Rules;
    var rest := o[from..];
    assert rest[k + 1..] == o[from + k + 1..] && rest[k] == o[from + k];
    if Exposed(rest, k) {
      var n :| 0 <= n < |Entries(rest[k].permission)| && ExposedAt(rest, k, n);
      assert ExposedAt(o, from + k, n);
    }
    if Exposed(o, from + k) {
      var n :| 0 <= n < |Entries(o[from + k].permission)| && ExposedAt(o, from + k, n);
      assert ExposedAt(rest, k, n);
    }
  }

  lemma {:induction false} WithArgumentsNulFree(patterns: seq<string>)
    requires forall p :: p in patterns ==> NulFree(p)
    ensures forall p :: p in WithArguments(patterns) ==> NulFree(p)
  {
    if patterns != [] {
      WithArgumentsNulFree(patterns[1..]);
      assert patterns[0] in patterns;
      assert NulFree(patterns[0] + " *");
    }
  }

  lemma ExecutablesNulFree(i: nat)
    requires i < |EXECUTABLES|
    ensures NulFree(EXECUTABLES[i])
  {
  }

  lemma ContainingNulFree(i: nat)
    requires i < |CONTAINING|
    ensures NulFree(CONTAINING[i])
  {
  }

  lemma RowFromPatterns(name: string, patterns: seq<string>, more: seq<string>)
    requires name != "*" && NulFree(name) && more != []
    requires forall i :: 0 <= i < |patterns| ==> NulFree(patterns[i])
    requires forall i :: 0 <= i < |more| ==> NulFree(more[i])
    ensures RowWellFormed(Denied(name, WithArguments(patterns) + more))
  {
    WithArgumentsNulFree(patterns);
  }

  lemma BashWellFormed()
    ensures RowWellFormed(BASH) && BASH.name[0] == 'b'
  {
    hide WithArguments, RowWellFormed;
    assert |CONTAINING| == 3;
    hide EXECUTABLES, CONTAINING;
    forall i | 0 <= i < |EXECUTABLES| ensures NulFree(EXECUTABLES[i]) {
      ExecutablesNulFree(i);
    }
    forall i | 0 <= i < |CONTAINING| ensures NulFree(CONTAINING[i]) {
      ContainingNulFree(i);
    }
    RowFromPatterns("bash", EXECUTABLES, CONTAINING);
  }

  lemma CodexWellFormed()
    ensures RowWellFormed(CODEX) && CODEX.name[0] == 'c'
  {
  }

  lemma AgentLaunchWellFormed()
    ensures RowWellFormed(AGENT_LAUNCH) && AGENT_LAUNCH.name[0] == 'a'
  {
  }

  lemma SkillWellFormed()
    ensures RowWellFormed(SKILL) && SKILL.name[0] == 's'
  {
  }

  lemma ReadWellFormed()
    ensures RowWellFormed(READ) && READ.name[0] == 'r'
  {
  }

  lemma FleetWellFormed()
    ensures TableWellFormed(FLEET)
  {
    hide BASH, CODEX, AGENT_LAUNCH, SKILL, READ, RowWellFormed;
    BashWellFormed();
    CodexWellFormed();
    AgentLaunchWellFormed();
    SkillWellFormed();
    ReadWellFormed();
  }

  /** The fleet's overlay passes its own check exactly when no inherited `*` clashes with an inherited protected key. */
  lemma FleetOverlayTerminal(inherited: Permissions)
    requires IsObject(inherited)
    ensures FleetBrowserDenyRulesAreTerminal(WithFleetBrowserDenies(inherited)) <==> !Clashes(inherited, FLEET)
  {
    hide FLEET;
    FleetWellFormed();
    OverlayTerminal(inherited, FLEET);
  }

  /** With no permission name that starts with `*` and U+0000, every non-deny under a later `*` clashes. */
  lemma UnambiguousClash(ps: Permissions, table: seq<Denied>)
    requires IsObject(ps) && StarUnambiguous(ps)
    ensures Clashes(ps, table) <==> PlainClash(ps, table)
  {
    hide Protected, Rules, Entries, UniquePatterns;
    forall j: nat | j < |ps| && ps[j].name == "*" ensures Exposed(ps, j) <==> NonDeny(ps[j].permission) {
      forall n: nat | n < |Entries(ps[j].permission)|
        ensures ExposedAt(ps, j, n) <==> Entries(ps[j].permission)[n].action != DENY
      {
        StarKeyIsFree(ps, j, Entries(ps[j].permission)[n].pattern);
      }
    }
  }

  lemma StarKeyIsFree(ps: Permissions, j: nat, pattern: string)
    requires IsObject(ps) && StarUnambiguous(ps) && j < |ps| && ps[j].name == "*"
    ensures !KeyIn("*" + "\0" + pattern, Rules(ps[j + 1..]))
  {
    hide Rules, UniquePatterns, Entries;
    if r :| r in Rules(ps[j + 1..]) && Key(r) == "*" + "\0" + pattern {
      var i, _ := RulesOrigin(ps[j + 1..], r);
      assert ps[j + 1..][i] == ps[j + 1 + i];
      StarPrefix(r.permission, r.pattern);
    }
  }

  /**
   Names may hold U+0000, and then the check can pass over a clash: here an allow under `*`, after a protected
   key, is dropped because a permission called `*` U+0000 `a` has a rule with the same joined key.
   */
  lemma HiddenClash() returns (inherited: Permissions)
    ensures IsObject(inherited) && PlainClash(inherited, FLEET)
    ensures FleetBrowserDenyRulesAreTerminal(WithFleetBrowserDenies(inherited))
  {
    hide FLEET, FleetBrowserDenyRulesAreTerminal, WithFleetBrowserDenies, Protected, Rules;
    var allow, deny := Entry("a\0b", Word("allow")), Entry("b", DENY);
    var bash, star, other := Named("bash", Table([])), Named("*", Table([allow])), Named("*\0a", Table([deny]));
    inherited := [bash, star, other];
    assert |bash.name| == 4 && |star.name| == 1 && |other.name| == 3;
    BashIsProtected();
    FleetWellFormed();
    assert NonDeny(star.permission) by {
      assert Entries(star.permission)[0].action != DENY;
    }
    assert PlainClash(inherited, FLEET) by {
      assert Protected(FLEET, inherited[0].name) && inherited[1].name == "*";
    }
    assert inherited[2..] == [other];
    RulesContain([other], 0, 0);
    StarKeyRepeated(allow.pattern, deny.pattern);
    assert KeyIn(Key(RuleAt(inherited, 1, 0)), Rules(inherited[2..])) by {
      assert Key(RuleAt([other], 0, 0)) == Key(RuleAt(inherited, 1, 0));
    }
    assert !Exposed(inherited, 1);
    FleetOverlayTerminal(inherited);
  }

  lemma StarKeyRepeated(a: string, b: string)
    requires a == "a\0" + b
    ensures "*" + "\0" + a == "*\0a" + "\0" + b
  {
  }

  lemma BashIsProtected()
    ensures Protected(FLEET, "bash")
  {
    hide WithArguments;
    assert FLEET[0].name == "bash";
  }
}
