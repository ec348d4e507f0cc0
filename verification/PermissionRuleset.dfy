/**
 A resolved agent lists its permissions as a sequence of rules; the configuration wants an object. The conversion
 keeps what each key was last given, but not always the order, and order decides which rule applies.
 */
module PermissionRuleset {
  import opened Basics
  import opened DenyOverlay

  /** An item of the list, a field being there if it is a string; anything that is no object is junk. */
  datatype Item = Item(permission: Option<string>, pattern: Option<string>, action: Option<string>) | Junk

  /** An item that has all three, none of them empty. */
  datatype Given = Given(permission: string, pattern: string, action: string)

  predicate Filled(s: Option<string>) {
    s.Some? && s.value != ""
  }

  predicate Usable(i: Item) {
    i.Item? && Filled(i.permission) && Filled(i.pattern) && Filled(i.action)
  }

  function GivenOf(items: seq<Item>): seq<Given> {
    if items == [] then []
    else
      var last := items[|items| - 1];
      GivenOf(items[..|items| - 1])
      + if Usable(last) then [Given(last.permission.value, last.pattern.value, last.action.value)] else []
  }

  function RuleOf(g: Given): Rule {
    Rule(g.permission, g.pattern, Word(g.action))
  }

  function RulesGiven(gs: seq<Given>): seq<Rule> {
    seq(|gs|, i requires 0 <= i < |gs| => RuleOf(gs[i]))
  }

  /** Assignment to a key: a present one keeps its place, a new one goes last. */
  function PutEntry(entries: seq<Entry>, pattern: string, action: Action): seq<Entry> {
    if entries == [] then [Entry(pattern, action)]
    else if entries[0].pattern == pattern then [Entry(pattern, action)] + entries[1..]
    else [entries[0]] + PutEntry(entries[1..], pattern, action)
  }

  function Changed(current: Permission, g: Given): Permission {
    match current
    case Plain(action) =>
      if g.pattern == "*" then Plain(g.action) else Table([Entry("*", Word(action)), Entry(g.pattern, Word(g.action))])
    case Table(entries) => Table(PutEntry(entries, g.pattern, Word(g.action)))
    case Neither => if g.pattern == "*" then Plain(g.action) else Table([Entry(g.pattern, Word(g.action))])
  }

  function Config(gs: seq<Given>): Permissions {
    if gs == [] then []
    else
      var before, last := Config(gs[..|gs| - 1]), gs[|gs| - 1];
      Put(before, last.permission, Changed(Lookup(before, last.permission), last))
  }

  /** The object built item by item. */
  method ConfigPermissionFromRuleset(items: seq<Item>) returns (permission: Permissions)
    ensures permission == Config(GivenOf(items))
    ensures forall r :: r in Rules(permission) <==> LastGiven(GivenOf(items), r.permission, r.pattern) == Some(r.action)
  {
    hide Config, GivenOf, Put, PutEntry, LastGiven, Rules, Lookup;
    permission := [];
    var n := 0;
    assert items[..0] == [];
    NothingGiven();
    while n < |items|
      invariant 0 <= n <= |items|
      invariant permission == Config(GivenOf(items[..n]))
    {
      var item := items[n];
      GivenStep(items, n);
      if Usable(item) {
        var name, pattern, action := item.permission.value, item.pattern.value, item.action.value;
        ConfigStep(GivenOf(items[..n]), Given(name, pattern, action));
        var current := Lookup(permission, name);
        if current.Plain? {
          permission := Put(permission, name, if pattern == "*" then Plain(action)
                                              else Table([Entry("*", Word(current.action)), Entry(pattern, Word(action))]));
        } else if current.Table? {
          permission := Put(permission, name, Table(PutEntry(current.entries, pattern, Word(action))));
        } else if pattern == "*" {
          permission := Put(permission, name, Plain(action));
        } else {
          permission := Put(permission, name, Table([Entry(pattern, Word(action))]));
        }
      }
      n := n + 1;
    }
    assert items[..n] == items;
    forall r ensures r in Rules(permission) <==> LastGiven(GivenOf(items), r.permission, r.pattern) == Some(r.action) {
      ConfigMeaning(GivenOf(items), r);
    }
  }

  lemma NothingGiven()
    ensures GivenOf([]) == [] && Config([]) == []
  {
  }

  lemma GivenStep(items: seq<Item>, n: nat)
    requires n < |items|
    ensures var i := items[n];
            GivenOf(items[..n + 1]) ==
            if Usable(i) then GivenOf(items[..n]) + [Given(i.permission.value, i.pattern.value, i.action.value)]
            else GivenOf(items[..n])
  {
    assert items[..n + 1][..n] == items[..n];
  }

  lemma ConfigStep(gs: seq<Given>, g: Given)
    ensures Config(gs + [g]) == Added(Config(gs), g)
  {
    assert (gs + [g])[..|gs|] == gs;
  }

  // ----- what one item changes -----

  /** An object whose every permission says something. */
  predicate Settled(ps: Permissions) {
    IsObject(ps) && forall i :: 0 <= i < |ps| ==> Entries(ps[i].permission) != []
  }

  lemma {:induction false} PutEntryShape(entries: seq<Entry>, pattern: string, action: Action) returns (at: nat)
    ensures at <= |entries|
    ensures PutEntry(entries, pattern, action) ==
            if at == |entries| then entries + [Entry(pattern, action)] else entries[at := Entry(pattern, action)]
    ensures at < |entries| ==> entries[at].pattern == pattern
    ensures forall i :: 0 <= i < at ==> entries[i].pattern != pattern
  {
    if entries == [] || entries[0].pattern == pattern {
      at := 0;
    } else {
      at := PutEntryShape(entries[1..], pattern, action);
      at := at + 1;
      assert entries == [entries[0]] + entries[1..];
    }
  }

  /** Whatever form the permission had, its entries change as by an assignment to the pattern. */
  lemma ChangedEntries(current: Permission, g: Given)
    ensures Entries(Changed(current, g)) == PutEntry(Entries(current), g.pattern, Word(g.action))
  {
  }

  lemma PutEntryUnique(entries: seq<Entry>, pattern: string, action: Action)
    requires UniquePatterns(entries)
    ensures UniquePatterns(PutEntry(entries, pattern, action)) && PutEntry(entries, pattern, action) != []
  {
    var at := PutEntryShape(entries, pattern, action);
  }

  lemma {:induction false} LookupAt(ps: Permissions, at: nat)
    requires IsObject(ps) && at < |ps|
    ensures Lookup(ps, ps[at].name) == ps[at].permission
  {
    if at > 0 {
      assert ps[0].name != ps[at].name;
      var rest := ps[1..];
      assert forall i :: 0 <= i < |rest| ==> rest[i] == ps[i + 1];
      LookupAt(rest, at - 1);
    }
  }

  lemma {:induction false} LookupAbsent(ps: Permissions, name: string)
    requires forall i :: 0 <= i < |ps| ==> ps[i].name != name
    ensures Lookup(ps, name) == Neither
  {
    if ps != [] {
      LookupAbsent(ps[1..], name);
    }
  }

  function Added(ps: Permissions, g: Given): Permissions {
    Put(ps, g.permission, Changed(Lookup(ps, g.permission), g))
  }

  /** One item touches one permission: the one of its name, or a new one at the end. */
  lemma AddedShape(ps: Permissions, g: Given) returns (at: nat)
    requires Settled(ps)
    ensures var o := Added(ps, g);
            && Settled(o) && at < |o| && o[at].name == g.permission && at <= |ps|
            && (at < |ps| ==> ps[at].name == g.permission && |o| == |ps|)
            && (at == |ps| ==> |o| == |ps| + 1 && forall i :: 0 <= i < |ps| ==> ps[i].name != g.permission)
            && (forall i :: 0 <= i < |ps| && i != at ==> o[i] == ps[i])
            && Entries(o[at].permission) ==
               PutEntry(if at < |ps| then Entries(ps[at].permission) else [], g.pattern, Word(g.action))
  {
    var current := Lookup(ps, g.permission);
    at := PutShape(ps, g.permission, Changed(current, g));
    if at < |ps| {
      LookupAt(ps, at);
    } else {
      LookupAbsent(ps, g.permission);
    }
    ChangedEntries(current, g);
    var was := if at < |ps| then Entries(ps[at].permission) else [];
    PutEntryUnique(was, g.pattern, Word(g.action));
    hide Changed, Put, Lookup, PutEntry, Settled, Placed, IsObject, UniquePatterns;
    PlacedSettled(ps, Named(g.permission, Changed(current, g)), at);
  }

  lemma PlacedSettled(ps: Permissions, row: Named, at: nat)
    requires Settled(ps) && UniquePatterns(Entries(row.permission)) && Entries(row.permission) != [] && at <= |ps|
    requires if at < |ps| then ps[at].name == row.name else forall i :: 0 <= i < |ps| ==> ps[i].name != row.name
    ensures Settled(Placed(ps, row, at))
    ensures var o := Placed(ps, row, at);
            && |o| == (if at == |ps| then |ps| + 1 else |ps|) && o[at] == row
            && forall i :: 0 <= i < |ps| && i != at ==> o[i] == ps[i]
  {
    hide IsObject, UniquePatterns, Entries;
    PlacedIsObject(ps, row, at);
  }

  lemma {:induction false} ConfigSettled(gs: seq<Given>)
    ensures Settled(Config(gs))
  {
    if gs != [] {
      ConfigSettled(gs[..|gs| - 1]);
      var at := AddedShape(Config(gs[..|gs| - 1]), gs[|gs| - 1]);
    }
  }

  // ----- the last word on each key -----

  /** What the list gave a permission and pattern last. */
  function LastGiven(gs: seq<Given>, permission: string, pattern: string): Option<Action> {
    if gs == [] then None
    else
      var last := gs[|gs| - 1];
      if last.permission == permission && last.pattern == pattern then Some(Word(last.action))
      else LastGiven(gs[..|gs| - 1], permission, pattern)
  }

  lemma AddedRules(ps: Permissions, g: Given, r: Rule)
    requires Settled(ps)
    ensures r in Rules(Added(ps, g)) <==> r == RuleOf(g) || (r in Rules(ps) && !Matches(r, RuleOf(g)))
  {
    hide PutEntry, Added, Rules;
    var o := Added(ps, g);
    var at := AddedShape(ps, g);
    var was := if at < |ps| then Entries(ps[at].permission) else [];
    var place := PutEntryShape(was, g.pattern, Word(g.action));
    if r in Rules(o) {
      var i, n := RulesOrigin(o, r);
      if i != at {
        RulesContain(ps, i, n);
        assert o[i].name != o[at].name;
      } else if n != place {
        assert was[n] == Entries(o[at].permission)[n];
        RulesContain(ps, i, n);
        assert UniquePatterns(Entries(o[at].permission));
      }
    }
    if r == RuleOf(g) {
      RulesContain(o, at, place);
    } else if r in Rules(ps) && !Matches(r, RuleOf(g)) {
      var i, n := RulesOrigin(ps, r);
      if i == at {
        assert n != place;
        assert was[n] == Entries(o[at].permission)[n];
      }
      RulesContain(o, i, n);
    }
  }

  /** The object holds for each permission and pattern what the list gave it last, and nothing else. */
  lemma {:induction false} ConfigMeaning(gs: seq<Given>, r: Rule)
    ensures r in Rules(Config(gs)) <==> LastGiven(gs, r.permission, r.pattern) == Some(r.action)
  {
    if gs != [] {
      var before := gs[..|gs| - 1];
      ConfigMeaning(before, r);
      ConfigSettled(before);
      AddedRules(Config(before), gs[|gs| - 1], r);
      hide Changed, Put, Rules, Lookup;
    }
  }

  // ----- the order -----

  /** No key twice, and the rules of one permission stand together. */
  predicate Grouped(rules: seq<Rule>) {
    && (forall i, j :: 0 <= i < j < |rules| ==> !Matches(rules[i], rules[j]))
    && (forall i, j, k :: 0 <= i < j < k < |rules| && rules[i].permission == rules[k].permission ==>
                            rules[j].permission == rules[i].permission)
  }

  lemma GroupedJoin(name: string, entries: seq<Entry>, rest: seq<Rule>)
    requires UniquePatterns(entries) && Grouped(rest) && forall r :: r in rest ==> r.permission != name
    ensures Grouped(RulesIn(name, entries) + rest)
  {
  }

  lemma {:induction false} ObjectGrouped(ps: Permissions)
    requires IsObject(ps)
    ensures Grouped(Rules(ps))
  {
    if ps != [] {
      var rest := ps[1..];
      assert forall i :: 0 <= i < |rest| ==> rest[i] == ps[i + 1];
      ObjectGrouped(rest);
      forall r | r in Rules(rest) ensures r.permission != ps[0].name {
        var i, n := RulesOrigin(rest, r);
      }
      GroupedJoin(ps[0].name, Entries(ps[0].permission), Rules(rest));
    }
  }

  lemma RulesEnd(ps: Permissions)
    requires ps != []
    ensures Rules(ps) == Rules(ps[..|ps| - 1]) + RulesOf(ps[|ps| - 1])
  {
    RulesSplit(ps, |ps| - 1);
    assert ps[|ps|..] == [] && Rules([]) == [];
  }

  /** In a grouped list a permission that comes again brings a new pattern. */
  lemma AgainIsNew(ps: Permissions, at: nat, g: Given, n: nat)
    requires at < |ps| && ps[at].name == g.permission && Grouped(Rules(ps) + [RuleOf(g)])
    requires n < |Entries(ps[at].permission)|
    ensures Entries(ps[at].permission)[n].pattern != g.pattern
  {
    var e, rules := Entries(ps[at].permission)[n], Rules(ps);
    RulesContain(ps, at, n);
    var i :| 0 <= i < |rules| && rules[i] == Rule(g.permission, e.pattern, e.action);
    var all := rules + [RuleOf(g)];
    assert !Matches(all[i], all[|rules|]);
  }

  /** And it is the last one so far. */
  lemma AgainIsLast(ps: Permissions, at: nat, g: Given)
    requires Settled(ps) && at < |ps| && ps[at].name == g.permission
    requires Grouped(Rules(ps) + [RuleOf(g)])
    ensures at == |ps| - 1
  {
    var rules := Rules(ps);
    var all := rules + [RuleOf(g)];
    var first := Entries(ps[at].permission)[0];
    RulesContain(ps, at, 0);
    var i :| 0 <= i < |rules| && rules[i] == Rule(g.permission, first.pattern, first.action);
    LastOfRules(ps);
    SameName(all, i, |rules| - 1, |rules|);
    NameOnce(ps, at, |ps| - 1);
  }

  lemma SameName(rules: seq<Rule>, i: int, j: int, k: int)
    requires Grouped(rules) && 0 <= i <= j < k < |rules| && rules[i].permission == rules[k].permission
    ensures rules[j].permission == rules[i].permission
  {
  }

  lemma NameOnce(ps: Permissions, i: int, j: int)
    requires IsObject(ps) && 0 <= i <= j < |ps| && ps[i].name == ps[j].name
    ensures i == j
  {
  }

  lemma LastOfRules(ps: Permissions)
    requires ps != [] && Entries(ps[|ps| - 1].permission) != []
    ensures Rules(ps) != [] && Rules(ps)[|Rules(ps)| - 1].permission == ps[|ps| - 1].name
  {
    RulesEnd(ps);
  }

  lemma AddedLast(ps: Permissions, g: Given)
    requires Settled(ps) && Grouped(Rules(ps) + [RuleOf(g)])
    ensures Rules(Added(ps, g)) == Rules(ps) + [RuleOf(g)]
  {
    hide *;
    var o := Added(ps, g);
    var at := AddedShape(ps, g);
    if at == |ps| {
      assert o[..|ps|] == ps;
      AddedAtEnd(ps, o, g);
    } else {
      AgainIsLast(ps, at, g);
      assert o[..at] == ps[..at];
      EntryIsNew(ps, at, g);
      AddedToLast(ps, o, g);
    }
  }

  lemma AddedAtEnd(ps: Permissions, o: Permissions, g: Given)
    requires |o| == |ps| + 1 && o[..|ps|] == ps && o[|ps|].name == g.permission
    requires Entries(o[|ps|].permission) == PutEntry([], g.pattern, Word(g.action))
    ensures Rules(o) == Rules(ps) + [RuleOf(g)]
  {
    hide Rules;
    RulesEnd(o);
    assert RulesOf(o[|ps|]) == [RuleOf(g)];
  }

  lemma AddedToLast(ps: Permissions, o: Permissions, g: Given)
    requires ps != [] && |o| == |ps| && o[..|ps| - 1] == ps[..|ps| - 1]
    requires ps[|ps| - 1].name == o[|ps| - 1].name == g.permission
    requires Entries(o[|ps| - 1].permission) == Entries(ps[|ps| - 1].permission) + [Entry(g.pattern, Word(g.action))]
    ensures Rules(o) == Rules(ps) + [RuleOf(g)]
  {
    hide Rules, RulesIn, Entries;
    RulesEnd(o);
    RulesEnd(ps);
    EntryAppended(g.permission, Entries(ps[|ps| - 1].permission), g);
    var a, b := Rules(ps[..|ps| - 1]), RulesOf(ps[|ps| - 1]);
    assert a + (b + [RuleOf(g)]) == (a + b) + [RuleOf(g)];
  }

  lemma EntryIsNew(ps: Permissions, at: nat, g: Given)
    requires at < |ps| && ps[at].name == g.permission && Grouped(Rules(ps) + [RuleOf(g)])
    ensures var was := Entries(ps[at].permission);
            PutEntry(was, g.pattern, Word(g.action)) == was + [Entry(g.pattern, Word(g.action))]
  {
    var was := Entries(ps[at].permission);
    var place := PutEntryShape(was, g.pattern, Word(g.action));
    if place < |was| {
      AgainIsNew(ps, at, g, place);
    }
  }

  lemma EntryAppended(name: string, entries: seq<Entry>, g: Given)
    ensures RulesIn(name, entries + [Entry(g.pattern, Word(g.action))]) ==
            RulesIn(name, entries) + [Rule(name, g.pattern, Word(g.action))]
  {
  }

  lemma {:induction false} GroupedStays(gs: seq<Given>)
    requires Grouped(RulesGiven(gs))
    ensures Rules(Config(gs)) == RulesGiven(gs)
  {
    if gs != [] {
      var before, last := gs[..|gs| - 1], gs[|gs| - 1];
      var rules := RulesGiven(gs);
      assert RulesGiven(before) + [RuleOf(last)] == rules;
      assert forall i :: 0 <= i < |before| ==> RulesGiven(before)[i] == rules[i];
      GroupedStays(before);
      ConfigSettled(before);
      AddedLast(Config(before), last);
    }
  }

  /** The object lists the rules as they were given exactly if no key came twice and no permission in two places. */
  lemma OrderKeptExactly(gs: seq<Given>)
    ensures Rules(Config(gs)) == RulesGiven(gs) <==> Grouped(RulesGiven(gs))
  {
    ConfigSettled(gs);
    ObjectGrouped(Config(gs));
    if Grouped(RulesGiven(gs)) {
      GroupedStays(gs);
    }
  }

  /** So an object of words written out as rules is read back with the same rules in the same order. */
  lemma RulesReadBack(ps: Permissions, gs: seq<Given>)
    requires IsObject(ps) && RulesGiven(gs) == Rules(ps)
    ensures Rules(Config(gs)) == Rules(ps)
  {
    ObjectGrouped(ps);
    OrderKeptExactly(gs);
  }

  /** A rule given again takes effect where it was first given: here the allow that came last is put before the deny. */
  lemma LastRuleMovesForward()
    ensures var gs := [Given("bash", "*", "allow"), Given("bash", "git *", "deny"), Given("bash", "*", "allow")];
            var allow, deny := Rule("bash", "*", Word("allow")), Rule("bash", "git *", Word("deny"));
            && Canonical(RulesGiven(gs)) == [deny, allow]
            && Rules(Config(gs)) == [allow, deny]
  {
    var a, d := Given("bash", "*", "allow"), Given("bash", "git *", "deny");
    var gs, allow, deny := [a, d, a], RuleOf(a), RuleOf(d);
    assert gs[..2] == [a, d] && [a, d][..1] == [a] && [a][..0] == [];
    assert Config([a]) == [Named("bash", Plain("allow"))];
    var table := Table([Entry("*", Word("allow")), Entry("git *", Word("deny"))]);
    assert Config([a, d]) == [Named("bash", table)];
    assert Changed(table, a) == table;
    assert Config(gs) == [Named("bash", table)];
    assert Rules(Config(gs)) == [allow, deny];
    var rules := RulesGiven(gs);
    assert rules == [allow, deny, allow];
    KeysApart();
    assert rules[1..] == [deny, allow] && [deny, allow][1..] == [allow];
    var none: seq<Rule> := [allow][1..];
    assert none == [];
    assert Canonical([allow]) == [allow];
    assert !KeyIn(Key(deny), [allow]);
    assert Canonical([deny, allow]) == [deny, allow];
    assert rules[1] == deny && rules[2] == allow && allow in rules[1..];
    assert KeyIn(Key(allow), rules[1..]);
  }

  lemma KeysApart()
    ensures Key(Rule("bash", "*", Word("allow"))) != Key(Rule("bash", "git *", Word("deny")))
  {
    assert |Key(Rule("bash", "*", Word("allow")))| == 6 && |Key(Rule("bash", "git *", Word("deny")))| == 10;
  }

  // ----- the overlay over a converted list -----

  /**
   A protected permission is named before the first `*`, and `*` is last given something other than a deny that
   no later permission's rule replaces.
   */
  ghost predicate ListClashes(gs: seq<Given>, table: seq<Denied>) {
    && (exists i :: 0 <= i < |gs| && Protected(table, gs[i].permission) && StarFree(gs, i))
    && (exists pattern :: Grants(gs, pattern) && !Masked(gs, pattern))
  }

  /** `*` is last given something other than a deny for the pattern. */
  predicate Grants(gs: seq<Given>, pattern: string) {
    LastGiven(gs, "*", pattern).Some? && LastGiven(gs, "*", pattern) != Some(DENY)
  }

  /** Another permission, first named after the first `*`, is given a pattern with the same joined key. */
  ghost predicate Masked(gs: seq<Given>, pattern: string) {
    exists k :: 0 <= k < |gs| && MasksAt(gs, pattern, k)
  }

  ghost predicate MasksAt(gs: seq<Given>, pattern: string, k: nat)
    requires k < |gs|
  {
    && Key(RuleOf(gs[k])) == Key(Rule("*", pattern, DENY)) && gs[k].permission != "*"
    && forall n :: 0 <= n < |gs| && gs[n].permission == gs[k].permission ==> !StarFree(gs, n)
  }

  predicate StarFree(gs: seq<Given>, n: nat)
    requires n <= |gs|
  {
    forall k :: 0 <= k < n ==> gs[k].permission != "*"
  }

  /** The permissions stand in the order in which they were first named. */
  lemma {:induction false} NamedInOrder(gs: seq<Given>)
    ensures AllNamed(gs, Config(gs))
  {
    if gs != [] {
      var before, last := gs[..|gs| - 1], gs[|gs| - 1];
      NamedInOrder(before);
      hide *;
      NamedAdded(before, last);
      assert before + [last] == gs;
    }
  }

  lemma NamedAdded(before: seq<Given>, last: Given)
    requires AllNamed(before, Config(before))
    ensures AllNamed(before + [last], Config(before + [last]))
  {
    hide Config, AllNamed, Added;
    var was := Config(before);
    ConfigSettled(before);
    var at := AddedShape(was, last);
    ConfigStep(before, last);
    hide *;
    NamedStep(before, last, was, Added(was, last), at);
  }

  ghost predicate AllNamed(gs: seq<Given>, ps: Permissions) {
    && (forall i :: 0 <= i < |gs| ==> NamedBefore(ps, |ps|, gs[i].permission))
    && (forall n :: 0 <= n < |ps| ==> FirstNamed(gs, ps, n))
  }

  lemma NamedStep(before: seq<Given>, last: Given, was: Permissions, ps: Permissions, at: nat)
    requires AllNamed(before, was)
    requires at < |ps| && ps[at].name == last.permission && |was| <= |ps| <= |was| + 1 && (|ps| > |was| ==> at == |was|)
    requires forall i :: 0 <= i < |was| ==> ps[i].name == was[i].name
    ensures AllNamed(before + [last], ps)
  {
    var gs := before + [last];
    assert forall i :: 0 <= i < |before| ==> gs[i] == before[i];
    forall i | 0 <= i < |gs| ensures NamedBefore(ps, |ps|, gs[i].permission) {
      if i < |before| {
        assert NamedBefore(was, |was|, before[i].permission);
        var n :| 0 <= n < |was| && was[n].name == before[i].permission;
        assert ps[n].name == was[n].name;
      }
    }
    forall n | 0 <= n < |ps| ensures FirstNamed(gs, ps, n) {
      if n < |was| {
        assert FirstNamed(before, was, n);
        var i :| NamedFirstAt(before, was, n, i);
        forall k | 0 <= k < i ensures NamedBefore(ps, n, gs[k].permission) {
          assert NamedBefore(was, n, before[k].permission);
          var m :| 0 <= m < n && was[m].name == before[k].permission;
          assert ps[m].name == was[m].name;
        }
        assert NamedFirstAt(gs, ps, n, i);
      } else {
        assert n == |was|;
        forall k | 0 <= k < |before| ensures NamedBefore(ps, n, gs[k].permission) {
          assert NamedBefore(was, |was|, before[k].permission);
          var m :| 0 <= m < |was| && was[m].name == before[k].permission;
          assert ps[m].name == was[m].name;
        }
        assert NamedFirstAt(gs, ps, n, |before|);
      }
    }
  }

  /** The item that first named the n-th permission comes after items of earlier permissions only. */
  ghost predicate FirstNamed(gs: seq<Given>, ps: Permissions, n: nat)
    requires n < |ps|
  {
    exists i :: NamedFirstAt(gs, ps, n, i)
  }

  ghost predicate NamedFirstAt(gs: seq<Given>, ps: Permissions, n: nat, i: int)
    requires n < |ps|
  {
    && 0 <= i < |gs| && gs[i].permission == ps[n].name
    && (forall k :: 0 <= k < i ==> NamedBefore(ps, n, gs[k].permission))
  }

  ghost predicate NamedBefore(ps: Permissions, n: nat, name: string)
    requires n <= |ps|
  {
    exists m :: 0 <= m < n && ps[m].name == name
  }

  /**
   The overlay over a converted list passes the terminal check exactly if the list does not name a protected
   permission before its first `*` while giving some `*` pattern last something other than a deny that stays.
   */
  lemma ListOverlayTerminal(gs: seq<Given>)
    ensures FleetBrowserDenyRulesAreTerminal(WithFleetBrowserDenies(Config(gs))) <==> !ListClashes(gs, FLEET)
  {
    hide *;
    ConfigSettled(gs);
    SettledIsObject(Config(gs));
    FleetOverlayTerminal(Config(gs));
    StarUnprotected();
    ClashesAgree(gs, FLEET);
  }

  lemma SettledIsObject(ps: Permissions)
    requires Settled(ps)
    ensures IsObject(ps)
  {
  }

  lemma StarUnprotected()
    ensures !Protected(FLEET, "*")
  {
    hide FLEET;
    FleetWellFormed();
    assert forall i :: 0 <= i < |FLEET| ==> RowWellFormed(FLEET[i]);
  }

  lemma ClashesAgree(gs: seq<Given>, table: seq<Denied>)
    requires !Protected(table, "*")
    ensures Clashes(Config(gs), table) <==> ListClashes(gs, table)
  {
    var ps := Config(gs);
    ConfigSettled(gs);
    NamedInOrder(gs);
    hide Config, Protected, Exposed, Grants, Masked, UniquePatterns, Entries;
    if Clashes(ps, table) {
      var i, j :| 0 <= i < j < |ps| && Protected(table, ps[i].name) && ps[j].name == "*" && Exposed(ps, j);
      ExposedAgrees(gs, ps, j);
      assert FirstNamed(gs, ps, i);
      var k :| NamedFirstAt(gs, ps, i, k);
      assert StarFree(gs, k);
    }
    if ListClashes(gs, table) {
      var i :| 0 <= i < |gs| && Protected(table, gs[i].permission) && StarFree(gs, i);
      var pattern :| Grants(gs, pattern) && !Masked(gs, pattern);
      var j := StarPlace(gs, ps, pattern);
      ExposedAgrees(gs, ps, j);
      assert FirstNamed(gs, ps, j);
      var k :| NamedFirstAt(gs, ps, j, k);
      assert k > i;
      assert NamedBefore(ps, j, gs[i].permission);
      var m :| 0 <= m < j && ps[m].name == gs[i].permission;
    }
  }

  lemma StarPlace(gs: seq<Given>, ps: Permissions, pattern: string) returns (j: nat)
    requires ps == Config(gs) && Grants(gs, pattern)
    ensures j < |ps| && ps[j].name == "*"
  {
    var r := Rule("*", pattern, LastGiven(gs, "*", pattern).value);
    ConfigMeaning(gs, r);
    var n;
    j, n := RulesOrigin(ps, r);
  }

  /** What `*` has in the object is what it was last given, and what replaces it there is what masks it in the list. */
  lemma ExposedAgrees(gs: seq<Given>, ps: Permissions, j: nat)
    requires ps == Config(gs) && j < |ps| && ps[j].name == "*"
    ensures Exposed(ps, j) <==> exists pattern :: Grants(gs, pattern) && !Masked(gs, pattern)
  {
    hide Config, Masked, Rules, Key, KeyIn, LastGiven;
    ConfigSettled(gs);
    if Exposed(ps, j) {
      var n :| 0 <= n < |Entries(ps[j].permission)| && ExposedAt(ps, j, n);
      var r := RuleAt(ps, j, n);
      RulesContain(ps, j, n);
      ConfigMeaning(gs, r);
      assert Grants(gs, r.pattern);
      MaskedAgrees(gs, ps, j, r);
    }
    if pattern :| Grants(gs, pattern) && !Masked(gs, pattern) {
      var r := Rule("*", pattern, LastGiven(gs, "*", pattern).value);
      ConfigMeaning(gs, r);
      var i, n := RulesOrigin(ps, r);
      assert i == j && RuleAt(ps, j, n) == r;
      MaskedAgrees(gs, ps, j, r);
      assert ExposedAt(ps, j, n);
    }
  }

  lemma MaskedAgrees(gs: seq<Given>, ps: Permissions, j: nat, r: Rule)
    requires ps == Config(gs) && IsObject(ps) && j < |ps| && ps[j].name == "*" && r.permission == "*"
    ensures KeyIn(Key(r), Rules(ps[j + 1..])) <==> Masked(gs, r.pattern)
  {
    hide Config, Rules, Key, UniquePatterns, Entries, StarFree, LastGiven, AllNamed;
    assert Key(r) == Key(Rule("*", r.pattern, DENY)) by { SameKey(r, Rule("*", r.pattern, DENY)); }
    var later := ps[j + 1..];
    if KeyIn(Key(r), Rules(later)) {
      var x :| x in Rules(later) && Key(x) == Key(r);
      var i, n := RulesOrigin(later, x);
      assert later[i] == ps[j + 1 + i];
      RulesContain(ps, j + 1 + i, n);
      ConfigMeaning(gs, x);
      var k := GivenLast(gs, x);
      SameKey(x, RuleOf(gs[k]));
      forall m | 0 <= m < |gs| && gs[m].permission == x.permission ensures !StarFree(gs, m) {
        NamedAfterStar(gs, ps, j, j + 1 + i, m);
      }
      assert MasksAt(gs, r.pattern, k);
    }
    if Masked(gs, r.pattern) {
      var k :| 0 <= k < |gs| && MasksAt(gs, r.pattern, k);
      var x := MaskingRule(gs, ps, j, k);
      SameKey(x, RuleOf(gs[k]));
    }
  }

  lemma SameKey(a: Rule, b: Rule)
    requires Matches(a, b)
    ensures Key(a) == Key(b)
  {
  }

  lemma {:induction false} GivenLast(gs: seq<Given>, r: Rule) returns (k: nat)
    requires LastGiven(gs, r.permission, r.pattern).Some?
    ensures k < |gs| && Matches(r, RuleOf(gs[k]))
  {
    var last := gs[|gs| - 1];
    if last.permission == r.permission && last.pattern == r.pattern {
      k := |gs| - 1;
    } else {
      k := GivenLast(gs[..|gs| - 1], r);
    }
  }

  lemma {:induction false} GivenIsLastGiven(gs: seq<Given>, k: nat)
    requires k < |gs|
    ensures LastGiven(gs, gs[k].permission, gs[k].pattern).Some?
  {
    if k < |gs| - 1 {
      GivenIsLastGiven(gs[..|gs| - 1], k);
    }
  }

  /** What stands after `*` in the object was nowhere given before the first `*`. */
  lemma NamedAfterStar(gs: seq<Given>, ps: Permissions, j: nat, i: nat, m: nat)
    requires ps == Config(gs) && IsObject(ps) && j < i < |ps| && ps[j].name == "*"
    requires m < |gs| && gs[m].permission == ps[i].name
    ensures !StarFree(gs, m)
  {
    NamedInOrder(gs);
    hide Config, UniquePatterns, Entries;
    assert FirstNamed(gs, ps, j);
    var k :| NamedFirstAt(gs, ps, j, k);
    assert !NamedBefore(ps, j, gs[m].permission);
    assert k < m && gs[k].permission == "*";
  }

  lemma MaskingRule(gs: seq<Given>, ps: Permissions, j: nat, k: nat) returns (x: Rule)
    requires ps == Config(gs) && IsObject(ps) && j < |ps| && ps[j].name == "*"
    requires k < |gs| && gs[k].permission != "*"
    requires forall n :: 0 <= n < |gs| && gs[n].permission == gs[k].permission ==> !StarFree(gs, n)
    ensures x in Rules(ps[j + 1..]) && Matches(x, RuleOf(gs[k]))
  {
    hide Config, Rules, UniquePatterns, Entries, LastGiven;
    var name, pattern := gs[k].permission, gs[k].pattern;
    GivenIsLastGiven(gs, k);
    x := Rule(name, pattern, LastGiven(gs, name, pattern).value);
    ConfigMeaning(gs, x);
    var i, n := RulesOrigin(ps, x);
    StarNamedFirst(gs, ps, j, i);
    assert ps[j + 1..][i - j - 1] == ps[i];
    RulesContain(ps[j + 1..], i - j - 1, n);
  }

  lemma StarNamedFirst(gs: seq<Given>, ps: Permissions, j: nat, i: nat)
    requires ps == Config(gs) && IsObject(ps) && j < |ps| && ps[j].name == "*" && i < |ps| && ps[i].name != "*"
    requires forall n :: 0 <= n < |gs| && gs[n].permission == ps[i].name ==> !StarFree(gs, n)
    ensures i > j
  {
    NamedInOrder(gs);
    hide Config, UniquePatterns, Entries;
    assert FirstNamed(gs, ps, i);
    var k :| NamedFirstAt(gs, ps, i, k);
    assert !StarFree(gs, k);
    var n :| 0 <= n < k && gs[n].permission == "*";
    assert NamedBefore(ps, i, "*");
    var m :| 0 <= m < i && ps[m].name == "*";
    assert m == j;
  }
}
