/**
 Printing a pointer and reading it back: a boxed pointer, wrapped at any of its spaces, yields the
 printed command and never another one.
 */
module PointerRoundTrip {
  import opened Basics
  import opened Mail
  import opened Composer
  import R = RawPane

  /** `x` is `t` with some of its spaces left out. */
  predicate Dropped(x: string, t: string) {
    if t == [] then x == []
    else || (x != [] && x[0] == t[0] && Dropped(x[1..], t[1..]))
         || (t[0] == ' ' && Dropped(x, t[1..]))
  }

  function Count(s: string, space: bool): nat {
    if s == [] then 0 else (if (s[0] == ' ') == space then 1 else 0) + Count(s[1..], space)
  }

  lemma {:induction false} CountConcat(a: string, b: string, space: bool)
    ensures Count(a + b, space) == Count(a, space) + Count(b, space)
  {
    if a == [] {
      assert a + b == b;
    } else {
      assert (a + b)[1..] == a[1..] + b;
      CountConcat(a[1..], b, space);
    }
  }

  lemma CountNoSpace(s: string)
    requires NoSpace(s)
    ensures Count(s, true) == 0 && Count(s, false) == |s|
  {
    if s != [] {
      assert forall i :: 0 <= i < |s[1..]| ==> s[1..][i] == s[i + 1];
      CountNoSpace(s[1..]);
    }
  }

  lemma {:induction false} DroppedSelf(s: string)
    ensures Dropped(s, s)
  {
    if s != [] {
      DroppedSelf(s[1..]);
    }
  }

  lemma {:induction false} DroppedConcat(x: string, t: string, y: string, u: string)
    requires Dropped(x, t) && Dropped(y, u)
    ensures Dropped(x + y, t + u)
    decreases |t|
  {
    if t == [] {
      assert x + y == y && t + u == u;
    } else {
      assert (t + u)[1..] == t[1..] + u;
      if x != [] && x[0] == t[0] && Dropped(x[1..], t[1..]) {
        assert (x + y)[1..] == x[1..] + y;
        DroppedConcat(x[1..], t[1..], y, u);
      } else {
        DroppedConcat(x, t[1..], y, u);
      }
    }
  }

  /** Only spaces go, and as many as the counts differ by. */
  lemma {:induction false} DroppedCounts(x: string, t: string)
    requires Dropped(x, t)
    ensures Count(x, false) == Count(t, false)
    ensures Count(x, true) <= Count(t, true)
    ensures Count(x, true) == Count(t, true) ==> x == t
    decreases |t|
  {
    if t != [] {
      if x != [] && x[0] == t[0] && Dropped(x[1..], t[1..]) {
        DroppedCounts(x[1..], t[1..]);
        assert Count(x, true) == Count(t, true) ==> x[1..] == t[1..];
        assert x == [x[0]] + x[1..] && t == [t[0]] + t[1..];
      } else {
        DroppedCounts(x, t[1..]);
      }
    }
  }

  /** A character that is not a space splits the shortened text where it splits the whole one. */
  lemma {:induction false} DroppedSplit(x: string, a: string, c: char, b: string) returns (p: string, q: string)
    requires Dropped(x, a + [c] + b) && c != ' '
    ensures x == p + [c] + q && Dropped(p, a) && Dropped(q, b)
    decreases |a|
  {
    var t := a + [c] + b;
    if a == [] {
      assert t[1..] == b;
      p, q := [], x[1..];
      assert x == [] + [c] + x[1..];
    } else {
      assert t[1..] == a[1..] + [c] + b;
      if x != [] && x[0] == t[0] && Dropped(x[1..], t[1..]) {
        p, q := DroppedSplit(x[1..], a[1..], c, b);
        p := [x[0]] + p;
        assert x == p + [c] + q;
        assert p[1..] == p[1..];
      } else {
        p, q := DroppedSplit(x, a[1..], c, b);
      }
    }
  }

  lemma DroppedChars(x: string, t: string, c: char)
    requires Dropped(x, t) && c !in t
    ensures c !in x
    decreases |t|
  {
    if t != [] {
      assert forall k :: k in t[1..] ==> k in t;
      if x != [] && x[0] == t[0] && Dropped(x[1..], t[1..]) {
        DroppedChars(x[1..], t[1..], c);
        assert x == [x[0]] + x[1..];
      } else {
        DroppedChars(x, t[1..], c);
      }
    }
  }

  /** Joining wrapped lines without a space drops some of the spaces of the joined text. */
  lemma {:induction false} JoinDropped(parts: seq<string>)
    ensures Dropped(Join(parts, ""), Join(parts, " "))
  {
    if |parts| == 1 {
      DroppedSelf(parts[0]);
    } else if |parts| > 1 {
      JoinDropped(parts[1..]);
      DroppedSelf(parts[0]);
      assert Dropped([], " ");
      DroppedConcat(parts[0], parts[0], [], " ");
      assert parts[0] + [] == parts[0] && parts[0] + "" == parts[0];
      DroppedConcat(parts[0], parts[0] + " ", Join(parts[1..], ""), Join(parts[1..], " "));
    }
  }

  /** No space follows any occurrence of `c`. */
  predicate QuietAfter(s: string, c: char) {
    s == [] || ((s[0] == c ==> ' ' !in s[1..]) && QuietAfter(s[1..], c))
  }

  lemma {:induction false} DroppedQuiet(x: string, t: string, c: char)
    requires Dropped(x, t) && QuietAfter(t, c)
    ensures QuietAfter(x, c)
    decreases |t|
  {
    if t != [] {
      if x != [] && x[0] == t[0] && Dropped(x[1..], t[1..]) {
        DroppedQuiet(x[1..], t[1..], c);
        if ' ' !in t[1..] {
          DroppedChars(x[1..], t[1..], ' ');
        }
      } else {
        DroppedQuiet(x, t[1..], c);
      }
    }
  }

  lemma {:induction false} QuietConcat(a: string, b: string, c: char)
    requires c !in a && ' ' !in b
    ensures QuietAfter(a + b, c)
  {
    var s := a + b;
    if a == [] {
      if b != [] {
        assert s == b && forall k :: k in b[1..] ==> k in b;
        assert [] + b[1..] == b[1..];
        QuietConcat([], b[1..], c);
      }
    } else {
      assert s[1..] == a[1..] + b;
      assert forall k :: k in a[1..] ==> k in a;
      QuietConcat(a[1..], b, c);
    }
  }

  lemma TrimStartSuffix(s: string)
    ensures |TrimStart(s)| <= |s| && TrimStart(s) == s[|s| - |TrimStart(s)|..]
  {
  }

  lemma PointerHasSpace(s: string)
    requires "You have" <= TrimStart(s)
    ensures ' ' in s
  {
    TrimStartSuffix(s);
    assert TrimStart(s)[3] == ' ';
    assert s[|s| - |TrimStart(s)| + 3] == ' ';
  }

  /** Without a space after an arrow no arrow can stand before a pointer. */
  lemma {:induction false} NothingToDrop(s: string)
    requires QuietAfter(s, ARROW)
    ensures DropArrows(s) == s
    decreases |s|
  {
    if s != [] {
      NothingToDrop(s[1..]);
      if "You have" <= TrimStart(s[1..]) {
        PointerHasSpace(s[1..]);
      }
    }
  }

  lemma {:induction false} LiteralCounts(s: string, i: nat, literal: string, space: bool)
    requires LiteralAt(s, i, literal)
    ensures Count(s[i..i + |literal|], space) == Count(literal, space)
    decreases |literal|
  {
    if literal != [] {
      assert forall k :: 0 <= k < |literal| - 1 ==> s[i + 1 + k] == s[i + (k + 1)] && literal[1..][k] == literal[k + 1];
      LiteralCounts(s, i + 1, literal[1..], space);
      assert s[i..i + |literal|][1..] == s[i + 1..i + 1 + |literal[1..]|];
      assert Fold(s[i + 0]) == Fold(literal[0]);
    }
  }

  lemma PaddedCount(word: string)
    requires NoSpace(word)
    ensures Count(" " + word + " ", true) == 2
  {
    CountNoSpace(word);
    CountConcat(" ", word, true);
    CountConcat(" " + word, " ", true);
    assert Count(" ", true) == 1;
  }

  /** The two shapes a quoted command can have, by what its spaces count to. */
  ghost predicate CommandShape(c: string, bare: string) {
    || (Count(c, true) == Count(bare, true) && Count(c, false) == Count(bare, false))
    || (Count(c, true) == Count(bare, true) + 2 && Count(c, false) > Count(bare, false))
  }

  lemma BareShape(c: string, bare: string)
    requires |c| == |bare| && LiteralAt(c, 0, bare)
    ensures CommandShape(c, bare)
  {
    LiteralCounts(c, 0, bare, true);
    LiteralCounts(c, 0, bare, false);
    assert c[0..0 + |bare|] == c;
  }

  lemma TailedShape(c: string, bare: string, word: string)
    requires NoSpace(word)
    requires LiteralAt(c, 0, bare) && LiteralAt(c, |bare|, " " + word + " ")
    requires |bare| + |word| + 2 < |c| && NoSpace(c[|bare| + |word| + 2..])
    ensures CommandShape(c, bare)
  {
    hide Count;
    var n, option := |bare|, " " + word + " ";
    var a, b, d := c[..n], c[n..n + |option|], c[n + |option|..];
    PaddedCount(word);
    LiteralCounts(c, 0, bare, true);
    LiteralCounts(c, 0, bare, false);
    LiteralCounts(c, n, option, true);
    CountNoSpace(d);
    CountConcat(a, b, true);
    CountConcat(a, b, false);
    CountConcat(a + b, d, true);
    CountConcat(a + b, d, false);
    assert c == a + b + d && c[0..0 + n] == a;
  }

  lemma LiteralInside(s: string, q: nat, e: nat, i: nat, literal: string)
    requires q <= i && i + |literal| <= e <= |s| && LiteralAt(s, i, literal)
    ensures LiteralAt(s[q..e], i - q, literal)
  {
  }

  /** The quoted command at `q` is the bare check, ending at the backtick of `e`. */
  predicate IsBareCommand(s: string, q: nat, c: string, e: nat) {
    && e == q + |BARE_CHECK| && e + 2 <= |s| && s[e] == '`' && c == s[q..e] && LiteralAt(s, q, BARE_CHECK)
  }

  /** Or it is followed by an option and an id without spaces. */
  predicate IsOptionCommand(s: string, q: nat, c: string, e: nat, word: string) {
    var p := q + |BARE_CHECK|;
    var id := p + |word| + 2;
    && id < e && e + 2 <= |s| && s[e] == '`' && c == s[q..e]
    && LiteralAt(s, q, BARE_CHECK) && LiteralAt(s, p, " " + word + " ") && NoSpace(s[id..e])
  }

  lemma CommandCases(s: string, q: nat)
    requires CommandAt(s, q).Some?
    ensures var m := CommandAt(s, q).value;
            && m.end >= 2
            && (|| IsBareCommand(s, q, m.command, m.end - 2)
                || IsOptionCommand(s, q, m.command, m.end - 2, "--run")
                || IsOptionCommand(s, q, m.command, m.end - 2, "--terminal"))
  {
    hide LiteralAt, LastClose, IsSpace, BARE_CHECK, NoSpace;
    var p, e := q + |BARE_CHECK|, CommandAt(s, q).value.end - 2;
    assert " " + "--run" + " " == " --run " && " " + "--terminal" + " " == " --terminal ";
    if LiteralAt(s, p, " --run ") {
      IdIsTail(s, p + 7, e);
    } else if LiteralAt(s, p, " --terminal ") {
      IdIsTail(s, p + 12, e);
    }
  }

  /** A recognised command ends at a backtick and has one of the two shapes. */
  lemma CommandAtShape(s: string, q: nat)
    requires CommandAt(s, q).Some?
    ensures var m := CommandAt(s, q).value;
            && m.end >= q + 2 + |BARE_CHECK|
            && m.command == s[q..m.end - 2] && s[m.end - 2] == '`'
            && CommandShape(m.command, BARE_CHECK)
  {
    hide Count, CommandShape, LiteralAt, CommandAt, BARE_CHECK, NoSpace;
    CommandCases(s, q);
    var m := CommandAt(s, q).value;
    var c, e := m.command, m.end - 2;
    LiteralInside(s, q, e, q, BARE_CHECK);
    if IsBareCommand(s, q, c, e) {
      BareShape(c, BARE_CHECK);
    } else if IsOptionCommand(s, q, c, e, "--run") {
      OptionShape(s, q, c, e, "--run");
    } else {
      OptionShape(s, q, c, e, "--terminal");
    }
  }

  lemma OptionShape(s: string, q: nat, c: string, e: nat, word: string)
    requires IsOptionCommand(s, q, c, e, word) && (word == "--run" || word == "--terminal")
    ensures CommandShape(c, BARE_CHECK)
  {
    hide Count, CommandShape, LiteralAt, BARE_CHECK, IsSpace;
    var p := q + |BARE_CHECK|;
    LiteralInside(s, q, e, q, BARE_CHECK);
    LiteralInside(s, q, e, p, " " + word + " ");
    assert c[|BARE_CHECK| + |word| + 2..] == s[p + |word| + 2..e];
    WordsHaveNoSpace();
    TailedShape(c, BARE_CHECK, word);
  }

  lemma WordsHaveNoSpace()
    ensures NoSpace("--run") && NoSpace("--terminal")
  {
  }

  lemma IdIsTail(s: string, id: nat, e: nat)
    requires id < |s| && !IsSpace(s[id]) && LastClose(s, id + 1) == Some(e)
    ensures NoSpace(s[id..e])
  {
    hide IsSpace;
    var rest := s[id + 1..e];
    assert NoSpace(rest);
    assert forall i :: 1 <= i < e - id ==> s[id..e][i] == rest[i - 1];
  }

  predicate PlainId(id: string) {
    id != "" && NoSpace(id) && '`' !in id
  }

  /** The word and the id the message's command carries after the bare check. */
  function OptionWord(m: Message): string {
    if "term_" <= m.recipient then "--terminal" else "--run"
  }

  function OptionId(m: Message): string {
    if "term_" <= m.recipient then m.recipient else m.runId
  }

  predicate Bare(m: Message) {
    "dispatch:" <= m.recipient
  }

  predicate Plain(m: Message) {
    Bare(m) || PlainId(OptionId(m))
  }

  function Head(m: Message): string {
    "You have 1 orchestration message. " + Prose(m) + " Run "
  }

  lemma CommandForm(m: Message)
    ensures CheckCommand(m) == if Bare(m) then BARE_CHECK else BARE_CHECK + " " + OptionWord(m) + " " + OptionId(m)
  {
    assert "run:"[0] != "term_"[0];
    assert " --run " == " " + "--run" + " ";
    assert " --terminal " == " " + "--terminal" + " ";
  }

  /** None of the characters that mean something to the reader. */
  predicate Inert(s: string) {
    forall i :: 0 <= i < |s| ==> s[i] != '`' && s[i] != ARROW && s[i] != '+'
  }

  lemma InertConcat(a: string, b: string)
    requires Inert(a) && Inert(b)
    ensures Inert(a + b)
  {
  }

  lemma ProseInert(m: Message)
    ensures Inert(Prose(m))
  {
    hide Inert;
    if "run:" <= m.recipient {
      var a, b, c := "Read orchestration mail, check the fleet, ", "and clear blockers ", "so the fleet does not idle.";
      FleetMailInert();
      InertConcat(a, b);
      InertConcat(a + b, c);
    } else {
      OwnMailInert();
    }
  }

  lemma FleetMailInert()
    ensures Inert("Read orchestration mail, check the fleet, ") && Inert("and clear blockers ")
    ensures Inert("so the fleet does not idle.")
  {
  }

  lemma OwnMailInert()
    ensures Inert("Read and act on your orchestration message.")
  {
  }

  lemma HeadForm(m: Message)
    ensures BuildDeliveryPointer(m) == Head(m) + "`" + CheckCommand(m) + "`" + "."
    ensures Inert(Head(m)) && Head(m) != "" && Head(m)[0] == 'Y'
  {
    hide CheckCommand, Prose;
    var a := "You have 1 orchestration message. ";
    assert Inert(a);
    assert Inert(" Run ");
    ProseInert(m);
    InertConcat(a, Prose(m));
    InertConcat(a + Prose(m), " Run ");
    assert " Run `" == " Run " + "`";
    assert "`." == "`" + ".";
  }

  lemma WordForm(m: Message)
    ensures var w := OptionWord(m); Inert(w) && NoSpace(w) && w != ""
  {
    assert Inert("--run") && Inert("--terminal");
    assert NoSpace("--run") && NoSpace("--terminal");
  }

  lemma CommandQuiet(m: Message)
    requires Plain(m)
    ensures '`' !in CheckCommand(m)
    ensures CommandShape(CheckCommand(m), BARE_CHECK)
  {
    hide CheckCommand, CommandShape, Count, OptionWord, Inert;
    CommandForm(m);
    BareInert();
    WordForm(m);
    var c, w, bare := CheckCommand(m), OptionWord(m), BARE_CHECK;
    if Bare(m) {
      BareShape(c, bare);
    } else {
      TailedCommand(c, bare, w, OptionId(m));
    }
    NoBacktick(m);
  }

  lemma BareInert()
    ensures Inert(BARE_CHECK)
  {
  }

  lemma NoBacktick(m: Message)
    requires Plain(m)
    ensures '`' !in CheckCommand(m)
  {
    hide CheckCommand, OptionWord;
    CommandForm(m);
    BareInert();
    WordForm(m);
    var bare, w := BARE_CHECK, OptionWord(m);
    NotInConcat(bare, " ", '`');
    NotInConcat(bare + " ", w, '`');
    NotInConcat(bare + " " + w, " ", '`');
    if !Bare(m) {
      NotInConcat(bare + " " + w + " ", OptionId(m), '`');
    }
  }

  lemma TailedCommand(c: string, bare: string, w: string, id: string)
    requires c == bare + " " + w + " " + id && NoSpace(w) && NoSpace(id) && id != ""
    ensures CommandShape(c, bare)
  {
    hide CommandShape, IsSpace;
    assert LiteralAt(c, 0, bare);
    assert LiteralAt(c, |bare|, " " + w + " ") by {
      assert forall k :: 0 <= k < |w| + 2 ==> c[|bare| + k] == (" " + w + " ")[k];
    }
    assert c[|bare| + |w| + 2..] == id;
    TailedShape(c, bare, w);
  }

  /** A match is a command quoted by backticks. */
  lemma MatchIsQuoted(s: string) returns (k: nat)
    requires MatchAt(s, 0).Some?
    ensures k < |s| && s[k] == '`' && MatchAt(s, 0) == CommandAt(s, k + 1)
  {
    hide CommandAt, HeaderEnd;
    k := FirstBacktick(s, HeaderEnd(s, 0).value);
  }

  /** A pointer is fixed text up to the id, then the id and the closing marks. */
  function Fixed(m: Message): string {
    if Bare(m) then Head(m) + "`" + BARE_CHECK else Head(m) + "`" + BARE_CHECK + " " + OptionWord(m) + " "
  }

  function Rest(m: Message): string {
    if Bare(m) then "`." else OptionId(m) + "`."
  }

  lemma FixedAndRest(m: Message)
    ensures BuildDeliveryPointer(m) == Fixed(m) + Rest(m)
  {
    hide CheckCommand, Head, BuildDeliveryPointer, OptionWord;
    HeadForm(m);
    CommandForm(m);
    assert "`" + "." == "`.";
    if !Bare(m) {
      Regroup(Head(m), BARE_CHECK, OptionWord(m), OptionId(m));
    }
  }

  lemma Regroup(h: string, bare: string, word: string, id: string)
    ensures (h + "`" + bare + " " + word + " ") + (id + "`.") == h + "`" + (bare + " " + word + " " + id) + "`" + "."
  {
    assert "`." == "`" + ".";
  }

  lemma FixedQuiet(m: Message)
    ensures ARROW !in Fixed(m) && '+' !in Fixed(m)
  {
    hide Head, OptionWord;
    InertParts(m, ARROW);
    InertParts(m, '+');
  }

  lemma RestHasNoSpace(m: Message)
    requires Plain(m)
    ensures ' ' !in Rest(m) && Rest(m) != ""
    ensures Rest(m)[0] == ARROW <==> LeadingArrow(m)
  {
  }

  lemma TextQuiet(m: Message, c: char)
    requires Plain(m) && (c == ARROW || c == '+')
    ensures QuietAfter(BuildDeliveryPointer(m), c)
  {
    hide *;
    FixedAndRest(m);
    FixedQuiet(m);
    RestHasNoSpace(m);
    QuietConcat(Fixed(m), Rest(m), c);
  }

  lemma NotInConcat(a: string, b: string, c: char)
    requires c !in a && c !in b
    ensures c !in a + b
  {
  }

  lemma InertParts(m: Message, c: char)
    requires c == ARROW || c == '+'
    ensures c !in Head(m) + "`" + BARE_CHECK
    ensures c !in Head(m) + "`" + BARE_CHECK + " " + OptionWord(m) + " "
  {
    hide Head, BuildDeliveryPointer, OptionWord;
    HeadForm(m);
    BareInert();
    WordForm(m);
    var a, b, o := Head(m) + "`", BARE_CHECK, OptionWord(m);
    assert c !in b && c !in o;
    NotInConcat(Head(m), "`", c);
    NotInConcat(a, b, c);
    NotInConcat(a + b, " ", c);
    NotInConcat(a + b + " ", o, c);
    NotInConcat(a + b + " " + o, " ", c);
  }

  /** However its spaces are dropped, a printed pointer reads as its own command or as none. */
  lemma NeverAnother(x: string, m: Message)
    requires Plain(m) && Dropped(x, BuildDeliveryPointer(m))
    ensures Accept(x).Some? ==> Accept(x) == Some(CheckCommand(m))
  {
    hide CheckCommand, Head, CommandShape, Count, CommandAt, MatchAt, BuildDeliveryPointer;
    HeadForm(m);
    TextQuiet(m, ARROW);
    DroppedQuiet(x, BuildDeliveryPointer(m), ARROW);
    NothingToDrop(x);
    var cmd := CheckCommand(m);
    assert BuildDeliveryPointer(m) == Head(m) + ['`'] + (cmd + ['`'] + ".");
    var p, q := DroppedSplit(x, Head(m), '`', cmd + ['`'] + ".");
    var c, r := DroppedSplit(q, cmd, '`', ".");
    CommandQuiet(m);
    DroppedChars(p, Head(m), '`');
    DroppedChars(c, cmd, '`');
    assert r == ".";
    assert x == p + ['`'] + c + ['`', '.'];
    assert x[0] == 'Y';
    if Accept(x).Some? && MatchAt(x, 0).Some? {
      QuotedCommandIs(x, p, c);
      DroppedCounts(c, cmd);
      SameShapeSame(c, cmd);
    }
  }

  /** With exactly two backticks, the matched command is the text between them. */
  lemma QuotedCommandIs(x: string, p: string, c: string)
    requires x == p + ['`'] + c + ['`', '.'] && '`' !in p && '`' !in c
    requires MatchAt(x, 0).Some?
    ensures MatchAt(x, 0) == Some(Match(|x|, c)) && CommandShape(c, BARE_CHECK)
  {
    hide MatchAt, CommandShape, CommandAt;
    var k := MatchIsQuoted(x);
    CommandAtShape(x, k + 1);
    var m := MatchAt(x, 0).value;
    assert forall i :: 0 <= i < |x| && x[i] == '`' ==> i == |p| || i == |p| + 1 + |c|;
    assert k == |p| && m.end - 2 == |p| + 1 + |c|;
    assert m.command == x[|p| + 1..|p| + 1 + |c|] == c;
  }

  lemma SameShapeSame(c: string, cmd: string)
    requires CommandShape(c, BARE_CHECK) && CommandShape(cmd, BARE_CHECK)
    requires Count(c, false) == Count(cmd, false) && Count(c, true) <= Count(cmd, true)
    requires Count(c, true) == Count(cmd, true) ==> c == cmd
    ensures c == cmd
  {
    hide Count;
  }

  lemma {:induction false} ClosesAtEnd(s: string, i: nat)
    requires 2 <= |s| && i <= |s| - 2
    requires s[|s| - 2] == '`' && s[|s| - 1] == '.' && NoSpace(s[i..])
    ensures LastClose(s, i) == Some(|s| - 2)
    decreases |s| - i
  {
    var tail := s[i..];
    assert s[i] == tail[0] && s[i + 1] == tail[1];
    if i == |s| - 2 {
      assert LastClose(s, |s|) == None && LastClose(s, |s| - 1) == None;
    } else {
      var rest := s[i + 1..];
      forall k | 0 <= k < |rest| ensures !IsSpace(rest[k]) {
        assert rest[k] == tail[k + 1];
      }
      ClosesAtEnd(s, i + 1);
    }
  }

  lemma BareCommandAt(s: string, q: nat)
    requires LiteralAt(s, q, BARE_CHECK)
    requires var p := q + |BARE_CHECK|; p + 1 < |s| && s[p] == '`' && s[p + 1] == '.'
    ensures CommandAt(s, q).Some?
  {
    NoOptionAt(s, q + |BARE_CHECK|);
    hide LiteralAt;
  }

  lemma OptionCommandAt(s: string, q: nat, m: Message, id: nat)
    requires LiteralAt(s, q, BARE_CHECK) && LiteralAt(s, q + |BARE_CHECK|, " " + OptionWord(m) + " ")
    requires id == q + |BARE_CHECK| + 2 + |OptionWord(m)|
    requires id < |s| && !IsSpace(s[id]) && LastClose(s, id + 1).Some?
    ensures CommandAt(s, q).Some?
  {
    hide LiteralAt, LastClose, IsSpace;
    OptionAt(s, q + |BARE_CHECK|, m);
  }

  lemma PrintedCommandMatches(u: string, m: Message)
    requires Plain(m)
    ensures CommandAt(u + CheckCommand(m) + "`" + ".", |u|).Some?
  {
    hide CheckCommand, OptionWord, CommandAt, BARE_CHECK;
    CommandForm(m);
    if Bare(m) {
      PrintedBareMatches(u);
    } else {
      PrintedOptionMatches(u, m);
    }
  }

  lemma PrintedBareMatches(u: string)
    ensures CommandAt(u + BARE_CHECK + "`" + ".", |u|).Some?
  {
    hide LiteralAt, CommandAt, BARE_CHECK;
    var s, p := u + BARE_CHECK + "`" + ".", |u| + |BARE_CHECK|;
    LiteralIn(u, BARE_CHECK, "`" + ".");
    assert s == u + BARE_CHECK + ("`" + ".");
    assert s[p] == '`' && s[p + 1] == '.';
    BareCommandAt(s, |u|);
  }

  lemma PrintedOptionMatches(u: string, m: Message)
    requires !Bare(m) && Plain(m)
    ensures CommandAt(u + (BARE_CHECK + " " + OptionWord(m) + " " + OptionId(m)) + "`" + ".", |u|).Some?
  {
    hide LiteralAt, LastClose, IsSpace, CommandAt, NoSpace, BARE_CHECK, OptionWord, OptionId;
    var bare, w, id := BARE_CHECK, OptionWord(m), OptionId(m);
    var o := " " + w + " ";
    OptionText(u, bare, w, id);
    LiteralIn(u, bare, o + id + "`" + ".");
    LiteralIn(u + bare, o, id + "`" + ".");
    IdCloses(u + bare + o, id);
    OptionCommandAt(u + (bare + " " + w + " " + id) + "`" + ".", |u|, m, |u| + |bare| + |o|);
  }

  lemma OptionText(u: string, bare: string, w: string, id: string)
    ensures var s, o := u + (bare + " " + w + " " + id) + "`" + ".", " " + w + " ";
            && s == u + bare + (o + id + "`" + ".")
            && s == (u + bare) + o + (id + "`" + ".")
            && s == (u + bare + o) + id + "`" + "."
  {
  }

  lemma FirstFolds(s: string, p: nat, literal: string)
    requires LiteralAt(s, p, literal) && literal != ""
    ensures p < |s| && Fold(s[p]) == Fold(literal[0])
  {
    assert s[p + 0] == s[p];
  }

  lemma LiteralIn(u: string, literal: string, rest: string)
    ensures LiteralAt(u + literal + rest, |u|, literal)
  {
    assert forall k :: 0 <= k < |literal| ==> (u + literal + rest)[|u| + k] == literal[k];
  }

  lemma NoOptionAt(s: string, p: nat)
    requires p < |s| && s[p] == '`'
    ensures !LiteralAt(s, p, " --run ") && !LiteralAt(s, p, " --terminal ")
  {
    if LiteralAt(s, p, " --run ") {
      FirstFolds(s, p, " --run ");
    }
    if LiteralAt(s, p, " --terminal ") {
      FirstFolds(s, p, " --terminal ");
    }
  }

  lemma IdCloses(u: string, id: string)
    requires PlainId(id)
    ensures var s := u + id + "`" + ".";
            |u| + 1 < |s| && !IsSpace(s[|u|]) && LastClose(s, |u| + 1).Some?
  {
    hide LastClose;
    var s := u + id + "`" + ".";
    assert s[|u|] == id[0];
    assert forall i :: |u| < i < |u| + |id| ==> s[i] == id[i - |u|];
    var tail := s[|u| + 1..];
    assert tail == id[1..] + "`" + ".";
    assert forall i :: 0 <= i < |id| - 1 ==> id[1..][i] == id[i + 1];
    assert NoSpace(tail);
    ClosesAtEnd(s, |u| + 1);
  }

  lemma OptionAt(s: string, p: nat, m: Message)
    requires LiteralAt(s, p, " " + OptionWord(m) + " ")
    ensures if OptionWord(m) == "--run" then LiteralAt(s, p, " --run ")
            else !LiteralAt(s, p, " --run ") && LiteralAt(s, p, " --terminal ")
  {
    assert " " + "--run" + " " == " --run ";
    assert " " + "--terminal" + " " == " --terminal ";
    assert Fold(s[p + 3]) == Fold((" " + OptionWord(m) + " ")[3]);
    assert " --run "[3] == 'r' && " --terminal "[3] == 't';
    assert LiteralAt(s, p, " --run ") ==> Fold(s[p + 3]) == Fold(" --run "[3]);
  }

  lemma HeaderEnds(text: string)
    requires LiteralAt(text, 0, YOU_HAVE) && LiteralAt(text, 10, MESSAGE)
    requires 32 < |text| && text[9] == '1' && text[10] == ' ' && text[32] == '.'
    ensures HeaderEnd(text, 0) == Some(32)
  {
    hide LiteralAt, BoundaryAt;
    assert |YOU_HAVE| == 9 && |MESSAGE| == 22;
    assert DigitsEnd(text, 9) == 10;
    FullStopEndsWord(text, 32);
  }

  lemma LiteralPrefix(h: string, rest: string, i: nat, literal: string)
    requires LiteralAt(h, i, literal)
    ensures LiteralAt(h + rest, i, literal)
  {
  }

  lemma FullStopEndsWord(text: string, i: nat)
    requires i < |text| && text[i] == '.'
    ensures !LiteralAt(text, i, "s") && BoundaryAt(text, i)
  {
    if LiteralAt(text, i, "s") {
      FirstFolds(text, i, "s");
    }
  }

  const INTRO := "You have 1 orchestration message. "

  lemma IntroForm()
    ensures INTRO == YOU_HAVE + "1" + MESSAGE + ". " && |YOU_HAVE| == 9 && |MESSAGE| == 22 && MESSAGE[0] == ' '
  {
  }

  lemma IntroLiterals()
    ensures LiteralAt(INTRO, 0, YOU_HAVE) && LiteralAt(INTRO, 10, MESSAGE)
    ensures |INTRO| == 34 && INTRO[9] == '1' && INTRO[10] == ' ' && INTRO[32] == '.'
  {
    IntroForm();
    hide INTRO, YOU_HAVE, MESSAGE, LiteralAt;
    assert INTRO == "" + YOU_HAVE + ("1" + MESSAGE + ". ");
    LiteralIn("", YOU_HAVE, "1" + MESSAGE + ". ");
    assert INTRO == (YOU_HAVE + "1") + MESSAGE + ". ";
    LiteralIn(YOU_HAVE + "1", MESSAGE, ". ");
  }

  lemma PrintedMatches(m: Message)
    requires Plain(m)
    ensures MatchAt(BuildDeliveryPointer(m), 0).Some?
  {
    hide CheckCommand, CommandAt, Prose, Inert, LiteralAt, HeaderEnd, FirstBacktick, BuildDeliveryPointer, YOU_HAVE, MESSAGE;
    var text, h, rest := BuildDeliveryPointer(m), Head(m), "`" + CheckCommand(m) + "`" + ".";
    HeadForm(m);
    assert text == h + rest;
    IntroLiterals();
    HeadStarts(m);
    hide Head, INTRO;
    var tail := h[34..] + rest;
    assert text == INTRO + tail;
    LiteralPrefix(INTRO, tail, 0, YOU_HAVE);
    LiteralPrefix(INTRO, tail, 10, MESSAGE);
    HeaderEnds(text);
    BacktickAfterHead(h, rest, 32);
    PrintedCommandMatches(h + "`", m);
    assert text == (h + "`") + CheckCommand(m) + "`" + ".";
  }

  lemma HeadStarts(m: Message)
    ensures |Head(m)| >= 34 && Head(m)[..34] == INTRO
  {
    hide Prose;
    assert |INTRO| == 34;
    assert Head(m) == INTRO + (Prose(m) + " Run ");
  }

  lemma BacktickAfterHead(h: string, rest: string, i: nat)
    requires Inert(h) && i <= |h| && rest != "" && rest[0] == '`'
    ensures FirstBacktick(h + rest, i) == |h|
  {
    assert (h + rest)[|h|] == '`';
    assert forall k :: 0 <= k < |h| ==> (h + rest)[k] == h[k];
  }

  /** The text as printed reads as its own command. */
  lemma PrintedIsAccepted(m: Message)
    requires Plain(m)
    ensures Accept(BuildDeliveryPointer(m)) == Some(CheckCommand(m))
  {
    hide CheckCommand, Head, CommandShape, CommandAt, MatchAt, BuildDeliveryPointer;
    var text := BuildDeliveryPointer(m);
    HeadForm(m);
    TextQuiet(m, ARROW);
    NothingToDrop(text);
    CommandQuiet(m);
    PrintedMatches(m);
    assert text == Head(m) + ['`'] + CheckCommand(m) + ['`', '.'];
    QuotedCommandIs(text, Head(m), CheckCommand(m));
    assert Scan(text, |text|) == Some([]) && [CheckCommand(m)] + [] == [CheckCommand(m)];
    assert Scan(text, 0) == Some([CheckCommand(m)]);
  }

  lemma {:induction false} QuietMeans(s: string, c: char, p: nat, q: nat)
    requires QuietAfter(s, c) && p < q < |s| && s[p] == c
    ensures s[q] != ' '
  {
    if p > 0 {
      QuietMeans(s[1..], c, p - 1, q - 1);
    } else {
      assert s[q] in s[1..];
    }
  }

  /** A part of a join starts at its beginning or after a space, and ends at its end or before one. */
  lemma {:induction false} PartOffset(parts: seq<string>, k: nat) returns (at: nat)
    requires k < |parts|
    ensures IsPart(Join(parts, " "), parts[k], at, k == 0, k == |parts| - 1)
  {
    hide IsPart;
    if |parts| == 1 {
      at := 0;
      OnlyPart(parts[0]);
    } else if k == 0 {
      at := 0;
      FirstPart(parts[0], Join(parts[1..], " "));
    } else {
      var below := PartOffset(parts[1..], k - 1);
      LaterPart(parts[0], Join(parts[1..], " "), parts[k], below, k == 1, k == |parts| - 1);
      at := |parts[0]| + 1 + below;
    }
  }

  predicate IsPart(s: string, part: string, at: nat, first: bool, last: bool) {
    && at + |part| <= |s| && s[at..at + |part|] == part
    && (if first then at == 0 else at > 0 && s[at - 1] == ' ')
    && (if last then at + |part| == |s| else at + |part| < |s| && s[at + |part|] == ' ')
  }

  lemma OnlyPart(part: string)
    ensures IsPart(part, part, 0, true, true)
  {
  }

  lemma FirstPart(part: string, rest: string)
    ensures IsPart(part + " " + rest, part, 0, true, false)
  {
  }

  lemma LaterPart(head: string, rest: string, part: string, at: nat, first: bool, last: bool)
    requires IsPart(rest, part, at, first, last)
    ensures IsPart(head + " " + rest, part, |head| + 1 + at, false, last)
  {
    var s, n := head + " " + rest, |head| + 1;
    var t := s[n..];
    assert t == rest && s[|head|] == ' ';
    assert t[at..at + |part|] == s[n + at..n + at + |part|];
    assert at > 0 ==> s[n + at - 1] == t[at - 1];
    assert !last ==> s[n + at + |part|] == t[at + |part|];
  }

  predicate LeadingArrow(m: Message) {
    !Bare(m) && OptionId(m) != "" && OptionId(m)[0] == ARROW
  }

  /** The lines are the printed pointer, broken at some of its spaces. */
  predicate Wraps(parts: seq<string>, m: Message) {
    parts != [] && Join(parts, " ") == BuildDeliveryPointer(m)
  }

  /** No line but the first one starts with the prompt arrow. */
  predicate ArrowFree(parts: seq<string>) {
    forall k :: 0 < k < |parts| ==> !StartsWithArrow(parts[k])
  }

  predicate StartsWithArrow(line: string) {
    line != "" && line[0] == ARROW
  }

  /** The one line that can start with an arrow is the last one, holding an id that does. */
  lemma ArrowLine(parts: seq<string>, m: Message, k: nat)
    requires Plain(m) && Wraps(parts, m) && 0 < k < |parts| && StartsWithArrow(parts[k])
    ensures k == |parts| - 1 && parts[k] == Rest(m) && LeadingArrow(m)
  {
    hide BuildDeliveryPointer, Join, Fixed, Rest, LeadingArrow;
    var at := PartOffset(parts, k);
    FixedAndRest(m);
    FixedQuiet(m);
    RestHasNoSpace(m);
    PartIsRest(Fixed(m), Rest(m), parts[k], at, k == |parts| - 1);
  }

  lemma PartIsRest(fixed: string, rest: string, part: string, at: nat, last: bool)
    requires ARROW !in fixed && ' ' !in rest && StartsWithArrow(part) && IsPart(fixed + rest, part, at, false, last)
    ensures last && part == rest
  {
    var s := fixed + rest;
    assert s[at] == part[0];
    assert forall i :: 0 <= i < |s| ==> s[i] == if i < |fixed| then fixed[i] else rest[i - |fixed|];
    assert at == |fixed|;
    assert s[at..] == rest;
  }

  /** No line of a wrapped pointer is taken for the stop hint, and the first one does not start with an arrow. */
  lemma WrappedLineKept(parts: seq<string>, m: Message, k: nat)
    requires Plain(m) && Wraps(parts, m) && k < |parts|
    ensures !IsStopHint(parts[k]) && (k == 0 ==> !StartsWithArrow(parts[k]))
  {
    hide BuildDeliveryPointer, CheckCommand, Join, Head;
    var text := BuildDeliveryPointer(m);
    var at := PartOffset(parts, k);
    HeadForm(m);
    assert forall i :: 0 <= i < |parts[k]| ==> text[at + i] == parts[k][i];
    if LiteralAt(parts[k], 0, "ctrl+c to stop") {
      TextQuiet(m, '+');
      HintHasPlus(parts[k]);
      QuietMeans(text, '+', at + 4, at + 6);
    }
  }

  lemma HintHasPlus(line: string)
    requires LiteralAt(line, 0, "ctrl+c to stop")
    ensures |line| > 6 && line[4] == '+' && line[6] == ' '
  {
    assert "ctrl+c to stop"[4] == '+' && "ctrl+c to stop"[6] == ' ';
    assert Fold(line[0 + 4]) == '+' && Fold(line[0 + 6]) == ' ';
  }

  predicate Tidy(line: string) {
    line != "" && !IsSpace(line[0]) && !IsSpace(line[|line| - 1])
  }

  lemma TidyIsTrimmed(line: string)
    requires Tidy(line)
    ensures Trim(line) == line
  {
  }

  lemma {:induction false} TrimStartPad(pad: string, line: string)
    requires line != "" && !IsSpace(line[0]) && forall i :: 0 <= i < |pad| ==> IsSpace(pad[i])
    ensures TrimStart(pad + line) == line
  {
    if pad == [] {
      assert pad + line == line;
    } else {
      assert (pad + line)[1..] == pad[1..] + line;
      TrimStartPad(pad[1..], line);
    }
  }

  lemma {:induction false} KeptLinesStay(parts: seq<string>)
    requires forall k :: 0 <= k < |parts| ==> Tidy(parts[k]) && !StartsWithArrow(parts[k]) && !IsStopHint(parts[k])
    ensures Stripped(parts) == parts
  {
    hide IsStopHint;
    if parts != [] {
      KeptLinesStay(parts[1..]);
      TidyIsTrimmed(parts[0]);
      assert parts == [parts[0]] + parts[1..];
    }
  }

  lemma PromptLine(pad: string, line: string)
    requires Tidy(line) && forall i :: 0 <= i < |pad| ==> IsSpace(pad[i])
    ensures var p := [ARROW] + pad + line; p != [ARROW] && !IsStopHint(p) && StripArrow(p) == line
  {
    var p := [ARROW] + pad + line;
    assert p[1..] == pad + line;
    TrimStartPad(pad, line);
    TidyIsTrimmed(line);
    assert "ctrl+c to stop"[0] == 'c';
    assert LiteralAt(p, 0, "ctrl+c to stop") ==> Fold(p[0 + 0]) == Fold('c');
  }

  /** The lines as the box shows them: the first one may follow the prompt arrow. */
  ghost predicate ShowsParts(trimmed: seq<string>, parts: seq<string>) {
    && parts != [] && (forall k :: 0 <= k < |parts| ==> Tidy(parts[k]))
    && (|| trimmed == parts
        || exists pad: string :: (forall i :: 0 <= i < |pad| ==> IsSpace(pad[i])) && trimmed == [[ARROW] + pad + parts[0]] + parts[1..])
  }

  lemma ShownPartsAreContent(trimmed: seq<string>, parts: seq<string>)
    requires ShowsParts(trimmed, parts)
    requires forall k :: 0 <= k < |parts| ==> !StartsWithArrow(parts[k]) && !IsStopHint(parts[k])
    ensures Stripped(trimmed) == parts
  {
    hide IsStopHint, StripArrow, StartsWithArrow;
    KeptLinesStay(parts);
    if trimmed != parts {
      var pad: string :| (forall i :: 0 <= i < |pad| ==> IsSpace(pad[i])) && trimmed == [[ARROW] + pad + parts[0]] + parts[1..];
      PromptLine(pad, parts[0]);
      KeptLinesStay(parts[1..]);
      assert trimmed[1..] == parts[1..] && parts == [parts[0]] + parts[1..];
    }
  }

  /**
   A boxed pointer with a plain id reads back as the printed command exactly if no line after the first starts
   with the prompt arrow, and that command is the one the delivery accepts for its recipient.
   */
  lemma WrappedPointerReadsBack(lines: seq<string>, unboxed: seq<string>, m: Message, parts: seq<string>, w: Worker)
    requires Plain(m) && Wraps(parts, m)
    requires Interior(lines).Some? && ShowsParts(TrimNonEmpty(Interior(lines).value), parts)
    ensures PointerCommand(lines, unboxed) == Some(CheckCommand(m)) <==> ArrowFree(parts)
    ensures PointerMatchesDelivery(CheckCommand(m), m, w) <==> Addressable(m, w)
  {
    hide Interior, CheckCommand, BuildDeliveryPointer, Accept, TrimNonEmpty, StartsWithArrow, ShowsParts, Stripped, IsStopHint, Wraps;
    MatchIsOwnCommand(CheckCommand(m), m, w);
    if ArrowFree(parts) {
      forall k | 0 <= k < |parts| ensures !StartsWithArrow(parts[k]) && !IsStopHint(parts[k]) {
        WrappedLineKept(parts, m, k);
      }
      ShownPartsAreContent(TrimNonEmpty(Interior(lines).value), parts);
      JoinedPartsReadBack(parts, m, Trim(Join(lines, "\n")));
    } else {
      LeadingArrowIsLost(lines, unboxed, m, parts);
      ShorterCommand(m);
    }
  }

  lemma JoinedPartsReadBack(parts: seq<string>, m: Message, other: string)
    requires Plain(m) && Wraps(parts, m)
    ensures FirstAccepted([Join(parts, ""), Join(parts, " "), other]) == Some(CheckCommand(m))
  {
    hide CheckCommand, BuildDeliveryPointer, Accept, Join;
    JoinDropped(parts);
    NeverAnother(Join(parts, ""), m);
    PrintedIsAccepted(m);
    var all := [Join(parts, ""), Join(parts, " "), other];
    assert all[1..][0] == all[1];
  }

  /** A box around the lines is what the interior search finds, when nothing after it opens another box. */
  lemma BoxHasInterior(before: seq<string>, top: string, body: seq<string>, bottom: string, after: seq<string>)
    requires IsEdge(top, TOP_EDGE) && IsEdge(bottom, BOTTOM_EDGE) && !IsEdge(bottom, TOP_EDGE)
    requires forall i :: 0 <= i < |body| ==> !IsEdge(body[i], TOP_EDGE) && !IsEdge(body[i], BOTTOM_EDGE)
    requires forall i :: 0 <= i < |after| ==> !IsEdge(after[i], TOP_EDGE)
    ensures Interior(before + [top] + body + [bottom] + after) == Some(body)
  {
    hide IsEdge;
    var tail := body + [bottom] + after;
    var lines := before + [top] + tail;
    LastTopIs(before, top, tail);
    BottomEndsBody(body, bottom, after);
    assert lines == before + [top] + body + [bottom] + after && lines[|before| + 1..] == tail;
  }

  lemma {:induction false} LastTopIs(before: seq<string>, top: string, tail: seq<string>)
    requires IsEdge(top, TOP_EDGE) && forall i :: 0 <= i < |tail| ==> !IsEdge(tail[i], TOP_EDGE)
    ensures LastTop(before + [top] + tail) == |before|
    decreases |tail|
  {
    hide IsEdge;
    var lines := before + [top] + tail;
    if tail != [] {
      LastTopIs(before, top, tail[..|tail| - 1]);
      assert lines[..|lines| - 1] == before + [top] + tail[..|tail| - 1];
    }
  }

  lemma {:induction false} BottomEndsBody(body: seq<string>, bottom: string, after: seq<string>)
    requires IsEdge(bottom, BOTTOM_EDGE) && forall i :: 0 <= i < |body| ==> !IsEdge(body[i], BOTTOM_EDGE)
    ensures UpToBottom(body + [bottom] + after) == Some(body)
  {
    hide IsEdge;
    var lines := body + [bottom] + after;
    if body != [] {
      assert lines[1..] == body[1..] + [bottom] + after;
      BottomEndsBody(body[1..], bottom, after);
      assert [body[0]] + body[1..] == body;
    }
  }

  /**
   Otherwise the pointer was broken right before a Run id that begins with the prompt arrow. The arrow is taken
   for a prompt: the pane reads as the command for the rest of the id, or as none when the arrow was all of it.
   */
  lemma LeadingArrowIsLost(lines: seq<string>, unboxed: seq<string>, m: Message, parts: seq<string>)
    requires Plain(m) && Wraps(parts, m) && !ArrowFree(parts)
    requires Interior(lines).Some? && ShowsParts(TrimNonEmpty(Interior(lines).value), parts)
    ensures LeadingArrow(m) && !("term_" <= m.recipient)
    ensures parts[|parts| - 1] == m.runId + "`."
    ensures PointerCommand(lines, unboxed) ==
            if |m.runId| == 1 then None else Some(CheckCommand(m.(runId := m.runId[1..])))
  {
    hide Interior, CheckCommand, BuildDeliveryPointer, Accept, TrimNonEmpty, ShowsParts, Stripped, Join, Head, Wraps, Fixed;
    var k :| 0 < k < |parts| && StartsWithArrow(parts[k]);
    ArrowLine(parts, m, k);
    var front, id, last := parts[..k], m.runId[1..], m.runId + "`.";
    var seen := front + [id + "`."];
    assert parts == front + [last] && last == [ARROW] + [] + (id + "`.");
    ArrowStripped(TrimNonEmpty(Interior(lines).value), parts, m, front, id);
    var raw := Trim(Join(lines, "\n"));
    if id == "" {
      ArrowAloneRefused(front, m);
      RawRefused(lines, parts);
      var all := [Join(seen, ""), Join(seen, " "), raw];
      NoneAccepted(all);
    } else {
      SeenWraps(front, m, id);
      JoinedPartsReadBack(seen, m.(runId := id), raw);
    }
  }

  lemma NoneAccepted(all: seq<string>)
    requires |all| == 3 && Accept(all[0]) == None && Accept(all[1]) == None && Accept(all[2]) == None
    ensures FirstAccepted(all) == None
  {
    hide Accept;
    assert all[1..][0] == all[1] && all[1..][1..] == [all[2]] && [all[2]][1..] == [];
    assert FirstAccepted([]) == None && FirstAccepted([all[2]]) == None;
  }

  lemma ShorterCommand(m: Message)
    requires LeadingArrow(m) && !("term_" <= m.recipient)
    ensures CheckCommand(m) != CheckCommand(m.(runId := m.runId[1..]))
  {
    hide CheckCommand;
    CommandForm(m);
    CommandForm(m.(runId := m.runId[1..]));
    assert |CheckCommand(m)| == |CheckCommand(m.(runId := m.runId[1..]))| + 1;
  }

  /** Every such id can be lost: by breaking the pointer right before it, and nowhere else. */
  lemma SplitBeforeId(m: Message)
    requires Plain(m) && LeadingArrow(m)
    ensures var parts := [Fixed(m)[..|Fixed(m)| - 1], Rest(m)];
            Wraps(parts, m) && !ArrowFree(parts) && parts[0] + " " == Fixed(m)
  {
    hide Head, BuildDeliveryPointer;
    FixedAndRest(m);
    RestHasNoSpace(m);
    var parts := [Fixed(m)[..|Fixed(m)| - 1], Rest(m)];
    assert parts[1..] == [Rest(m)];
    assert Join(parts, " ") == parts[0] + " " + Rest(m);
    assert StartsWithArrow(parts[1]);
  }

  lemma {:induction false} StrippedConcat(a: seq<string>, b: seq<string>)
    ensures Stripped(a + b) == Stripped(a) + Stripped(b)
  {
    hide *;
    if a == [] {
      NothingStripped();
      assert a + b == b && [] + Stripped(b) == Stripped(b);
    } else {
      StrippedConcat(a[1..], b);
      StrippedHead(a);
      StrippedHead(a + b);
      assert (a + b)[1..] == a[1..] + b && (a + b)[0] == a[0];
      assert LineKept(a[0]) + (Stripped(a[1..]) + Stripped(b)) == (LineKept(a[0]) + Stripped(a[1..])) + Stripped(b);
    }
  }

  function LineKept(line: string): seq<string> {
    if line == [ARROW] || IsStopHint(line) || StripArrow(line) == [] then [] else [StripArrow(line)]
  }

  lemma StrippedHead(lines: seq<string>)
    requires lines != []
    ensures Stripped(lines) == LineKept(lines[0]) + Stripped(lines[1..])
  {
    hide IsStopHint, StripArrow;
  }

  lemma NothingStripped()
    ensures Stripped([]) == []
  {
  }

  /** What is left of the lines when the last one begins with an arrow. */
  lemma ArrowStripped(trimmed: seq<string>, parts: seq<string>, m: Message, front: seq<string>, id: string)
    requires Plain(m) && Wraps(parts, m) && ShowsParts(trimmed, parts) && front != []
    requires parts == front + [[ARROW] + [] + (id + "`.")] && NoSpace(id)
    ensures Stripped(trimmed) == front + [id + "`."]
  {
    hide Wraps, Stripped, IsStopHint, StripArrow;
    var last, k := [ARROW] + [] + (id + "`."), |front|;
    var head := trimmed[..k];
    assert trimmed == head + [last] && ShowsParts(head, front) by {
      ShownFront(trimmed, parts, front, last);
    }
    forall i | 0 <= i < k ensures !StartsWithArrow(front[i]) && !IsStopHint(front[i]) {
      assert front[i] == parts[i];
      WrappedLineKept(parts, m, i);
      if i > 0 && StartsWithArrow(parts[i]) {
        ArrowLine(parts, m, i);
      }
    }
    ShownPartsAreContent(head, front);
    StrippedConcat(head, [last]);
    PromptLine([], id + "`.");
    StrippedOne(last);
  }

  lemma StrippedOne(line: string)
    requires line != [ARROW] && !IsStopHint(line) && StripArrow(line) != []
    ensures Stripped([line]) == [StripArrow(line)]
  {
    assert [line][1..] == [];
  }

  lemma ShownFront(trimmed: seq<string>, parts: seq<string>, front: seq<string>, last: string)
    requires ShowsParts(trimmed, parts) && front != [] && parts == front + [last]
    ensures |trimmed| == |parts| && trimmed == trimmed[..|front|] + [last] && ShowsParts(trimmed[..|front|], front)
  {
    hide Tidy;
    var head := trimmed[..|front|];
    assert forall k :: 0 <= k < |front| ==> front[k] == parts[k];
    if trimmed == parts {
      assert head == front;
    } else {
      var pad: string :| (forall i :: 0 <= i < |pad| ==> IsSpace(pad[i])) && trimmed == [[ARROW] + pad + parts[0]] + parts[1..];
      assert head == [[ARROW] + pad + front[0]] + front[1..];
    }
  }

  /** The lines seen are a wrap of the pointer with the shorter id. */
  lemma SeenWraps(front: seq<string>, m: Message, id: string)
    requires Plain(m) && LeadingArrow(m) && !("term_" <= m.recipient) && front != []
    requires Wraps(front + [m.runId + "`."], m) && id == m.runId[1..] && id != ""
    ensures Plain(m.(runId := id)) && Wraps(front + [id + "`."], m.(runId := id))
  {
    hide Head, BuildDeliveryPointer, Join, OptionWord;
    var n := m.(runId := id);
    FrontIsFixed(front, m);
    FixedAndRest(n);
    assert Fixed(n) == Fixed(m) by { SameFixed(m, n); }
    R.JoinConcat(front, [id + "`."], " ");
    R.SingleJoin(id + "`.");
    assert forall i :: 0 <= i < |id| ==> id[i] == m.runId[i + 1];
  }

  lemma FrontIsFixed(front: seq<string>, m: Message)
    requires front != [] && !Bare(m) && !("term_" <= m.recipient) && Wraps(front + [m.runId + "`."], m)
    ensures Join(front, " ") + " " == Fixed(m)
  {
    hide Head, BuildDeliveryPointer, Join, Fixed;
    var last := m.runId + "`.";
    R.JoinConcat(front, [last], " ");
    R.SingleJoin(last);
    FixedAndRest(m);
    var a := Join(front, " ") + " ";
    assert a + last == Fixed(m) + last;
    assert a == (a + last)[..|a|] && Fixed(m) == (Fixed(m) + last)[..|a|];
  }

  lemma SameFixed(m: Message, n: Message)
    requires m.recipient == n.recipient
    ensures Fixed(m) == Fixed(n)
  {
  }

  lemma RawRefused(lines: seq<string>, parts: seq<string>)
    requires Interior(lines).Some? && ShowsParts(TrimNonEmpty(Interior(lines).value), parts) && |parts| > 1
    requires var last := parts[|parts| - 1]; |last| >= 2 && last[|last| - 2..] == "`."
    ensures Accept(Trim(Join(lines, "\n"))) == None
  {
    hide Interior, TrimNonEmpty, Accept, Tidy;
    var shown := TrimNonEmpty(Interior(lines).value);
    assert shown[|shown| - 1] == parts[|parts| - 1];
    assert R.EndsQuoted(shown);
    R.RawTextRefused(lines);
  }

  /** With nothing left of the id, no reading of the lines is a command. */
  lemma ArrowAloneRefused(front: seq<string>, m: Message)
    requires front != [] && !Bare(m) && !("term_" <= m.recipient) && Wraps(front + [m.runId + "`."], m)
    ensures var seen := front + ["" + "`."]; Accept(Join(seen, "")) == None && Accept(Join(seen, " ")) == None
  {
    hide Head, BuildDeliveryPointer, Join, Accept, Dropped;
    var seen := front + ["" + "`."];
    FrontIsFixed(front, m);
    R.JoinConcat(front, ["`."], " ");
    R.SingleJoin("`.");
    var text := Fixed(m) + "`.";
    assert "" + "`." == "`." && Join(seen, " ") == text;
    JoinDropped(seen);
    DroppedSelf(text);
    NoIdRefused(Join(seen, ""), m);
    NoIdRefused(Join(seen, " "), m);
  }

  lemma NoIdRefused(x: string, m: Message)
    requires !Bare(m) && !("term_" <= m.recipient) && Dropped(x, Fixed(m) + "`.")
    ensures Accept(x) == None
  {
    hide *;
    var h, cmd, t := Head(m), BARE_CHECK + " --run ", Fixed(m) + "`.";
    FixedQuiet(m);
    NoIdText(m, h, cmd, t);
    DroppedChars(x, t, ARROW);
    QuietConcat(x, "", ARROW);
    assert x + "" == x;
    NothingToDrop(x);
    var p, c := NoIdParts(x, h, cmd, t);
    assert cmd[|cmd| - 1] == " --run "[6];
    if MatchAt(x, 0).Some? {
      QuotedCommandIs(x, p, c);
      DroppedCounts(c, cmd);
      NoIdCounts();
      ShapeWithoutId(c, cmd);
      var k := MatchIsQuoted(x);
      CommandEndsBare(x, k + 1);
    }
    NoPointerNoCommand(x);
  }

  lemma NoPointerNoCommand(x: string)
    requires DropArrows(x) == x && x != "" && x[0] == 'Y' && MatchAt(x, 0).None?
    ensures Accept(x) == None
  {
    hide MatchAt, DropArrows;
  }

  lemma NoIdText(m: Message, h: string, cmd: string, t: string)
    requires !Bare(m) && !("term_" <= m.recipient) && h == Head(m) && cmd == BARE_CHECK + " --run " && t == Fixed(m) + "`."
    requires ARROW !in Fixed(m)
    ensures t == h + ['`'] + (cmd + ['`'] + ".") && t == h + (['`'] + (cmd + ['`'] + "."))
    ensures h != "" && h[0] == 'Y' && '`' !in h && '`' !in cmd && ARROW !in t
  {
    FixedWithoutId(m);
    hide *;
    HeadForm(m);
    InertHasNone(h);
    NoIdForm(h, BARE_CHECK);
    BareInert();
    InertHasNone(BARE_CHECK);
    assert '`' !in " --run " && ARROW !in "`.";
    NotInConcat(BARE_CHECK, " --run ", '`');
    NotInConcat(Fixed(m), "`.", ARROW);
  }

  lemma FixedWithoutId(m: Message)
    requires !Bare(m) && !("term_" <= m.recipient)
    ensures Fixed(m) == Head(m) + "`" + BARE_CHECK + " " + "--run" + " "
  {
    hide Head, BARE_CHECK;
  }

  lemma InertHasNone(s: string)
    requires Inert(s)
    ensures '`' !in s && ARROW !in s && '+' !in s
  {
  }

  /** A shortened text without an id still has its two backticks. */
  lemma NoIdParts(x: string, h: string, cmd: string, t: string) returns (p: string, c: string)
    requires Dropped(x, t) && t == h + ['`'] + (cmd + ['`'] + ".") && t == h + (['`'] + (cmd + ['`'] + "."))
    requires h != "" && h[0] == 'Y' && '`' !in h && '`' !in cmd
    ensures x == p + ['`'] + c + ['`', '.'] && '`' !in p && '`' !in c && Dropped(c, cmd)
    ensures x != "" && x[0] == 'Y'
  {
    hide Dropped;
    var q, rest;
    p, q := DroppedSplit(x, h, '`', cmd + ['`'] + ".");
    c, rest := DroppedSplit(q, cmd, '`', ".");
    DroppedDot(rest);
    DroppedChars(p, h, '`');
    DroppedChars(c, cmd, '`');
    DroppedStart(x, h, ['`'] + (cmd + ['`'] + "."));
  }

  lemma NoIdForm(h: string, bare: string)
    ensures var t, cmd := h + "`" + bare + " " + "--run" + " " + "`.", bare + " --run ";
            t == h + ['`'] + (cmd + ['`'] + ".") && t == h + (['`'] + (cmd + ['`'] + "."))
  {
    assert " --run " == " " + "--run" + " " && "`." == ['`'] + ".";
  }

  lemma DroppedDot(x: string)
    requires Dropped(x, ".")
    ensures x == "."
  {
    assert "."[1..] == "";
  }

  lemma DroppedStart(x: string, h: string, rest: string)
    requires h != "" && h[0] != ' ' && Dropped(x, h + rest)
    ensures x != "" && x[0] == h[0]
  {
  }

  lemma NoIdCounts()
    ensures var cmd := BARE_CHECK + " --run ";
            Count(cmd, true) == Count(BARE_CHECK, true) + 2 && Count(cmd, false) == Count(BARE_CHECK, false) + 5
  {
    hide BARE_CHECK, Count;
    assert " --run " == " " + "--run" + " ";
    assert NoSpace("--run");
    PaddedCount("--run");
    CountConcat(BARE_CHECK, " --run ", true);
    CountConcat(BARE_CHECK, " --run ", false);
    CountNoSpace("--run");
    CountConcat(" ", "--run", false);
    CountConcat(" " + "--run", " ", false);
    SpaceCount();
  }

  lemma SpaceCount()
    ensures Count(" ", false) == 0
  {
  }

  lemma ShapeWithoutId(c: string, cmd: string)
    requires CommandShape(c, BARE_CHECK)
    requires Count(c, false) == Count(cmd, false) == Count(BARE_CHECK, false) + 5
    requires Count(cmd, true) == Count(BARE_CHECK, true) + 2 && (Count(c, true) == Count(cmd, true) ==> c == cmd)
    ensures c == cmd
  {
    hide Count;
  }

  /** A recognised command does not end in a space. */
  lemma CommandEndsBare(s: string, q: nat)
    requires CommandAt(s, q).Some?
    ensures var c := CommandAt(s, q).value.command; c != "" && c[|c| - 1] != ' '
  {
    CommandCases(s, q);
    var c, e := CommandAt(s, q).value.command, CommandAt(s, q).value.end - 2;
    if IsBareCommand(s, q, c, e) {
      LastFolds(s, q);
    } else if IsOptionCommand(s, q, c, e, "--run") {
      OptionEndsBare(s, q, c, e, "--run");
    } else {
      OptionEndsBare(s, q, c, e, "--terminal");
    }
    hide *;
  }

  lemma OptionEndsBare(s: string, q: nat, c: string, e: nat, word: string)
    requires IsOptionCommand(s, q, c, e, word)
    ensures c != "" && c[|c| - 1] != ' '
  {
    hide LiteralAt, BARE_CHECK;
    LastOfSlice(s, q, q + |BARE_CHECK| + |word| + 2, e);
  }

  lemma LastOfSlice(s: string, q: nat, id: nat, e: nat)
    requires q <= id < e <= |s| && NoSpace(s[id..e])
    ensures s[q..e] != "" && s[q..e][e - q - 1] != ' '
  {
    assert s[id..e][e - id - 1] == s[q..e][e - q - 1];
  }

  lemma LastFolds(s: string, q: nat)
    requires LiteralAt(s, q, BARE_CHECK)
    ensures q + |BARE_CHECK| <= |s| && s[q + |BARE_CHECK| - 1] != ' '
  {
    var n := |BARE_CHECK| - 1;
    assert BARE_CHECK[n] == 'k';
    assert Fold(s[q + n]) == Fold(BARE_CHECK[n]);
  }
}
