/**
 What an accepted composer text is, said by a grammar instead of a reader: pointer texts and white space, one after
 another, that all quote the same command. The prompt arrows before pointers are taken out first, and nothing else.
 */
module PointerGrammar {
  import opened Basics
  import opened Mail
  import opened Composer
  import P = PointerRoundTrip
  import R = RawPane

  /** One white-space character, or one pointer text in its parts. */
  datatype Piece =
    | Gap(blank: char)
    | Pointer(you: string, digits: string, message: string, plural: string, prose: string, command: string)

  /** Equal but for case. */
  predicate Same(a: string, b: string) {
    |a| == |b| && forall k :: 0 <= k < |a| ==> Fold(a[k]) == Fold(b[k])
  }

  predicate AllDigits(s: string) {
    forall k :: 0 <= k < |s| ==> '0' <= s[k] <= '9'
  }

  /** The bare check followed by the option and an id without white space. */
  predicate WithOption(c: string, option: string) {
    var n := |BARE_CHECK|;
    && n + |option| < |c| && Same(c[..n], BARE_CHECK) && Same(c[n..n + |option|], option)
    && NoSpace(c[n + |option|..])
  }

  predicate IsCommand(c: string) {
    Same(c, BARE_CHECK) || WithOption(c, " --run ") || WithOption(c, " --terminal ")
  }

  /** `You have <digits> orchestration message(s)`, ending a word, then text without a backtick, then the quoted command. */
  predicate WellFormed(p: Piece) {
    match p
    case Gap(c) => IsSpace(c)
    case Pointer(you, digits, message, plural, prose, command) =>
      && Same(you, YOU_HAVE) && digits != "" && AllDigits(digits) && Same(message, MESSAGE)
      && (plural == "" || Same(plural, "s"))
      && '`' !in prose && (prose != "" ==> !IsWord(prose[0]))
      && IsCommand(command)
  }

  function Text(p: Piece): string {
    match p
    case Gap(c) => [c]
    case Pointer(you, digits, message, plural, prose, command) =>
      you + (digits + (message + (plural + (prose + ("`" + (command + "`."))))))
  }

  ghost predicate AllWellFormed(pieces: seq<Piece>) {
    forall k :: 0 <= k < |pieces| ==> WellFormed(pieces[k])
  }

  function TextOf(pieces: seq<Piece>): string {
    if pieces == [] then "" else Text(pieces[0]) + TextOf(pieces[1..])
  }

  function CommandsOf(pieces: seq<Piece>): seq<string> {
    if pieces == [] then []
    else (if pieces[0].Pointer? then [pieces[0].command] else []) + CommandsOf(pieces[1..])
  }

  // ----- texts at a place -----

  predicate At(s: string, i: nat, t: string) {
    i + |t| <= |s| && s[i..i + |t|] == t
  }

  lemma AtConcat(s: string, i: nat, a: string, b: string)
    ensures At(s, i, a + b) <==> At(s, i, a) && At(s, i + |a|, b)
  {
    if At(s, i, a + b) {
      assert s[i..i + |a + b|][..|a|] == s[i..i + |a|] && (a + b)[..|a|] == a;
      assert s[i..i + |a + b|][|a|..] == s[i + |a|..i + |a| + |b|] && (a + b)[|a|..] == b;
    }
    if At(s, i, a) && At(s, i + |a|, b) {
      assert s[i..i + |a + b|] == s[i..i + |a|] + s[i + |a|..i + |a| + |b|];
    }
  }

  lemma AtChar(s: string, i: nat, t: string, k: nat)
    requires At(s, i, t) && k < |t|
    ensures i + k < |s| && s[i + k] == t[k]
  {
    assert s[i..i + |t|][k] == s[i + k];
  }

  lemma LiteralIsSame(s: string, i: nat, t: string, literal: string)
    requires At(s, i, t) && |t| == |literal|
    ensures LiteralAt(s, i, literal) <==> Same(t, literal)
  {
    forall k | 0 <= k < |t| ensures s[i + k] == t[k] {
      AtChar(s, i, t, k);
    }
    if LiteralAt(s, i, literal) {
      assert forall k :: 0 <= k < |t| ==> Fold(s[i + k]) == Fold(literal[k]);
    }
  }

  // ----- the parts of a pointer, as the reader finds them -----

  lemma {:induction false} DigitsRead(s: string, i: nat, digits: string)
    requires At(s, i, digits) && AllDigits(digits)
    requires i + |digits| < |s| && !('0' <= s[i + |digits|] <= '9')
    ensures DigitsEnd(s, i) == i + |digits|
    decreases |digits|
  {
    if digits != "" {
      AtChar(s, i, digits, 0);
      assert digits == [digits[0]] + digits[1..];
      AtConcat(s, i, [digits[0]], digits[1..]);
      DigitsRead(s, i + 1, digits[1..]);
    }
  }

  lemma {:induction false} DigitsAre(s: string, i: nat)
    requires i <= |s|
    ensures AllDigits(s[i..DigitsEnd(s, i)])
    decreases |s| - i
  {
    var n := DigitsEnd(s, i);
    if n > i {
      DigitsAre(s, i + 1);
      assert s[i..n] == [s[i]] + s[i + 1..n];
    }
  }

  lemma BacktickRead(s: string, i: nat, prose: string)
    requires At(s, i, prose) && '`' !in prose && At(s, i + |prose|, "`")
    ensures FirstBacktick(s, i) == i + |prose|
  {
    AtChar(s, i + |prose|, "`", 0);
    assert forall k :: i <= k < i + |prose| ==> s[k] == s[i..i + |prose|][k - i];
  }

  lemma HeaderRead(s: string, i: nat, p: Piece)
    requires p.Pointer? && WellFormed(p)
    requires At(s, i, p.you + (p.digits + (p.message + p.plural)))
    requires var e := i + |p.you| + |p.digits| + |p.message| + |p.plural|; e < |s| && !IsWord(s[e])
    ensures HeaderEnd(s, i) == Some(i + |p.you| + |p.digits| + |p.message| + |p.plural|)
  {
    hide At, LiteralAt, Same, AllDigits, IsCommand, YOU_HAVE, MESSAGE;
    var d := i + |p.you|;
    var n := d + |p.digits|;
    var b := n + |p.message|;
    AtConcat(s, i, p.you, p.digits + (p.message + p.plural));
    AtConcat(s, d, p.digits, p.message + p.plural);
    AtConcat(s, n, p.message, p.plural);
    SameLength(p.you, YOU_HAVE);
    SameLength(p.message, MESSAGE);
    LiteralIsSame(s, i, p.you, YOU_HAVE);
    LiteralIsSame(s, n, p.message, MESSAGE);
    MessageFirst(s, n);
    DigitsRead(s, d, p.digits);
    PluralRead(s, b, p.plural);
  }

  lemma SameLength(a: string, b: string)
    requires Same(a, b)
    ensures |a| == |b|
  {
  }

  lemma MessageFirst(s: string, n: nat)
    requires LiteralAt(s, n, MESSAGE)
    ensures n < |s| && s[n] == ' '
  {
    P.FirstFolds(s, n, MESSAGE);
    assert MESSAGE[0] == ' ';
  }

  lemma PluralRead(s: string, b: nat, plural: string)
    requires At(s, b, plural) && (plural == "" || Same(plural, "s"))
    requires b + |plural| < |s| && !IsWord(s[b + |plural|])
    ensures (if LiteralAt(s, b, "s") then b + 1 else b) == b + |plural|
  {
    if plural == "" {
      if LiteralAt(s, b, "s") {
        P.FirstFolds(s, b, "s");
      }
    } else {
      LiteralIsSame(s, b, plural, "s");
    }
  }

  /** What follows a pointer cannot be taken for more of its id. */
  predicate IdStopsAt(s: string, e: nat) {
    exists k :: e <= k <= |s| && '`' !in s[e..k] && (k == |s| || IsSpace(s[k]))
  }

  lemma {:induction false} NoCloseIn(s: string, i: nat, k: nat)
    requires i <= k <= |s| && '`' !in s[i..k] && (k == |s| || IsSpace(s[k]))
    ensures LastClose(s, i) == None
    decreases k - i
  {
    hide IsSpace;
    if i < k {
      assert s[i..k] == [s[i]] + s[i + 1..k];
      NoCloseIn(s, i + 1, k);
    }
  }

  lemma {:induction false} LastCloseRead(s: string, i: nat, e: nat)
    requires i <= e && e + 1 < |s| && s[e] == '`' && s[e + 1] == '.' && NoSpace(s[i..e]) && IdStopsAt(s, e + 2)
    ensures LastClose(s, i) == Some(e)
    decreases e - i
  {
    hide IsSpace;
    if i < e {
      assert s[i..e] == [s[i]] + s[i + 1..e];
      assert s[i..e][0] == s[i];
      NoSpaceTail(s[i..e]);
      LastCloseRead(s, i + 1, e);
    } else {
      var k :| e + 2 <= k <= |s| && '`' !in s[e + 2..k] && (k == |s| || IsSpace(s[k]));
      assert s[e + 1..k] == ['.'] + s[e + 2..k];
      NoCloseIn(s, e + 1, k);
      MarksAreNoSpace();
    }
  }

  lemma NoSpaceTail(t: string)
    requires t != "" && NoSpace(t)
    ensures NoSpace(t[1..])
  {
  }

  lemma MarksAreNoSpace()
    ensures !IsSpace('`') && !IsSpace('.')
  {
  }

  lemma CommandRead(s: string, q: nat, c: string)
    requires IsCommand(c) && At(s, q, c + "`.") && IdStopsAt(s, q + |c| + 2)
    ensures CommandAt(s, q) == Some(Match(q + |c| + 2, c))
  {
    hide At, LiteralAt, BARE_CHECK, IdStopsAt, LastClose, CommandAt, IsSpace, WithOption, Same;
    var e := q + |c|;
    AtConcat(s, q, c, "`.");
    TicksAt(s, e);
    CommandIs(s, q, c);
    if Same(c, BARE_CHECK) {
      BareRead(s, q, c);
    } else if WithOption(c, " --run ") {
      OptionRead(s, q, c, " --run ");
    } else {
      OptionRead(s, q, c, " --terminal ");
    }
  }

  lemma TicksAt(s: string, e: nat)
    ensures At(s, e, "`.") <==> e + 2 <= |s| && s[e] == '`' && s[e + 1] == '.'
  {
    if e + 2 <= |s| {
      assert s[e..e + 2] == [s[e], s[e + 1]];
    }
  }

  lemma CommandIs(s: string, q: nat, c: string)
    ensures At(s, q, c) ==> q + |c| <= |s| && s[q..q + |c|] == c
  {
  }

  lemma BareRead(s: string, q: nat, c: string)
    requires Same(c, BARE_CHECK) && At(s, q, c) && At(s, q + |c|, "`.")
    ensures CommandAt(s, q) == Some(Match(q + |c| + 2, c))
  {
    hide At, LiteralAt, BARE_CHECK, LastClose, IsSpace;
    SameLength(c, BARE_CHECK);
    LiteralIsSame(s, q, c, BARE_CHECK);
    TicksAt(s, q + |c|);
    CommandIs(s, q, c);
    P.NoOptionAt(s, q + |c|);
  }

  lemma OneOption(s: string, p: nat)
    ensures !(LiteralAt(s, p, " --run ") && LiteralAt(s, p, " --terminal "))
  {
    assert " --run "[3] == 'r' && " --terminal "[3] == 't';
    assert LiteralAt(s, p, " --run ") ==> Fold(s[p + 3]) == Fold('r');
    assert LiteralAt(s, p, " --terminal ") ==> Fold(s[p + 3]) == Fold('t');
  }

  lemma OptionRead(s: string, q: nat, c: string, option: string)
    requires option == " --run " || option == " --terminal "
    requires WithOption(c, option) && At(s, q, c) && At(s, q + |c|, "`.") && IdStopsAt(s, q + |c| + 2)
    ensures CommandAt(s, q) == Some(Match(q + |c| + 2, c))
  {
    hide *;
    OptionParts(s, q, c, option);
    CommandIs(s, q, c);
    OptionFound(s, q, option, q + |c|);
  }

  /** Where the bare check, the option and the id stand in the text. */
  lemma OptionParts(s: string, q: nat, c: string, option: string)
    requires WithOption(c, option) && At(s, q, c) && At(s, q + |c|, "`.") && IdStopsAt(s, q + |c| + 2)
    ensures var e := q + |c|; var id := q + |BARE_CHECK| + |option|;
            && LiteralAt(s, q, BARE_CHECK) && LiteralAt(s, q + |BARE_CHECK|, option)
            && id < e && e + 2 <= |s| && !IsSpace(s[id]) && LastClose(s, id + 1) == Some(e)
  {
    hide At, LiteralAt, BARE_CHECK, LastClose, IsSpace, Same, NoSpace, IdStopsAt;
    var n, o := |BARE_CHECK|, |option|;
    var id, e := q + n + o, q + |c|;
    SplitTwice(c, n, n + o);
    AtConcat(s, q, c[..n], c[n..n + o] + c[n + o..]);
    AtConcat(s, q + n, c[n..n + o], c[n + o..]);
    LiteralIsSame(s, q, c[..n], BARE_CHECK);
    LiteralIsSame(s, q + n, c[n..n + o], option);
    CommandIs(s, id, c[n + o..]);
    TicksAt(s, e);
    IdRead(s, id, e);
  }

  lemma SplitTwice(c: string, a: nat, b: nat)
    requires a <= b <= |c|
    ensures c == c[..a] + (c[a..b] + c[b..])
  {
  }

  lemma OptionFound(s: string, q: nat, option: string, e: nat)
    requires option == " --run " || option == " --terminal "
    requires LiteralAt(s, q, BARE_CHECK) && LiteralAt(s, q + |BARE_CHECK|, option)
    requires var id := q + |BARE_CHECK| + |option|; id < e < |s| && !IsSpace(s[id]) && LastClose(s, id + 1) == Some(e)
    ensures CommandAt(s, q) == Some(Match(e + 2, s[q..e]))
  {
    hide LiteralAt, BARE_CHECK, LastClose, IsSpace;
    OneOption(s, q + |BARE_CHECK|);
  }

  lemma IdRead(s: string, id: nat, e: nat)
    requires id < e && e + 2 <= |s| && s[e] == '`' && s[e + 1] == '.' && NoSpace(s[id..e]) && IdStopsAt(s, e + 2)
    ensures !IsSpace(s[id]) && LastClose(s, id + 1) == Some(e)
  {
    hide IsSpace, IdStopsAt, LastClose;
    assert s[id..e] == [s[id]] + s[id + 1..e];
    assert s[id..e][0] == s[id];
    NoSpaceTail(s[id..e]);
    LastCloseRead(s, id + 1, e);
  }

  /** A pointer text is matched as itself, whatever the next piece. */
  lemma PointerRead(s: string, i: nat, p: Piece)
    requires p.Pointer? && WellFormed(p) && At(s, i, Text(p)) && IdStopsAt(s, i + |Text(p)|)
    ensures i <= |s| && MatchAt(s, i) == Some(Match(i + |Text(p)|, p.command))
  {
    hide At, Same, AllDigits, IsCommand, HeaderEnd, IdStopsAt, CommandAt, IsWord;
    var header, rest := p.you + (p.digits + (p.message + p.plural)), "`" + (p.command + "`.");
    var e := i + |header|;
    TextParts(p);
    AtConcat(s, i, header, p.prose + rest);
    AtConcat(s, e, p.prose, rest);
    AtConcat(s, e + |p.prose|, "`", p.command + "`.");
    AfterHeader(s, e, p.prose);
    HeaderRead(s, i, p);
    BacktickRead(s, e, p.prose);
    CommandRead(s, e + |p.prose| + 1, p.command);
    InRange(s, i, Text(p));
  }

  lemma InRange(s: string, i: nat, t: string)
    requires At(s, i, t)
    ensures i + |t| <= |s|
  {
  }

  lemma TextParts(p: Piece)
    requires p.Pointer?
    ensures Text(p) == (p.you + (p.digits + (p.message + p.plural))) + (p.prose + ("`" + (p.command + "`.")))
  {
  }

  lemma AfterHeader(s: string, e: nat, prose: string)
    requires At(s, e, prose) && At(s, e + |prose|, "`") && (prose != "" ==> !IsWord(prose[0]))
    ensures e < |s| && !IsWord(s[e])
  {
    AtChar(s, e + |prose|, "`", 0);
    if prose != "" {
      AtChar(s, e, prose, 0);
    }
  }

  lemma GapNoMatch(s: string, i: nat)
    requires i < |s| && IsSpace(s[i])
    ensures MatchAt(s, i) == None
  {
    assert YOU_HAVE[0] == 'Y';
    if LiteralAt(s, i, YOU_HAVE) {
      P.FirstFolds(s, i, YOU_HAVE);
    }
  }

  /** After a pointer comes the end, white space, or `You` and a space. */
  lemma NextStopsId(s: string, e: nat, pieces: seq<Piece>)
    requires AllWellFormed(pieces) && e <= |s| && s[e..] == TextOf(pieces)
    ensures IdStopsAt(s, e)
  {
    hide IsSpace, IsCommand, IsWord;
    if pieces == [] {
      assert e == |s| && s[e..e] == "";
    } else if pieces[0].Gap? {
      assert s[e] == s[e..][0] && s[e..e] == "";
    } else {
      var p := pieces[0];
      assert WellFormed(p) && |p.you| == 9;
      assert s[e..] == p.you + (p.digits + (p.message + (p.plural + (p.prose + ("`" + (p.command + "`.")))))) + TextOf(pieces[1..]);
      assert p.you == s[e..][..9] == s[e..e + 9];
      YouHasSpace(p.you);
      assert s[e..e + 3] == p.you[..3] && s[e + 3] == p.you[3];
    }
  }

  lemma YouHasSpace(you: string)
    requires Same(you, YOU_HAVE)
    ensures |you| == 9 && '`' !in you[..3] && IsSpace(you[3])
  {
    var y := YOU_HAVE;
    assert |y| == 9 && y[0] == 'Y' && y[1] == 'o' && y[2] == 'u' && y[3] == ' ';
    assert Fold(you[0]) == Fold(y[0]) && Fold(you[1]) == Fold(y[1]) && Fold(you[2]) == Fold(y[2]) && Fold(you[3]) == Fold(y[3]);
  }

  /** A sequence of pointer texts and white space is read as its commands, in order. */
  lemma {:induction false} GrammarIsRead(s: string, i: nat, pieces: seq<Piece>)
    requires AllWellFormed(pieces) && i <= |s| && s[i..] == TextOf(pieces)
    ensures Scan(s, i) == Some(CommandsOf(pieces))
    decreases |pieces|
  {
    hide WellFormed, MatchAt, Text, IsSpace, IdStopsAt;
    if pieces != [] {
      var p, e := pieces[0], i + |Text(pieces[0])|;
      assert s[i..][|Text(p)|..] == s[e..] == TextOf(pieces[1..]);
      assert At(s, i, Text(p)) by {
        assert s[i..][..|Text(p)|] == s[i..e];
      }
      GrammarIsRead(s, e, pieces[1..]);
      if p.Gap? {
        GapText(p);
        assert s[i] == s[i..][0];
        GapNoMatch(s, i);
        assert [] + CommandsOf(pieces[1..]) == CommandsOf(pieces[1..]);
      } else {
        NextStopsId(s, e, pieces[1..]);
        PointerRead(s, i, p);
      }
    }
  }

  lemma GapText(p: Piece)
    requires p.Gap?
    ensures Text(p) == [p.blank] && (WellFormed(p) ==> IsSpace(p.blank))
  {
  }

  // ----- and nothing else is -----

  lemma SliceIsSame(s: string, i: nat, literal: string)
    requires LiteralAt(s, i, literal)
    ensures i + |literal| <= |s| && Same(s[i..i + |literal|], literal)
  {
  }

  lemma HeaderIs(s: string, i: nat) returns (you: string, digits: string, message: string, plural: string)
    requires HeaderEnd(s, i).Some?
    ensures var e := HeaderEnd(s, i).value; e <= |s| && i <= e && s[i..e] == you + (digits + (message + plural))
    ensures Same(you, YOU_HAVE) && digits != "" && AllDigits(digits) && Same(message, MESSAGE)
    ensures plural == "" || Same(plural, "s")
    ensures BoundaryAt(s, HeaderEnd(s, i).value)
  {
    hide LiteralAt, Same, AllDigits, YOU_HAVE, MESSAGE, BoundaryAt;
    var d, e := i + |YOU_HAVE|, HeaderEnd(s, i).value;
    SliceIsSame(s, i, YOU_HAVE);
    var n := DigitsEnd(s, d);
    var b := n + |MESSAGE|;
    DigitsAre(s, d);
    SliceIsSame(s, n, MESSAGE);
    if LiteralAt(s, b, "s") {
      SliceIsSame(s, b, "s");
    }
    you, digits, message, plural := s[i..d], s[d..n], s[n..b], s[b..e];
    FourParts(s, i, d, n, b, e);
  }

  lemma FourParts(s: string, i: nat, d: nat, n: nat, b: nat, e: nat)
    requires i <= d <= n <= b <= e <= |s|
    ensures s[i..e] == s[i..d] + (s[d..n] + (s[n..b] + s[b..e]))
  {
    assert s[n..e] == s[n..b] + s[b..e];
    assert s[d..e] == s[d..n] + s[n..e];
  }

  lemma FoundCommand(s: string, q: nat)
    requires CommandAt(s, q).Some?
    ensures var m := CommandAt(s, q).value;
            && q + 2 <= m.end <= |s| && m.command == s[q..m.end - 2] && s[m.end - 2] == '`' && s[m.end - 1] == '.'
            && IsCommand(m.command)
  {
    hide LiteralAt, LastClose, IsSpace, BARE_CHECK, NoSpace, WithOption, Same;
    P.CommandCases(s, q);
    var c, e := CommandAt(s, q).value.command, CommandAt(s, q).value.end - 2;
    assert " " + "--run" + " " == " --run " && " " + "--terminal" + " " == " --terminal ";
    if P.IsBareCommand(s, q, c, e) {
      SliceIsSame(s, q, BARE_CHECK);
    } else if P.IsOptionCommand(s, q, c, e, "--run") {
      OptionIs(s, q, c, e, "--run");
    } else {
      OptionIs(s, q, c, e, "--terminal");
    }
  }

  lemma OptionIs(s: string, q: nat, c: string, e: nat, word: string)
    requires P.IsOptionCommand(s, q, c, e, word)
    ensures WithOption(c, " " + word + " ")
  {
    hide LiteralAt, IsSpace, BARE_CHECK, Same, NoSpace;
    var n, o := |BARE_CHECK|, |" " + word + " "|;
    SliceIsSame(s, q, BARE_CHECK);
    SliceIsSame(s, q + n, " " + word + " ");
    SliceOfSlice(s, q, e, 0, n);
    SliceOfSlice(s, q, e, n, n + o);
    SliceOfSlice(s, q, e, n + o, e - q);
    assert c[n + o..] == c[n + o..e - q];
  }

  lemma SliceOfSlice(s: string, q: nat, e: nat, a: nat, b: nat)
    requires q <= e <= |s| && a <= b <= e - q
    ensures s[q..e][a..b] == s[q + a..q + b]
  {
    assert forall k :: 0 <= k < b - a ==> s[q..e][a..b][k] == s[q + a + k] == s[q + a..q + b][k];
  }

  lemma Quoted(s: string, k: nat, c: string, end: nat)
    requires k + 3 <= end <= |s| && s[k] == '`' && c == s[k + 1..end - 2] && s[end - 2] == '`' && s[end - 1] == '.'
    ensures s[k..end] == "`" + (c + "`.")
  {
  }

  lemma ThreeParts(s: string, i: nat, h: nat, k: nat, e: nat)
    requires i <= h <= k <= e <= |s|
    ensures s[i..e] == s[i..h] + (s[h..k] + s[k..e])
  {
    assert s[h..e] == s[h..k] + s[k..e];
  }

  lemma MatchParts(s: string, i: nat)
    requires i <= |s| && MatchAt(s, i).Some?
    ensures HeaderEnd(s, i).Some? && FirstBacktick(s, HeaderEnd(s, i).value) < |s|
    ensures MatchAt(s, i) == CommandAt(s, FirstBacktick(s, HeaderEnd(s, i).value) + 1)
  {
    hide HeaderEnd, CommandAt;
  }

  lemma ProseIs(s: string, h: nat, k: nat)
    requires h <= |s| && k == FirstBacktick(s, h) < |s| && BoundaryAt(s, h)
    ensures '`' !in s[h..k] && (s[h..k] != "" ==> !IsWord(s[h..k][0])) && s[k] == '`'
  {
    hide IsWord;
  }

  lemma IsPointer(p: Piece)
    requires p.Pointer? && Same(p.you, YOU_HAVE) && p.digits != "" && AllDigits(p.digits) && Same(p.message, MESSAGE)
    requires (p.plural == "" || Same(p.plural, "s")) && '`' !in p.prose && (p.prose != "" ==> !IsWord(p.prose[0])) && IsCommand(p.command)
    ensures WellFormed(p)
  {
    hide Same, AllDigits, IsWord, IsCommand, YOU_HAVE, MESSAGE;
  }

  lemma MatchIsPointer(s: string, i: nat) returns (p: Piece)
    requires i <= |s| && MatchAt(s, i).Some?
    ensures var m := MatchAt(s, i).value;
            p.Pointer? && WellFormed(p) && p.command == m.command && Text(p) == s[i..m.end]
  {
    hide HeaderEnd, CommandAt, IsWord, IsCommand, Same, AllDigits, Text, YOU_HAVE, MESSAGE, FirstBacktick, BoundaryAt, WellFormed;
    MatchParts(s, i);
    var h := HeaderEnd(s, i).value;
    var you, digits, message, plural := HeaderIs(s, i);
    var k := FirstBacktick(s, h);
    FoundCommand(s, k + 1);
    var c, end := MatchAt(s, i).value.command, MatchAt(s, i).value.end;
    p := Pointer(you, digits, message, plural, s[h..k], c);
    TextParts(p);
    Quoted(s, k, c, end);
    ThreeParts(s, i, h, k, end);
    ProseIs(s, h, k);
    IsPointer(p);
  }

  lemma {:induction false} ReadIsGrammar(s: string, i: nat) returns (pieces: seq<Piece>)
    requires i <= |s| && Scan(s, i).Some?
    ensures AllWellFormed(pieces) && s[i..] == TextOf(pieces) && Scan(s, i).value == CommandsOf(pieces)
    decreases |s| - i
  {
    hide WellFormed, MatchAt, Text, IsSpace;
    pieces := [];
    if i < |s| {
      var p := Gap(s[i]);
      var e := i + 1;
      GapText(p);
      if MatchAt(s, i).Some? {
        p := MatchIsPointer(s, i);
        e := MatchAt(s, i).value.end;
      } else {
        GapIs(s[i]);
      }
      var rest := ReadIsGrammar(s, e);
      pieces := [p] + rest;
      assert pieces[1..] == rest && s[i..] == s[i..e] + s[e..];
      assert [] + CommandsOf(rest) == CommandsOf(rest);
    }
  }

  lemma GapIs(c: char)
    ensures IsSpace(c) ==> WellFormed(Gap(c))
  {
  }

  /** The text is pointer texts for one command, at least one, with nothing but white space around them. */
  ghost predicate PointersFor(s: string, c: string) {
    exists pieces :: AllWellFormed(pieces) && TextOf(pieces) == s && CommandsOf(pieces) != []
                     && forall k :: 0 <= k < |CommandsOf(pieces)| ==> CommandsOf(pieces)[k] == c
  }

  /** Accepted, exactly: once the prompt arrows are out, pointer texts for that one command and nothing else. */
  lemma AcceptedExactly(s: string, c: string)
    ensures Accept(s) == Some(c) <==> PointersFor(DropArrows(s), c)
  {
    hide Scan, DropArrows, CommandsOf, TextOf, AllWellFormed;
    var t := DropArrows(s);
    assert t[0..] == t;
    if PointersFor(t, c) {
      var pieces :| AllWellFormed(pieces) && TextOf(pieces) == t && CommandsOf(pieces) != []
                    && forall k :: 0 <= k < |CommandsOf(pieces)| ==> CommandsOf(pieces)[k] == c;
      GrammarIsRead(t, 0, pieces);
    }
    if Accept(s) == Some(c) {
      var pieces := ReadIsGrammar(t, 0);
      assert CommandsOf(pieces) != [];
    }
  }

  lemma {:induction false} PiecesJoin(x: seq<Piece>, y: seq<Piece>)
    ensures TextOf(x + y) == TextOf(x) + TextOf(y) && CommandsOf(x + y) == CommandsOf(x) + CommandsOf(y)
  {
    hide *;
    NoPieces();
    if x == [] {
      assert x + y == y && "" + TextOf(y) == TextOf(y) && [] + CommandsOf(y) == CommandsOf(y);
    } else {
      PiecesJoin(x[1..], y);
      assert (x + y)[1..] == x[1..] + y && (x + y)[0] == x[0];
      FirstPiece(x);
      FirstPiece(x + y);
      Associates(Text(x[0]), TextOf(x[1..]), TextOf(y));
      Associates(CommandIn(x[0]), CommandsOf(x[1..]), CommandsOf(y));
    }
  }

  lemma Associates<T>(a: seq<T>, b: seq<T>, c: seq<T>)
    ensures a + (b + c) == (a + b) + c
  {
  }

  function CommandIn(p: Piece): seq<string> {
    if p.Pointer? then [p.command] else []
  }

  lemma FirstPiece(x: seq<Piece>)
    requires x != []
    ensures TextOf(x) == Text(x[0]) + TextOf(x[1..]) && CommandsOf(x) == CommandIn(x[0]) + CommandsOf(x[1..])
  {
    hide Text;
  }

  lemma NoPieces()
    ensures TextOf([]) == "" && CommandsOf([]) == []
  {
  }

  /** Two texts that are each accepted are together accepted exactly if they quote the same command. */
  lemma OnlyOneCommand(x: string, y: string, c: string, d: string)
    requires PointersFor(x, c) && PointersFor(y, d) && DropArrows(x + y) == x + y
    ensures Accept(x + y) == if c == d then Some(c) else None
  {
    hide Scan, DropArrows, CommandsOf, TextOf;
    var p :| AllWellFormed(p) && TextOf(p) == x && CommandsOf(p) != [] && forall k :: 0 <= k < |CommandsOf(p)| ==> CommandsOf(p)[k] == c;
    var q :| AllWellFormed(q) && TextOf(q) == y && CommandsOf(q) != [] && forall k :: 0 <= k < |CommandsOf(q)| ==> CommandsOf(q)[k] == d;
    PiecesJoin(p, q);
    assert (x + y)[0..] == x + y;
    GrammarIsRead(x + y, 0, p + q);
    var all := CommandsOf(p) + CommandsOf(q);
    assert all[0] == c && all[|CommandsOf(p)|] == d;
  }

  // ----- the prompt arrow -----

  /** An arrow at `j`, then white space, then `You have` at `k`. */
  predicate Prompt(s: string, j: int, k: int) {
    0 <= j < k <= |s| && s[j] == ARROW && R.Blank(s[j + 1..k]) && "You have" <= s[k..]
  }

  ghost predicate InPrompt(s: string, i: int) {
    exists j, k :: j <= i < k && Prompt(s, j, k)
  }

  /** The text from `i` on, without the characters of prompts. */
  ghost function Unprompted(s: string, i: nat): string
    requires i <= |s|
    decreases |s| - i
  {
    if i == |s| then "" else (if InPrompt(s, i) then "" else [s[i]]) + Unprompted(s, i + 1)
  }

  lemma {:induction false} PromptSkipped(s: string, i: nat, k: nat)
    requires i <= k <= |s| && forall n :: i <= n < k ==> InPrompt(s, n)
    ensures Unprompted(s, i) == Unprompted(s, k)
    decreases k - i
  {
    hide InPrompt;
    if i < k {
      PromptSkipped(s, i + 1, k);
      assert "" + Unprompted(s, i + 1) == Unprompted(s, i + 1);
    }
  }

  /** No prompt reaches over its own `You have`. */
  lemma PromptEnds(s: string, k: nat, j: int, e: int)
    requires k <= |s| && "You have" <= s[k..] && Prompt(s, j, e) && j < k
    ensures e <= k
  {
    assert s[k] == s[k..][0] == 'Y';
    assert forall n :: j < n < e ==> s[n] == s[j + 1..e][n - j - 1];
  }

  lemma FoundPrompt(s: string, i: nat) returns (k: nat)
    requires i < |s| && s[i] == ARROW && "You have" <= TrimStart(s[i + 1..])
    ensures Prompt(s, i, k) && TrimStart(s[i + 1..]) == s[k..]
  {
    var pad := R.TrimStartParts(s[i + 1..]);
    var rest := TrimStart(s[i + 1..]);
    k := i + 1 + |pad|;
    assert s == s[..i + 1] + s[i + 1..];
    assert s[k..] == s[i + 1..][|pad|..] == rest;
    assert s[i + 1..k] == s[i + 1..][..|pad|] == pad;
  }

  lemma PromptTrims(s: string, i: nat, k: int)
    requires Prompt(s, i, k)
    ensures "You have" <= TrimStart(s[i + 1..])
  {
    assert s[i + 1..] == s[i + 1..k] + s[k..];
    assert s[k..][0] == 'Y';
    P.TrimStartPad(s[i + 1..k], s[k..]);
  }

  lemma {:induction false} DroppedFrom(s: string, i: nat)
    requires i <= |s| && forall j, k :: Prompt(s, j, k) && j < i ==> k <= i
    ensures DropArrows(s[i..]) == Unprompted(s, i)
    decreases |s| - i
  {
    hide Prompt;
    if i < |s| {
      assert s[i..][0] == s[i] && s[i..][1..] == s[i + 1..];
      if s[i] == ARROW && "You have" <= TrimStart(s[i + 1..]) {
        var k := FoundPrompt(s, i);
        PromptBounds(s, i, k);
        forall n | i <= n < k ensures InPrompt(s, n) {
          assert Prompt(s, i, k);
        }
        forall j, e | Prompt(s, j, e) && j < k ensures e <= k {
          PromptEnds(s, k, j, e);
        }
        DroppedFrom(s, k);
        PromptSkipped(s, i, k);
      } else {
        forall j, k | Prompt(s, j, k) && j <= i ensures k <= i {
          if j == i {
            PromptBounds(s, i, k);
            PromptTrims(s, i, k);
          }
        }
        DroppedFrom(s, i + 1);
      }
    }
  }

  lemma PromptBounds(s: string, j: int, k: int)
    requires Prompt(s, j, k)
    ensures 0 <= j < k <= |s| && s[j] == ARROW && "You have" <= s[k..]
  {
  }

  /** Taken out are exactly the arrows before `You have`, with the white space between. */
  lemma PromptsAreDropped(s: string)
    ensures DropArrows(s) == Unprompted(s, 0)
  {
    hide Prompt, DropArrows, Unprompted;
    assert s[0..] == s;
    forall j, k | Prompt(s, j, k) ensures j >= 0 {
      PromptBounds(s, j, k);
    }
    DroppedFrom(s, 0);
  }
}
