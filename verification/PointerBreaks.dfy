/**
 A composer also breaks lines inside a word. Broken anywhere, a pointer reads as its own command or as none, as
 long as no line after the first starts with the prompt arrow; then it can read as another one.
 */
module PointerBreaks {
  import opened Basics
  import opened Mail
  import opened Composer
  import opened PointerRoundTrip
  import R = RawPane

  /** The lines are the text, broken anywhere: inside words, or at spaces, which then go. */
  predicate Broken(parts: seq<string>, text: string)
    requires parts != []
  {
    if |parts| == 1 then text == parts[0]
    else
      && parts[0] <= text
      && var rest := text[|parts[0]|..];
         Broken(parts[1..], rest) || (rest != "" && rest[0] == ' ' && Broken(parts[1..], rest[1..]))
  }

  /** Joined without spaces the lines are the text with some of its spaces left out. */
  lemma {:induction false} BrokenDropped(parts: seq<string>, text: string)
    requires parts != [] && Broken(parts, text)
    ensures Dropped(Join(parts, ""), text)
  {
    hide Dropped;
    if |parts| == 1 {
      DroppedSelf(text);
    } else {
      var rest := text[|parts[0]|..];
      assert text == parts[0] + rest;
      var joined := Join(parts[1..], "");
      assert Join(parts, "") == parts[0] + joined && parts[0] + "" == parts[0];
      if Broken(parts[1..], rest) {
        BrokenDropped(parts[1..], rest);
      } else {
        BrokenDropped(parts[1..], rest[1..]);
        OneSpace(joined, rest);
      }
      DroppedSelf(parts[0]);
      DroppedConcat(parts[0], parts[0], joined, rest);
    }
  }

  lemma OneSpace(x: string, t: string)
    requires t != "" && t[0] == ' ' && Dropped(x, t[1..])
    ensures Dropped(x, t)
  {
  }

  /** Joined with spaces they are the text with some spaces put in. */
  lemma {:induction false} BrokenAdded(parts: seq<string>, text: string)
    requires parts != [] && Broken(parts, text)
    ensures Dropped(text, Join(parts, " "))
  {
    hide Dropped;
    if |parts| == 1 {
      DroppedSelf(text);
    } else {
      var rest := text[|parts[0]|..];
      var joined := Join(parts[1..], " ");
      assert text == parts[0] + rest && Join(parts, " ") == parts[0] + (" " + joined);
      if Broken(parts[1..], rest) {
        BrokenAdded(parts[1..], rest);
        assert (" " + joined)[1..] == joined;
        OneSpace(rest, " " + joined);
      } else {
        BrokenAdded(parts[1..], rest[1..]);
        DroppedSelf(" ");
        DroppedConcat(" ", " ", rest[1..], joined);
        assert rest == " " + rest[1..];
      }
      DroppedSelf(parts[0]);
      DroppedConcat(parts[0], parts[0], rest, " " + joined);
    }
  }

  // ----- spaces put in -----

  /** A character that is not a space splits the longer text where it splits the shorter one. */
  lemma {:induction false} AddedSplit(x: string, a: string, c: char, b: string) returns (p: string, q: string)
    requires Dropped(a + [c] + b, x) && c != ' '
    ensures x == p + [c] + q && Dropped(a, p) && Dropped(b, q)
    decreases |x|
  {
    var t := a + [c] + b;
    if t[0] == x[0] && Dropped(t[1..], x[1..]) {
      if a == "" {
        assert t[1..] == b;
        p, q := "", x[1..];
        assert x == "" + [c] + x[1..];
      } else {
        assert t[1..] == a[1..] + [c] + b;
        var rest;
        rest, q := AddedSplit(x[1..], a[1..], c, b);
        p := [x[0]] + rest;
        assert x == p + [c] + q && p[1..] == rest;
      }
    } else {
      var rest;
      rest, q := AddedSplit(x[1..], a, c, b);
      p := [x[0]] + rest;
      assert x == p + [c] + q && p[1..] == rest;
    }
  }

  lemma {:induction false} AddedChars(t: string, x: string, c: char)
    requires Dropped(t, x) && c != ' '
    ensures c in t <==> c in x
    decreases |x|
  {
    if x != "" {
      assert x == [x[0]] + x[1..];
      if t != "" && x[0] == t[0] && Dropped(t[1..], x[1..]) {
        assert t == [t[0]] + t[1..];
        AddedChars(t[1..], x[1..], c);
      } else {
        AddedChars(t, x[1..], c);
      }
    }
  }

  /** Text in front of a backtick loses arrows only if it holds a space. */
  lemma {:induction false} DropInside(a: string, t: string) returns (a': string)
    requires t != "" && t[0] == '`'
    ensures DropArrows(a + t) == a' + DropArrows(t)
    ensures a' == a || ' ' in a'
    ensures forall c :: c in a' ==> c in a
    decreases |a|
  {
    hide DropArrows, TrimStart, IsSpace;
    if a == "" {
      a' := "";
      assert a + t == t && a' + DropArrows(t) == DropArrows(t);
    } else {
      assert (a + t)[1..] == a[1..] + t && (a + t)[0] == a[0] && a == [a[0]] + a[1..];
      DropStep(a + t);
      if a[0] == ARROW && "You have" <= TrimStart(a[1..] + t) {
        var front, b := AfterArrow(a[1..], t);
        a' := DropInside(b, t);
        assert forall c :: c in b ==> c in front + b;
      } else {
        var rest := DropInside(a[1..], t);
        a' := [a[0]] + rest;
        assert [a[0]] + (rest + DropArrows(t)) == a' + DropArrows(t);
      }
    }
  }

  lemma DropStep(s: string)
    requires s != ""
    ensures DropArrows(s) == if s[0] == ARROW && "You have" <= TrimStart(s[1..]) then DropArrows(TrimStart(s[1..]))
                             else [s[0]] + DropArrows(s[1..])
  {
    hide TrimStart;
  }

  /** Behind a dropped arrow and white space stands text that holds a space. */
  lemma AfterArrow(a: string, t: string) returns (front: string, b: string)
    requires t != "" && t[0] == '`' && "You have" <= TrimStart(a + t)
    ensures a == front + b && TrimStart(a + t) == b + t && ' ' in b && |b| <= |a|
  {
    assert !IsSpace('`');
    hide IsSpace, TrimStart;
    R.TrimStartStops(a, t);
    b := TrimStart(a);
    front := R.TrimStartParts(a);
    HasYou(b, t);
  }

  lemma HasYou(b: string, t: string)
    requires "You have" <= b + t && t != "" && t[0] == '`'
    ensures ' ' in b
  {
    var you := "You have";
    assert you[3] == ' ' && forall i :: 0 <= i < 8 ==> (b + t)[i] == you[i] && you[i] != '`';
    assert (b + t)[|b|] == '`';
    assert b[3] == (b + t)[3];
  }

  lemma ScanFirst(y: string)
    requires y != "" && y[0] == 'Y' && Scan(y, 0).Some?
    ensures MatchAt(y, 0).Some? && Scan(y, 0).value != [] && Scan(y, 0).value[0] == MatchAt(y, 0).value.command
  {
    hide MatchAt;
  }

  lemma QuotedPart(y: string, p: string, c: string, r: string)
    requires y == p + ['`'] + c + ['`'] + r && '`' !in p && '`' !in c && '`' !in r
    requires MatchAt(y, 0).Some?
    ensures MatchAt(y, 0).value.command == c && CommandShape(c, BARE_CHECK)
  {
    hide MatchAt, CommandShape, CommandAt;
    var k := MatchIsQuoted(y);
    CommandAtShape(y, k + 1);
    var m := MatchAt(y, 0).value;
    TwoTicks(y, p, c, r);
    assert k == |p| && m.end - 2 == |p| + 1 + |c|;
    assert m.command == y[|p| + 1..|p| + 1 + |c|] == c;
  }

  lemma TwoTicks(y: string, p: string, c: string, r: string)
    requires y == p + ['`'] + c + ['`'] + r && '`' !in p && '`' !in c && '`' !in r
    ensures forall i :: 0 <= i < |y| && y[i] == '`' ==> i == |p| || i == |p| + 1 + |c|
  {
    forall i | 0 <= i < |y| && i != |p| && i != |p| + 1 + |c| ensures y[i] != '`' {
      assert y[i] == if i < |p| then p[i] else if i < |p| + 1 + |c| then c[i - |p| - 1] else r[i - |p| - 2 - |c|];
    }
  }

  /** Whatever spaces are put into a printed pointer, it reads as its own command or as none. */
  lemma NeverAnotherWide(x: string, m: Message)
    requires Plain(m) && Dropped(BuildDeliveryPointer(m), x) && x != "" && x[0] == 'Y'
    ensures Accept(x).Some? ==> Accept(x) == Some(CheckCommand(m))
  {
    hide *;
    var h, cmd := Head(m), CheckCommand(m);
    HeadForm(m);
    InertHasNone(h);
    CommandQuiet(m);
    PointerParts(m, h, cmd);
    var p, c, r := WidePieces(x, h, cmd);
    var c' := WideDropped(x, p, c, r, m);
    if Accept(x).Some? {
      WideAccepted(x, p, c, c', r, m);
    }
  }

  lemma PointerParts(m: Message, h: string, cmd: string)
    requires BuildDeliveryPointer(m) == h + "`" + cmd + "`" + "."
    ensures BuildDeliveryPointer(m) == h + ['`'] + (cmd + ['`'] + ".")
  {
    hide BuildDeliveryPointer;
  }

  lemma WidePieces(x: string, h: string, cmd: string) returns (p: string, c: string, r: string)
    requires Dropped(h + ['`'] + (cmd + ['`'] + "."), x)
    requires '`' !in h && ARROW !in h && '`' !in cmd
    ensures x == p + ("`" + (c + ("`" + r))) && Dropped(cmd, c)
    ensures ARROW !in p && ARROW !in r && '`' !in p && '`' !in c && '`' !in r
  {
    assert ARROW != ' ' && ARROW !in "." && '`' !in ".";
    hide Dropped, ARROW;
    var q;
    p, q := AddedSplit(x, h, '`', cmd + ['`'] + ".");
    c, r := AddedSplit(q, cmd, '`', ".");
    AddedChars(h, p, '`');
    AddedChars(h, p, ARROW);
    AddedChars(cmd, c, '`');
    AddedChars(".", r, '`');
    AddedChars(".", r, ARROW);
    Reassembled(p, c, r);
  }

  lemma Reassembled(p: string, c: string, r: string)
    ensures p + ['`'] + (c + ['`'] + r) == p + ("`" + (c + ("`" + r)))
    ensures p + ['`'] + c + ['`'] + r == p + ("`" + (c + ("`" + r)))
  {
  }

  /** What is left of the text once arrows are dropped. */
  lemma WideDropped(x: string, p: string, c: string, r: string, m: Message) returns (c': string)
    requires x == p + ("`" + (c + ("`" + r))) && ARROW !in p && ARROW !in r && '`' !in c
    requires Plain(m) && Dropped(CheckCommand(m), c)
    ensures '`' !in c' && DropArrows(x) == p + ("`" + (c' + ("`" + r)))
    ensures c' == c || Count(c', true) > Count(BARE_CHECK, true) + 2
  {
    assert ARROW !in "`";
    hide *;
    var tail := "`" + r;
    R.DropNone(p, "`" + (c + tail));
    R.DropNone("`", c + tail);
    DropTail(r);
    if ARROW !in c {
      R.DropNone(c, tail);
      c' := c;
    } else {
      c' := IdDropped(c, tail, m);
    }
  }

  lemma DropTail(r: string)
    requires ARROW !in r
    ensures DropArrows("`" + r) == "`" + r
  {
    var tail := "`" + r;
    R.DropNone(tail, "");
    NothingLeft();
    assert tail + "" == tail;
  }

  /** Arrows can only go from the id. */
  lemma IdDropped(c: string, tail: string, m: Message) returns (c': string)
    requires Plain(m) && Dropped(CheckCommand(m), c) && ARROW in c && '`' !in c && tail != "" && tail[0] == '`'
    ensures '`' !in c' && DropArrows(c + tail) == c' + DropArrows(tail)
    ensures c' == c || Count(c', true) > Count(BARE_CHECK, true) + 2
  {
    hide *;
    var front, id := CommandSplit(c, m);
    R.DropNone(front, id + tail);
    var id' := DropInside(id, tail);
    c' := front + id';
    assert c + tail == front + (id + tail) && front + (id' + DropArrows(tail)) == c' + DropArrows(tail);
    assert forall k :: k in c' ==> k in front || k in id';
    assert forall k :: k in front || k in id ==> k in c;
    CountConcat(front, id', true);
    if id' != id {
      SpaceCounts(id');
    }
  }

  lemma NothingLeft()
    ensures DropArrows("") == ""
  {
  }

  lemma {:induction false} SpaceCounts(s: string)
    requires ' ' in s
    ensures Count(s, true) > 0
  {
    if s[0] != ' ' {
      assert s == [s[0]] + s[1..];
      SpaceCounts(s[1..]);
    }
  }

  /** A widened command with an arrow: the check and its option, and the widened id the arrow is in. */
  lemma CommandSplit(c: string, m: Message) returns (front: string, id: string)
    requires Plain(m) && Dropped(CheckCommand(m), c) && ARROW in c
    ensures c == front + id && ARROW !in front && Count(front, true) >= Count(BARE_CHECK, true) + 2
  {
    assert ARROW != ' ';
    hide *;
    var bare, w := BARE_CHECK, OptionWord(m);
    CommandForm(m);
    BareInert();
    WordForm(m);
    InertHasNone(bare);
    InertHasNone(w);
    AddedChars(CheckCommand(m), c, ARROW);
    if Bare(m) {
      front, id := c, "";
      assert false;
    } else {
      var option := bare + " " + w + " ";
      PlainHasId(m);
      NoArrowIn(bare, w);
      var s := OptionId(m);
      assert CheckCommand(m) == option + s;
      front, id := AddedPrefix(c, option, s);
      AddedChars(option, front, ARROW);
      AddedCount(option, front);
      OptionCount(bare, w);
    }
  }

  lemma PlainHasId(m: Message)
    requires Plain(m) && !Bare(m)
    ensures OptionId(m) != "" && OptionId(m)[0] != ' '
  {
  }

  lemma NoArrowIn(bare: string, w: string)
    requires ARROW !in bare && ARROW !in w
    ensures ARROW !in bare + " " + w + " "
  {
  }

  lemma OptionCount(bare: string, w: string)
    requires NoSpace(w)
    ensures Count(bare + " " + w + " ", true) >= Count(bare, true) + 2
  {
    hide Count, NoSpace;
    PaddedCount(w);
    CountConcat(bare, " " + w + " ", true);
    assert bare + (" " + w + " ") == bare + " " + w + " ";
  }

  lemma AddedCount(t: string, x: string)
    requires Dropped(t, x)
    ensures Count(x, true) >= Count(t, true)
  {
    DroppedCounts(t, x);
  }

  /** The longer text splits where an id starts. */
  lemma AddedPrefix(x: string, a: string, b: string) returns (p: string, q: string)
    requires Dropped(a + b, x) && b != "" && b[0] != ' '
    ensures x == p + q && Dropped(a, p)
  {
    hide Dropped;
    assert a + b == a + [b[0]] + b[1..];
    var rest;
    p, rest := AddedSplit(x, a, b[0], b[1..]);
    q := [b[0]] + rest;
    assert x == p + q;
  }

  lemma WideAccepted(x: string, p: string, c: string, c': string, r: string, m: Message)
    requires Plain(m) && Dropped(CheckCommand(m), c) && Accept(x).Some? && x != "" && x[0] == 'Y'
    requires x == p + ("`" + (c + ("`" + r))) && DropArrows(x) == p + ("`" + (c' + ("`" + r)))
    requires '`' !in p && '`' !in c && '`' !in c' && '`' !in r
    requires c' == c || Count(c', true) > Count(BARE_CHECK, true) + 2
    ensures Accept(x) == Some(CheckCommand(m))
  {
    hide MatchAt, CommandShape, CommandAt, DropArrows, Scan, Dropped, Count, CheckCommand;
    var y := DropArrows(x);
    Reassembled(p, c', r);
    assert y[0] == (if p == "" then '`' else p[0]) == x[0];
    ScanFirst(y);
    QuotedPart(y, p, c', r);
    ShapeSpaces(c');
    DroppedCounts(CheckCommand(m), c);
    CommandQuiet(m);
    WidestIsSame(CheckCommand(m), c);
  }

  lemma ShapeSpaces(c: string)
    requires CommandShape(c, BARE_CHECK)
    ensures Count(c, true) <= Count(BARE_CHECK, true) + 2
  {
    hide Count;
  }

  lemma WidestIsSame(cmd: string, c: string)
    requires CommandShape(cmd, BARE_CHECK) && CommandShape(c, BARE_CHECK)
    requires Count(c, false) == Count(cmd, false) && (Count(c, true) == Count(cmd, true) ==> c == cmd)
    ensures c == cmd
  {
    hide Count;
  }

  // ----- the pane -----

  /** Every line is a piece of the text. */
  lemma {:induction false} PieceOffset(parts: seq<string>, text: string, k: nat) returns (at: nat)
    requires parts != [] && Broken(parts, text) && k < |parts|
    ensures at + |parts[k]| <= |text| && text[at..at + |parts[k]|] == parts[k] && (k == 0 ==> at == 0)
  {
    if |parts| == 1 || k == 0 {
      at := 0;
    } else {
      var n := |parts[0]|;
      var rest := text[n..];
      if Broken(parts[1..], rest) {
        var below := PieceOffset(parts[1..], rest, k - 1);
        at := n + below;
        assert rest[below..below + |parts[k]|] == text[at..at + |parts[k]|];
      } else {
        var below := PieceOffset(parts[1..], rest[1..], k - 1);
        at := n + 1 + below;
        assert rest[1..][below..below + |parts[k]|] == text[at..at + |parts[k]|];
      }
    }
  }

  lemma PieceKept(parts: seq<string>, m: Message, k: nat)
    requires Plain(m) && parts != [] && Broken(parts, BuildDeliveryPointer(m)) && k < |parts|
    ensures !IsStopHint(parts[k]) && (k == 0 && parts[0] != "" ==> parts[0][0] == 'Y')
  {
    hide *;
    var text := BuildDeliveryPointer(m);
    var at := PieceOffset(parts, text, k);
    StartsWithY(m);
    if k == 0 && parts[0] != "" {
      assert text[0..|parts[0]|][0] == text[0];
    }
    TextQuiet(m, '+');
    NoHint(parts[k], text, at);
  }

  lemma StartsWithY(m: Message)
    ensures BuildDeliveryPointer(m) != "" && BuildDeliveryPointer(m)[0] == 'Y'
  {
    hide CheckCommand, Head, BuildDeliveryPointer;
    HeadForm(m);
  }

  lemma NoHint(piece: string, text: string, at: nat)
    requires QuietAfter(text, '+') && at + |piece| <= |text| && text[at..at + |piece|] == piece
    ensures !IsStopHint(piece)
  {
    hide QuietAfter, LiteralAt, BoundaryAt;
    if LiteralAt(piece, 0, "ctrl+c to stop") {
      HintHasPlus(piece);
      assert text[at + 4] == piece[4] && text[at + 6] == piece[6];
      QuietMeans(text, '+', at + 4, at + 6);
    }
  }

  /** The last lines hold the closing marks, together or broken. */
  lemma {:induction false} PiecesEndQuoted(parts: seq<string>, text: string)
    requires parts != [] && Broken(parts, text) && forall k :: 0 <= k < |parts| ==> Tidy(parts[k])
    requires |text| >= 2 && text[|text| - 2..] == "`."
    ensures R.EndsQuoted(parts)
  {
    if |parts| > 1 {
      var n := |parts[0]|;
      var rest := text[n..];
      var below := parts[1..];
      var tail := if Broken(below, rest) then rest else rest[1..];
      var first := PieceOffset(below, tail, 0);
      assert |tail| >= |below[0]| >= 1;
      assert tail[|tail| - 1] == text[|text| - 1];
      if |tail| >= 2 {
        assert tail[|tail| - 2..] == text[|text| - 2..];
        PiecesEndQuoted(below, tail);
        assert below[|below| - 1] == parts[|parts| - 1];
        assert |below| > 1 ==> below[|below| - 2] == parts[|parts| - 2];
      } else {
        TailIsStop(below, tail);
        assert text[|text| - 2] == '`' && text[|text| - 1] == '.';
        assert tail == rest;
        assert parts[0][n - 1] == text[n - 1];
      }
    }
  }

  lemma TailIsStop(parts: seq<string>, tail: string)
    requires parts != [] && Broken(parts, tail) && |tail| == 1 && forall k :: 0 <= k < |parts| ==> Tidy(parts[k])
    ensures parts == [tail]
  {
    if |parts| > 1 {
      assert tail[|parts[0]|..] == "";
      NothingBroken(parts[1..]);
    }
  }

  lemma NothingBroken(parts: seq<string>)
    requires parts != [] && Broken(parts, "")
    ensures parts[0] == ""
  {
  }

  /**
   A boxed pointer with a plain id, broken anywhere, with no line after the first starting with the prompt arrow:
   the pane reads as the printed command or as none.
   */
  lemma BrokenPointerReads(lines: seq<string>, unboxed: seq<string>, m: Message, parts: seq<string>)
    requires Plain(m) && parts != [] && Broken(parts, BuildDeliveryPointer(m)) && ArrowFree(parts)
    requires Interior(lines).Some? && ShowsParts(TrimNonEmpty(Interior(lines).value), parts)
    ensures PointerCommand(lines, unboxed) == Some(CheckCommand(m)) || PointerCommand(lines, unboxed) == None
  {
    hide Interior, CheckCommand, BuildDeliveryPointer, Accept, TrimNonEmpty, StartsWithArrow, Stripped, IsStopHint, Broken, Head;
    var shown, text := TrimNonEmpty(Interior(lines).value), BuildDeliveryPointer(m);
    forall k | 0 <= k < |parts| ensures !StartsWithArrow(parts[k]) && !IsStopHint(parts[k]) {
      PieceKept(parts, m, k);
      YIsNoArrow(parts[0]);
    }
    ShownPartsAreContent(shown, parts);
    BrokenDropped(parts, text);
    NeverAnother(Join(parts, ""), m);
    BrokenAdded(parts, text);
    PieceKept(parts, m, 0);
    JoinStarts(parts);
    NeverAnotherWide(Join(parts, " "), m);
    TextEnds(m);
    PiecesEndQuoted(parts, text);
    ShownEndQuoted(shown, parts);
    R.RawTextRefused(lines);
    FirstOfThree(Join(parts, ""), Join(parts, " "), Trim(Join(lines, "\n")));
  }

  lemma YIsNoArrow(line: string)
    ensures line != "" && line[0] == 'Y' ==> !StartsWithArrow(line)
  {
  }

  lemma JoinStarts(parts: seq<string>)
    requires parts != [] && parts[0] != ""
    ensures Join(parts, " ") != "" && Join(parts, " ")[0] == parts[0][0]
  {
  }

  lemma TextEnds(m: Message)
    ensures var text := BuildDeliveryPointer(m); |text| >= 2 && text[|text| - 2..] == "`."
  {
    hide Prose, CheckCommand;
  }

  lemma ShownEndQuoted(shown: seq<string>, parts: seq<string>)
    requires ShowsParts(shown, parts) && R.EndsQuoted(parts)
    ensures R.EndsQuoted(shown)
  {
    hide Tidy;
    if shown != parts {
      var pad: string :| (forall i :: 0 <= i < |pad| ==> IsSpace(pad[i])) && shown == [[ARROW] + pad + parts[0]] + parts[1..];
      var n := |parts| - 1;
      assert n > 0 ==> shown[n] == parts[n];
      assert n > 1 ==> shown[n - 1] == parts[n - 1];
      PromptEnds(pad, parts[0]);
    }
  }

  lemma PromptEnds(pad: string, line: string)
    ensures var p := [ARROW] + pad + line;
            && (|line| >= 2 && line[|line| - 2..] == "`." ==> |p| >= 2 && p[|p| - 2..] == "`.")
            && (R.EndsWithTick(line) ==> R.EndsWithTick(p))
  {
  }

  lemma FirstOfThree(a: string, b: string, c: string)
    ensures FirstAccepted([a, b, c]) == if Accept(a).Some? then Accept(a) else if Accept(b).Some? then Accept(b) else Accept(c)
  {
    hide Accept;
    assert [a, b, c][1..] == [b, c] && [b, c][1..] == [c] && [c][1..] == [];
    assert FirstAccepted([]) == None && FirstAccepted([c]) == Accept(c);
    assert FirstAccepted([b, c]) == if Accept(b).Some? then Accept(b) else Accept(c);
  }

  /**
   Broken inside the id right before an arrow, the pointer reads as another command: the arrow is taken for a
   prompt, and the two pieces of the id around it are joined.
   */
  lemma ArrowInIdIsLost(lines: seq<string>, unboxed: seq<string>, m: Message, a: string, b: string)
    requires PlainId(a) && PlainId(b) && m.runId == a + [ARROW] + b && !Bare(m) && !("term_" <= m.recipient)
    requires Interior(lines).Some? && TrimNonEmpty(Interior(lines).value) == [Fixed(m) + a, [ARROW] + b + "`."]
    ensures Plain(m) && Broken([Fixed(m) + a, [ARROW] + b + "`."], BuildDeliveryPointer(m))
    ensures PointerCommand(lines, unboxed) == Some(CheckCommand(m.(runId := a + b)))
    ensures CheckCommand(m.(runId := a + b)) != CheckCommand(m)
  {
    hide Interior, CheckCommand, BuildDeliveryPointer, Accept, TrimNonEmpty, Stripped, Fixed, Broken, Join, PlainId;
    var n := m.(runId := a + b);
    var head, last := Fixed(m) + a, [ARROW] + b + "`.";
    IdsPlain(a, b);
    LostText(m, n, a, b);
    HeadKept(m, a);
    ArrowLineRead(head, b);
    PrintedIsAccepted(n);
    FirstOfThree(Join([head, b + "`."], ""), Join([head, b + "`."], " "), Trim(Join(lines, "\n")));
    LongerCommand(m, n);
  }

  lemma LongerCommand(m: Message, n: Message)
    requires !Bare(m) && !("term_" <= m.recipient) && m.recipient == n.recipient && |m.runId| > |n.runId|
    ensures CheckCommand(n) != CheckCommand(m)
  {
    hide CheckCommand;
    CommandForm(m);
    CommandForm(n);
  }

  lemma LostText(m: Message, n: Message, a: string, b: string)
    requires !Bare(m) && !("term_" <= m.recipient) && m.runId == a + [ARROW] + b && n == m.(runId := a + b)
    ensures Broken([Fixed(m) + a, [ARROW] + b + "`."], BuildDeliveryPointer(m))
    ensures Join([Fixed(m) + a, b + "`."], "") == BuildDeliveryPointer(n)
  {
    hide BuildDeliveryPointer, Fixed;
    var head, last := Fixed(m) + a, [ARROW] + b + "`.";
    FixedAndRest(m);
    FixedAndRest(n);
    SameFixed(m, n);
    assert BuildDeliveryPointer(m) == head + last && (head + last)[|head|..] == last;
    assert [head, last][1..] == [last] && [head, b + "`."][1..] == [b + "`."];
    assert head + "" + (b + "`.") == Fixed(m) + ((a + b) + "`.");
  }

  lemma IdsPlain(a: string, b: string)
    requires PlainId(a) && PlainId(b)
    ensures PlainId(a + b) && PlainId(a + [ARROW] + b)
  {
    var id := a + [ARROW] + b;
    assert forall i :: 0 <= i < |id| ==> id[i] == if i < |a| then a[i] else if i == |a| then ARROW else b[i - |a| - 1];
  }

  /** The first line of the broken pointer is kept as it is. */
  lemma HeadKept(m: Message, a: string)
    requires PlainId(a)
    ensures var head := Fixed(m) + a; Tidy(head) && head[0] == 'Y' && !IsStopHint(head)
  {
    hide Head, CheckCommand, BuildDeliveryPointer, OptionWord;
    var head := Fixed(m) + a;
    HeadForm(m);
    assert head[0] == Head(m)[0] && head[|head| - 1] == a[|a| - 1];
    assert "ctrl+c to stop"[0] == 'c';
    assert LiteralAt(head, 0, "ctrl+c to stop") ==> Fold(head[0 + 0]) == Fold('c');
  }

  lemma ArrowLineRead(head: string, b: string)
    requires Tidy(head) && head[0] == 'Y' && !IsStopHint(head) && PlainId(b)
    ensures Stripped([head, [ARROW] + b + "`."]) == [head, b + "`."]
  {
    hide IsStopHint, StripArrow, Stripped;
    var last := [ARROW] + b + "`.";
    assert last == [ARROW] + [] + (b + "`.");
    PromptLine([], b + "`.");
    assert forall k :: 0 <= k < 1 ==> [head][k] == head;
    KeptLinesStay([head]);
    StrippedConcat([head], [last]);
    StrippedOne(last);
    assert [head] + [last] == [head, last] && [head] + [b + "`."] == [head, b + "`."];
  }
}
