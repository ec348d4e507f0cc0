/**
 The last reading of a pane: all of its lines as one text. When the box ends in a quoted command and a full stop,
 even broken between the two, its lower edge stands where only another pointer could: that reading gives nothing.
 */
module RawPane {
  import opened Basics
  import opened Mail
  import opened Composer

  predicate Blank(s: string) {
    forall i :: 0 <= i < |s| ==> IsSpace(s[i])
  }

  // ----- trimming -----

  lemma {:induction false} TrimStartParts(s: string) returns (a: string)
    ensures s == a + TrimStart(s) && Blank(a)
  {
    hide IsSpace, Blank;
    if s != "" && IsSpace(s[0]) {
      var rest := TrimStartParts(s[1..]);
      a := [s[0]] + rest;
      OneMoreBlank(s[0], rest);
      assert s == [s[0]] + s[1..];
    } else {
      a := "";
      NothingBlank();
    }
  }

  lemma {:induction false} TrimEndParts(s: string) returns (b: string)
    ensures s == TrimEnd(s) + b && Blank(b)
  {
    hide IsSpace, Blank;
    if s != "" && IsSpace(s[|s| - 1]) {
      var rest := TrimEndParts(s[..|s| - 1]);
      b := rest + [s[|s| - 1]];
      OneMoreBlank(s[|s| - 1], rest);
      assert s == s[..|s| - 1] + [s[|s| - 1]];
    } else {
      b := "";
      NothingBlank();
    }
  }

  lemma OneMoreBlank(c: char, s: string)
    requires IsSpace(c) && Blank(s)
    ensures Blank([c] + s) && Blank(s + [c])
  {
    hide IsSpace;
  }

  lemma NothingBlank()
    ensures Blank("")
  {
  }

  /** A line is its trimmed text between white space. */
  lemma TrimParts(s: string) returns (a: string, b: string)
    ensures s == a + Trim(s) + b && Blank(a) && Blank(b)
  {
    hide TrimStart, TrimEnd, Blank;
    a := TrimStartParts(s);
    b := TrimEndParts(TrimStart(s));
  }

  lemma {:induction false} TrimStartStops(a: string, t: string)
    requires t != "" && !IsSpace(t[0])
    ensures TrimStart(a + t) == TrimStart(a) + t
  {
    if a == "" {
      assert a + t == t;
    } else {
      assert (a + t)[1..] == a[1..] + t;
      TrimStartStops(a[1..], t);
    }
  }

  lemma {:induction false} TrimEndStops(t: string, y: string)
    requires t != "" && !IsSpace(t[|t| - 1])
    ensures TrimEnd(t + y) == t + TrimEnd(y)
  {
    if y == "" {
      assert t + y == t;
    } else {
      var front := y[..|y| - 1];
      assert (t + y)[..|t + y| - 1] == t + front;
      TrimEndStops(t, front);
    }
  }

  lemma TrimAround(a: string, b: string, y: string)
    requires b != "" && !IsSpace(b[0]) && !IsSpace(b[|b| - 1])
    ensures Trim(a + b + y) == TrimStart(a) + b + TrimEnd(y)
  {
    hide IsSpace;
    assert a + b + y == a + (b + y);
    TrimStartStops(a, b + y);
    var t := TrimStart(a) + b;
    assert TrimStart(a) + (b + y) == t + y && t[|t| - 1] == b[|b| - 1];
    TrimEndStops(t, y);
  }

  // ----- dropping arrows -----

  lemma {:induction false} DropKeeps(a: string, t: string) returns (a': string)
    requires t != "" && t[0] == '`'
    ensures DropArrows(a + t) == a' + DropArrows(t)
    decreases |a|
  {
    if a == "" {
      a' := "";
      assert a + t == t && a' + DropArrows(t) == DropArrows(t);
    } else {
      var s := a + t;
      assert s[1..] == a[1..] + t;
      if s[0] == ARROW && "You have" <= TrimStart(s[1..]) {
        TrimStartStops(a[1..], t);
        a' := DropKeeps(TrimStart(a[1..]), t);
      } else {
        var rest := DropKeeps(a[1..], t);
        a' := [s[0]] + rest;
        assert [s[0]] + (rest + DropArrows(t)) == a' + DropArrows(t);
      }
    }
  }

  lemma {:induction false} DropNone(b: string, y: string)
    requires ARROW !in b
    ensures DropArrows(b + y) == b + DropArrows(y)
  {
    if b == "" {
      assert b + y == y && b + DropArrows(y) == DropArrows(y);
    } else {
      assert (b + y)[1..] == b[1..] + y && (b + y)[0] == b[0];
      DropNone(b[1..], y);
      assert [b[0]] + (b[1..] + DropArrows(y)) == b + DropArrows(y);
    }
  }

  // ----- scanning up to the edge -----

  /** White space and full stops. */
  predicate Filler(s: string) {
    forall i :: 0 <= i < |s| ==> IsSpace(s[i]) || s[i] == '.'
  }

  /** A backtick stands at `q`, and after nothing but white space and full stops the lower edge of the box at `p`. */
  predicate EdgeAfterQuote(s: string, q: nat, p: nat) {
    && q < p < |s| && s[q] == '`' && s[p] == BOTTOM_EDGE
    && (forall j :: q < j < p ==> IsSpace(s[j]) || s[j] == '.')
    && exists j :: q < j < p && IsSpace(s[j])
  }

  /** The characters a counted header may be made of. */
  predicate HeaderChar(c: char) {
    IsWord(c) || c == ' '
  }

  lemma LiteralChars(s: string, i: nat, literal: string)
    requires LiteralAt(s, i, literal) && forall k :: 0 <= k < |literal| ==> 'a' <= Fold(literal[k]) <= 'z' || literal[k] == ' '
    ensures forall j :: i <= j < i + |literal| ==> HeaderChar(s[j])
  {
    forall j | i <= j < i + |literal| ensures HeaderChar(s[j]) {
      assert Fold(s[i + (j - i)]) == Fold(literal[j - i]);
    }
  }

  lemma {:induction false} DigitChars(s: string, i: nat)
    requires i <= |s|
    ensures forall j :: i <= j < DigitsEnd(s, i) ==> HeaderChar(s[j])
    decreases |s| - i
  {
    if i < |s| && '0' <= s[i] <= '9' {
      DigitChars(s, i + 1);
    }
  }

  lemma HeaderChars(s: string, i: nat)
    requires HeaderEnd(s, i).Some?
    ensures forall j :: i <= j < HeaderEnd(s, i).value ==> HeaderChar(s[j])
    ensures i < |s| && Fold(s[i]) == 'y'
  {
    hide HeaderChar, LiteralAt, BoundaryAt;
    var d := i + |YOU_HAVE|;
    var n := DigitsEnd(s, d);
    FirstLetter(s, i);
    LiteralChars(s, i, YOU_HAVE);
    DigitChars(s, d);
    LiteralChars(s, n, MESSAGE);
    var b := n + |MESSAGE|;
    if LiteralAt(s, b, "s") {
      LiteralChars(s, b, "s");
    }
  }

  lemma FirstLetter(s: string, i: nat)
    requires LiteralAt(s, i, YOU_HAVE)
    ensures i < |s| && Fold(s[i]) == 'y'
  {
    assert YOU_HAVE[0] == 'Y' && Fold(s[i + 0]) == Fold(YOU_HAVE[0]);
  }

  lemma CommandLiterals(s: string, q: nat)
    ensures LiteralAt(s, q, BARE_CHECK) ==> forall j :: q <= j < q + |BARE_CHECK| ==> s[j] != '`' && s[j] != '.'
    ensures LiteralAt(s, q, " --run ") ==> forall j :: q <= j < q + 7 ==> s[j] != '`'
    ensures LiteralAt(s, q, " --terminal ") ==> forall j :: q <= j < q + 12 ==> s[j] != '`'
  {
    hide LiteralAt;
    NotIn(s, q, BARE_CHECK, '`');
    NotIn(s, q, BARE_CHECK, '.');
    NotIn(s, q, " --run ", '`');
    NotIn(s, q, " --terminal ", '`');
  }

  lemma NotIn(s: string, q: nat, literal: string, c: char)
    requires c !in literal && (c == '`' || c == '.')
    ensures LiteralAt(s, q, literal) ==> forall j :: q <= j < q + |literal| ==> s[j] != c
  {
    if LiteralAt(s, q, literal) {
      forall j | q <= j < q + |literal| ensures s[j] != c {
        assert Fold(s[q + (j - q)]) == Fold(literal[j - q]);
      }
    }
  }

  /** A quoted command that starts before the last backtick does not reach past it. */
  lemma CommandStops(s: string, q: nat, p: nat, k: nat)
    requires EdgeAfterQuote(s, q, p) && k <= q && CommandAt(s, k + 1).Some?
    ensures CommandAt(s, k + 1).value.end <= p
  {
    hide LiteralAt, LastClose;
    var n := k + 1 + |BARE_CHECK|;
    CommandLiterals(s, k + 1);
    CommandLiterals(s, n);
    assert LiteralAt(s, k + 1, BARE_CHECK);
    CommandStarts(s, k + 1);
    assert k < q && n <= q;
    if LiteralAt(s, n, " --run ") {
      IdStops(s, q, p, n + 7);
    } else if LiteralAt(s, n, " --terminal ") {
      IdStops(s, q, p, n + 12);
    }
  }

  lemma CommandStarts(s: string, q: nat)
    requires LiteralAt(s, q, BARE_CHECK)
    ensures q < |s| && s[q] != '.' && !IsSpace(s[q])
  {
    assert BARE_CHECK[0] == 'o' && Fold(s[q + 0]) == Fold(BARE_CHECK[0]);
  }

  lemma IdStops(s: string, q: nat, p: nat, id: nat)
    requires EdgeAfterQuote(s, q, p) && id <= q && LastClose(s, id + 1).Some?
    ensures LastClose(s, id + 1).value <= q
  {
    hide LastClose, IsSpace;
    var e := LastClose(s, id + 1).value;
    var run := s[id + 1..e];
    forall j | id < j < e ensures !IsSpace(s[j]) {
      assert run[j - (id + 1)] == s[j];
    }
    assert !IsSpace('`') by { BacktickIsNoSpace(); }
    assert s[e] == '`';
    var gap :| q < gap < p && IsSpace(s[gap]);
    assert e <= gap || gap <= id;
  }

  lemma BacktickIsNoSpace()
    ensures !IsSpace('`')
  {
  }

  lemma NoHeaderAfter(s: string, q: nat, p: nat, i: nat)
    requires EdgeAfterQuote(s, q, p) && i <= p
    ensures q < i ==> Fold(s[i]) != 'y'
  {
    assert q < i < p ==> IsSpace(s[i]) || s[i] == '.';
  }

  lemma MatchStops(s: string, q: nat, p: nat, i: nat)
    requires EdgeAfterQuote(s, q, p) && i <= p && MatchAt(s, i).Some?
    ensures MatchAt(s, i).value.end <= p
  {
    hide CommandAt, HeaderEnd;
    HeaderChars(s, i);
    var h := HeaderEnd(s, i).value;
    NoHeaderAfter(s, q, p, i);
    assert h <= q by {
      assert !HeaderChar(s[q]);
    }
    CommandStops(s, q, p, FirstBacktick(s, h));
  }

  lemma {:induction false} ScanRefuses(s: string, q: nat, p: nat, i: nat)
    requires EdgeAfterQuote(s, q, p) && i <= p
    ensures Scan(s, i) == None
    decreases p - i
  {
    hide MatchAt;
    var m := MatchAt(s, i);
    if m.Some? {
      MatchStops(s, q, p, i);
      ScanRefuses(s, q, p, m.value.end);
    } else if i < p {
      ScanRefuses(s, q, p, i + 1);
    }
  }

  lemma TextRefused(a: string, gap: string, y: string)
    requires Filler(gap) && exists i :: 0 <= i < |gap| && IsSpace(gap[i])
    ensures Accept(Trim(a + ("`" + gap + [BOTTOM_EDGE]) + y)) == None
  {
    hide Scan, DropArrows;
    var b := "`" + gap + [BOTTOM_EDGE];
    assert !IsSpace(b[0]) && !IsSpace(b[|b| - 1]);
    TrimAround(a, b, y);
    var x, z := TrimStart(a), TrimEnd(y);
    assert ARROW !in b by {
      assert forall i :: 1 <= i < |b| - 1 ==> b[i] == gap[i - 1];
    }
    var x' := DropKeeps(x, b + z);
    DropNone(b, z);
    var z' := DropArrows(z);
    var s := x' + (b + z');
    assert x + b + z == x + (b + z) && DropArrows(x + (b + z)) == s;
    EdgeFound(x', gap, z', s);
    ScanRefuses(s, |x'|, |x'| + 1 + |gap|, 0);
  }

  lemma EdgeFound(x: string, gap: string, z: string, s: string)
    requires Filler(gap) && s == x + (("`" + gap + [BOTTOM_EDGE]) + z)
    requires exists i :: 0 <= i < |gap| && IsSpace(gap[i])
    ensures EdgeAfterQuote(s, |x|, |x| + 1 + |gap|)
  {
    hide IsSpace;
    var q := |x|;
    assert s[q] == '`' && s[q + 1 + |gap|] == BOTTOM_EDGE;
    assert forall j :: q < j < q + 1 + |gap| ==> s[j] == gap[j - q - 1];
    var i :| 0 <= i < |gap| && IsSpace(gap[i]);
    assert s[q + 1 + i] == gap[i];
  }

  // ----- the lines of a pane -----

  lemma {:induction false} JoinConcat(a: seq<string>, b: seq<string>, separator: string)
    requires a != [] && b != []
    ensures Join(a + b, separator) == Join(a, separator) + separator + Join(b, separator)
  {
    assert (a + b)[1..] == a[1..] + b;
    if |a| > 1 {
      JoinConcat(a[1..], b, separator);
    } else {
      assert a[1..] + b == b;
    }
  }

  lemma {:induction false} BottomFound(lines: seq<string>, body: seq<string>) returns (bottom: string, after: seq<string>)
    requires UpToBottom(lines) == Some(body)
    ensures lines == body + [bottom] + after && IsEdge(bottom, BOTTOM_EDGE)
  {
    hide IsEdge;
    if IsEdge(lines[0], BOTTOM_EDGE) {
      bottom, after := lines[0], lines[1..];
    } else {
      bottom, after := BottomFound(lines[1..], body[1..]);
      assert lines == [lines[0]] + lines[1..];
    }
  }

  lemma {:induction false} LastShown(body: seq<string>) returns (i: nat)
    requires TrimNonEmpty(body) != []
    ensures i < |body| && Trim(body[i]) == TrimNonEmpty(body)[|TrimNonEmpty(body)| - 1]
    ensures forall k :: i < k < |body| ==> Trim(body[k]) == []
  {
    hide Trim;
    if TrimNonEmpty(body[1..]) == [] {
      i := 0;
      NothingShown(body[1..]);
      assert forall k :: 0 < k < |body| ==> body[k] == body[1..][k - 1];
    } else {
      var n := LastShown(body[1..]);
      i := n + 1;
      assert forall k :: i < k < |body| ==> body[k] == body[1..][k - 1];
    }
  }

  lemma {:induction false} ShownConcat(a: seq<string>, b: seq<string>)
    ensures TrimNonEmpty(a + b) == TrimNonEmpty(a) + TrimNonEmpty(b)
  {
    hide *;
    if a == [] {
      assert a + b == b && [] + TrimNonEmpty(b) == TrimNonEmpty(b);
      BlanksNotShown([]);
    } else {
      ShownConcat(a[1..], b);
      assert (a + b)[1..] == a[1..] + b && (a + b)[0] == a[0];
      ShownFirst(a);
      ShownFirst(a + b);
      assert ShownLine(a[0]) + (TrimNonEmpty(a[1..]) + TrimNonEmpty(b)) == (ShownLine(a[0]) + TrimNonEmpty(a[1..])) + TrimNonEmpty(b);
    }
  }

  function ShownLine(line: string): seq<string> {
    if Trim(line) == [] then [] else [Trim(line)]
  }

  lemma ShownFirst(lines: seq<string>)
    requires lines != []
    ensures TrimNonEmpty(lines) == ShownLine(lines[0]) + TrimNonEmpty(lines[1..])
  {
    hide Trim;
  }

  predicate EndsWithTick(line: string) {
    line != "" && line[|line| - 1] == '`'
  }

  /** A line ends in the closing marks of a command, or the marks are broken over the last two lines. */
  predicate EndsQuoted(shown: seq<string>) {
    && shown != []
    && var last := shown[|shown| - 1];
       || (|last| >= 2 && last[|last| - 2..] == "`.")
       || (|shown| > 1 && last == "." && EndsWithTick(shown[|shown| - 2]))
  }

  /** The line with the last backtick; below it there are blank lines and full stops. */
  lemma LastTick(body: seq<string>) returns (i: nat, front: string, stop: string)
    requires EndsQuoted(TrimNonEmpty(body))
    ensures i < |body| && Trim(body[i]) == front + "`" + stop && Filler(stop)
    ensures forall k :: i < k < |body| ==> Filler(Trim(body[k]))
  {
    hide Trim, TrimNonEmpty, IsSpace;
    var shown := TrimNonEmpty(body);
    var last := shown[|shown| - 1];
    i := LastShown(body);
    if |last| >= 2 && last[|last| - 2..] == "`." {
      front, stop := last[..|last| - 2], ".";
      assert last == front + last[|last| - 2..] && "`." == "`" + ".";
    } else {
      var n := i;
      var before := body[..n];
      ShownBefore(body, n);
      var tick := shown[|shown| - 2];
      i := LastShown(before);
      assert before[i] == body[i];
      assert shown[..|shown| - 1][|shown| - 2] == tick;
      front, stop := tick[..|tick| - 1], "";
      assert tick == front + "`" + stop;
      forall k | i < k < |body| ensures Filler(Trim(body[k])) {
        assert k < n ==> before[k] == body[k];
      }
    }
  }

  lemma ShownBefore(body: seq<string>, n: nat)
    requires n < |body| && Trim(body[n]) != [] && forall k :: n < k < |body| ==> Trim(body[k]) == []
    ensures var shown := TrimNonEmpty(body); shown != [] && TrimNonEmpty(body[..n]) == shown[..|shown| - 1]
  {
    hide Trim;
    var rest := body[n + 1..];
    assert body == body[..n] + ([body[n]] + rest);
    ShownConcat(body[..n], [body[n]] + rest);
    assert ([body[n]] + rest)[1..] == rest;
    BlanksNotShown(rest);
    assert TrimNonEmpty([body[n]] + rest) == [Trim(body[n])];
  }

  lemma {:induction false} BlanksNotShown(lines: seq<string>)
    requires forall k :: 0 <= k < |lines| ==> Trim(lines[k]) == []
    ensures TrimNonEmpty(lines) == []
  {
    hide Trim;
    if lines != [] {
      BlanksNotShown(lines[1..]);
    }
  }

  lemma {:induction false} NothingShown(body: seq<string>)
    requires TrimNonEmpty(body) == []
    ensures forall k :: 0 <= k < |body| ==> Trim(body[k]) == []
  {
    hide Trim;
    if body != [] {
      NothingShown(body[1..]);
      assert forall k :: 0 < k < |body| ==> body[k] == body[1..][k - 1];
    }
  }

  /** Lines of white space and full stops and then the edge: filler up to its first mark. */
  lemma {:induction false} EdgeBelow(blanks: seq<string>, bottom: string, after: seq<string>) returns (gap: string, y: string)
    requires IsEdge(bottom, BOTTOM_EDGE) && forall k :: 0 <= k < |blanks| ==> Filler(Trim(blanks[k]))
    ensures Join(blanks + [bottom] + after, "\n") == gap + [BOTTOM_EDGE] + y && Filler(gap)
  {
    hide *;
    if blanks == [] {
      assert blanks + [bottom] + after == [bottom] + after;
      gap, y := EdgeFirst(bottom, after);
    } else {
      var tail := blanks[1..] + [bottom] + after;
      var rest, more := EdgeBelow(blanks[1..], bottom, after);
      assert blanks + [bottom] + after == [blanks[0]] + tail;
      JoinConcat([blanks[0]], tail, "\n");
      SingleJoin(blanks[0]);
      FillerLine(blanks[0]);
      FillerJoined(blanks[0], rest);
      gap, y := blanks[0] + "\n" + rest, more;
      assert blanks[0] + "\n" + (rest + [BOTTOM_EDGE] + more) == gap + [BOTTOM_EDGE] + y;
    }
  }

  lemma FillerLine(line: string)
    requires Filler(Trim(line))
    ensures Filler(line)
  {
    hide Trim, IsSpace;
    var a, b := TrimParts(line);
    var t := Trim(line);
    assert forall i :: 0 <= i < |line| ==>
      line[i] == if i < |a| then a[i] else if i < |a| + |t| then t[i - |a|] else b[i - |a| - |t|];
  }

  lemma EdgeFirst(bottom: string, after: seq<string>) returns (gap: string, y: string)
    requires IsEdge(bottom, BOTTOM_EDGE)
    ensures Join([bottom] + after, "\n") == gap + [BOTTOM_EDGE] + y && Filler(gap)
  {
    var a, b := TrimParts(bottom);
    var marks := Trim(bottom);
    assert marks[0] == BOTTOM_EDGE && marks == [BOTTOM_EDGE] + marks[1..];
    hide *;
    gap, y := a, marks[1..] + b;
    assert bottom == gap + [BOTTOM_EDGE] + y;
    SingleJoin(bottom);
    if after == [] {
      assert [bottom] + after == [bottom];
    } else {
      JoinConcat([bottom], after, "\n");
      var more := "\n" + Join(after, "\n");
      assert gap + [BOTTOM_EDGE] + y + "\n" + Join(after, "\n") == gap + [BOTTOM_EDGE] + (y + more);
      y := y + more;
    }
  }

  /** The whole text of a pane whose box ends in the closing marks of a command is never a pointer. */
  lemma RawTextRefused(lines: seq<string>)
    requires Interior(lines).Some? && EndsQuoted(TrimNonEmpty(Interior(lines).value))
    ensures Accept(Trim(Join(lines, "\n"))) == None
  {
    hide Accept, IsEdge, Trim, TrimNonEmpty, Join, UpToBottom, Filler, EndsQuoted;
    var body := Interior(lines).value;
    var top := LastTop(lines);
    var bottom, after := BottomFound(lines[top + 1..], body);
    var i, front, stop := LastTick(body);
    var gap, y := EdgeBelow(body[i + 1..], bottom, after);
    var pad, pad' := TrimParts(body[i]);
    var before := lines[..top + 1] + body[..i];
    var tail := body[i + 1..] + [bottom] + after;
    assert lines == before + ([body[i]] + tail);
    JoinConcat(before, [body[i]] + tail, "\n");
    JoinConcat([body[i]], tail, "\n");
    SingleJoin(body[i]);
    var a, wide := Join(before, "\n") + "\n" + pad + front, stop + pad' + "\n" + gap;
    assert Join(lines, "\n") == a + ("`" + wide + [BOTTOM_EDGE]) + y;
    WideFiller(stop, pad', gap);
    TextRefused(a, wide, y);
  }

  lemma WideFiller(stop: string, pad: string, gap: string)
    requires Filler(stop) && Blank(pad) && Filler(gap)
    ensures var wide := stop + pad + "\n" + gap; Filler(wide) && exists i :: 0 <= i < |wide| && IsSpace(wide[i])
  {
    var wide := stop + pad + "\n" + gap;
    assert wide[|stop| + |pad|] == '\n';
  }

  lemma SingleJoin(line: string)
    ensures forall separator :: Join([line], separator) == line
  {
  }

  lemma FillerJoined(a: string, b: string)
    requires Filler(a) && Filler(b)
    ensures Filler(a + "\n" + b)
  {
  }
}
