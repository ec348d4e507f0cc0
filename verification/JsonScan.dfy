/**
 Finding an embedded JSON object by counting braces outside strings. `JsonObjectAt` is the scanner; the tree
 datatypes are the grammar of sections 4 to 7 of RFC 8259, and the scanner finds exactly a tree's closing brace.
 */
module JsonScan {
  import opened Basics

  datatype State = State(depth: int, inString: bool, escaped: bool)

  const START := State(0, false, false)

  function Next(st: State, c: char): State {
    if st.inString then
      if st.escaped then st.(escaped := false)
      else if c == '\\' then st.(escaped := true)
      else if c == '"' then st.(inString := false)
      else st
    else if c == '"' then st.(inString := true)
    else if c == '{' then st.(depth := st.depth + 1)
    else if c == '}' then st.(depth := st.depth - 1)
    else st
  }

  function Scanned(st: State, s: string): State
    decreases |s|
  {
    if s == "" then st else Scanned(Next(st, s[0]), s[1..])
  }

  /** This character is a closing brace that brings the depth to 0. */
  predicate Closes(st: State, c: char) {
    !st.inString && c == '}' && st.depth == 1
  }

  /** Where the scan first comes back to depth 0. */
  function FirstClose(st: State, s: string): (r: Option<nat>)
    ensures r.Some? ==> r.value < |s|
    decreases |s|
  {
    if s == "" then None
    else if Closes(st, s[0]) then Some(0)
    else
      match FirstClose(Next(st, s[0]), s[1..])
      case None => None
      case Some(k) => Some(k + 1)
  }

  /** The scanner: the parse of the slice up to the first return to depth 0, if it parses to a record. */
  method JsonObjectAt<Record>(output: string, start: nat, parse: string -> Option<Record>) returns (r: Option<Record>)
    requires start <= |output|
    ensures match FirstClose(START, output[start..])
            case None => r == None
            case Some(k) => r == parse(output[start..][..k + 1])
  {
    var depth, inString, escaped := 0, false, false;
    var index := start;
    while index < |output|
      invariant start <= index <= |output|
      invariant match FirstClose(State(depth, inString, escaped), output[index..])
                case None => FirstClose(START, output[start..]) == None
                case Some(k) => FirstClose(START, output[start..]) == Some(index - start + k)
    {
      var c := output[index];
      assert output[index..][0] == c && output[index..][1..] == output[index + 1..];
      index := index + 1;
      if inString {
        if escaped {
          escaped := false;
        } else if c == '\\' {
          escaped := true;
        } else if c == '"' {
          inString := false;
        }
        continue;
      }
      if c == '"' {
        inString := true;
        continue;
      }
      if c == '{' {
        depth := depth + 1;
      }
      if c != '}' {
        continue;
      }
      depth := depth - 1;
      if depth != 0 {
        continue;
      }
      assert output[start..][..index - start] == output[start..index];
      return parse(output[start..index]);
    }
    return None;
  }

  // ----- the grammar -----

  /** A piece of a string: one character that stands for itself, or a backslash and the character it escapes. */
  datatype Piece = Plain(c: char) | Escape(c: char)

  datatype Value =
    | Literal(text: string)
    | Str(pieces: seq<Piece>)
    | Arr(items: Items)
    | Obj(members: Members)

  /** The blanks that may stand around every token are part of the tree. */
  datatype Items = NoItems(blank: string) | Item(before: string, value: Value, after: string, more: Items)

  datatype Members =
    | NoMembers(blank: string)
    | Member(before: string, name: seq<Piece>, colonBefore: string, colonAfter: string, value: Value, after: string, more: Members)

  predicate Blank(s: string) {
    forall i :: 0 <= i < |s| ==> s[i] in " \t\n\r"
  }

  predicate WellFormedString(pieces: seq<Piece>) {
    forall i :: 0 <= i < |pieces| ==> pieces[i].Plain? ==> pieces[i].c != '"' && pieces[i].c != '\\'
  }

  /** Numbers and the three names are made of these characters; more than the grammar needs is allowed. */
  predicate LiteralText(s: string) {
    s != "" && forall i :: 0 <= i < |s| ==> s[i] in "+-.0123456789abcdefghijklmnopqrstuvwxyzE"
  }

  predicate WellFormed(v: Value) {
    match v
    case Literal(text) => LiteralText(text)
    case Str(pieces) => WellFormedString(pieces)
    case Arr(items) => WellFormedItems(items)
    case Obj(members) => WellFormedMembers(members)
  }

  predicate WellFormedItems(items: Items) {
    match items
    case NoItems(blank) => Blank(blank)
    case Item(before, value, after, more) => Blank(before) && WellFormed(value) && Blank(after) && WellFormedItems(more)
  }

  predicate WellFormedMembers(members: Members) {
    match members
    case NoMembers(blank) => Blank(blank)
    case Member(before, name, colonBefore, colonAfter, value, after, more) =>
      && Blank(before) && WellFormedString(name) && Blank(colonBefore) && Blank(colonAfter)
      && WellFormed(value) && Blank(after) && WellFormedMembers(more)
  }

  function PieceText(p: Piece): string {
    match p
    case Plain(c) => [c]
    case Escape(c) => ['\\', c]
  }

  function PiecesText(pieces: seq<Piece>): string {
    if pieces == [] then "" else PieceText(pieces[0]) + PiecesText(pieces[1..])
  }

  function StringText(pieces: seq<Piece>): string {
    "\"" + (PiecesText(pieces) + "\"")
  }

  function Text(v: Value): string {
    match v
    case Literal(text) => text
    case Str(pieces) => StringText(pieces)
    case Arr(items) => "[" + (ItemsText(items, false) + "]")
    case Obj(members) => "{" + (MembersText(members, false) + "}")
  }

  /** The items with commas between them; `comma` tells whether one is due before the first. */
  function ItemsText(items: Items, comma: bool): string {
    match items
    case NoItems(blank) => blank
    case Item(before, value, after, more) =>
      Comma(comma) + (before + (Text(value) + (after + ItemsText(more, true))))
  }

  function MembersText(members: Members, comma: bool): string {
    match members
    case NoMembers(blank) => blank
    case Member(before, name, colonBefore, colonAfter, value, after, more) =>
      Comma(comma) + (before + (StringText(name) + (colonBefore + (":" + (colonAfter + (Text(value) + (after
      + MembersText(more, true))))))))
  }

  function Comma(due: bool): string {
    if due then "," else ""
  }

  // ----- scanning well-formed text -----

  /** Scanning the text comes back to the state it started in, without closing on the way. */
  predicate Neutral(st: State, s: string) {
    Scanned(st, s) == st && FirstClose(st, s) == None
  }

  lemma {:induction false} ScanAppend(st: State, a: string, b: string)
    ensures Scanned(st, a + b) == Scanned(Scanned(st, a), b)
    ensures FirstClose(st, a + b) ==
            if FirstClose(st, a).Some? then FirstClose(st, a)
            else match FirstClose(Scanned(st, a), b) case None => None case Some(k) => Some(|a| + k)
    decreases |a|
  {
    if a == "" {
      assert a + b == b;
    } else {
      ScanAppend(Next(st, a[0]), a[1..], b);
      assert (a + b)[1..] == a[1..] + b;
    }
  }

  lemma NeutralAppend(st: State, a: string, b: string)
    requires Neutral(st, a) && Neutral(st, b)
    ensures Neutral(st, a + b)
  {
    ScanAppend(st, a, b);
  }

  lemma {:induction false} PlainNeutral(st: State, s: string)
    requires !st.inString && forall i :: 0 <= i < |s| ==> s[i] !in "\"{}"
    ensures Neutral(st, s)
  {
    if s != "" {
      assert Next(st, s[0]) == st;
      PlainNeutral(st, s[1..]);
    }
  }

  lemma {:induction false} PiecesNeutral(st: State, pieces: seq<Piece>)
    requires st.inString && !st.escaped && WellFormedString(pieces)
    ensures Neutral(st, PiecesText(pieces))
  {
    if pieces != [] {
      PiecesNeutral(st, pieces[1..]);
      PieceNeutral(st, pieces[0]);
      NeutralAppend(st, PieceText(pieces[0]), PiecesText(pieces[1..]));
    }
  }

  lemma PieceNeutral(st: State, p: Piece)
    requires st.inString && !st.escaped && (p.Plain? ==> p.c != '"' && p.c != '\\')
    ensures Neutral(st, PieceText(p))
  {
    var t := PieceText(p);
    if p.Plain? {
      assert t[1..] == "";
      assert Scanned(st, t) == Scanned(Next(st, p.c), "");
    } else {
      assert t[1..] == [p.c] && [p.c][1..] == "";
      assert Scanned(st, t) == Scanned(Next(st, '\\'), [p.c]) == Scanned(Next(Next(st, '\\'), p.c), "");
    }
  }

  lemma StringNeutral(st: State, pieces: seq<Piece>)
    requires !st.inString && !st.escaped && WellFormedString(pieces)
    ensures Neutral(st, StringText(pieces))
  {
    var inside := st.(inString := true);
    PiecesNeutral(inside, pieces);
    var rest := PiecesText(pieces) + "\"";
    ScanAppend(inside, PiecesText(pieces), "\"");
    assert Scanned(inside, "\"") == Scanned(st, "") == st;
    assert FirstClose(inside, "\"") == None by {
      assert "\""[1..] == "";
    }
    var all := StringText(pieces);
    assert all[0] == '"' && all[1..] == rest;
  }

  lemma TokenNeutral(st: State, s: string)
    requires !st.inString && (Blank(s) || LiteralText(s) || s == ":" || s == "," || s == "[" || s == "]")
    ensures Neutral(st, s)
  {
    PlainNeutral(st, s);
  }

  /** Every value is neutral inside an object. */
  lemma {:induction false} ValueNeutral(st: State, v: Value)
    requires !st.inString && !st.escaped && st.depth >= 1 && WellFormed(v)
    ensures Neutral(st, Text(v))
    decreases v, 0
  {
    hide Neutral;
    match v
    case Literal(text) =>
      TokenNeutral(st, text);
    case Str(pieces) =>
      StringNeutral(st, pieces);
    case Arr(items) =>
      ItemsNeutral(st, items, false);
      TokenNeutral(st, "[");
      TokenNeutral(st, "]");
      NeutralAppend(st, ItemsText(items, false), "]");
      NeutralAppend(st, "[", ItemsText(items, false) + "]");
    case Obj(members) =>
      MembersNeutral(st.(depth := st.depth + 1), members, false);
      BracedNeutral(st, MembersText(members, false));
  }

  lemma BracedNeutral(st: State, inner: string)
    requires !st.inString && !st.escaped && st.depth >= 1 && Neutral(st.(depth := st.depth + 1), inner)
    ensures Neutral(st, "{" + (inner + "}"))
  {
    var inside := st.(depth := st.depth + 1);
    ScanAppend(inside, inner, "}");
    assert "}"[1..] == "";
    var all := "{" + (inner + "}");
    assert all[0] == '{' && all[1..] == inner + "}";
  }

  lemma {:induction false} ItemsNeutral(st: State, items: Items, comma: bool)
    requires !st.inString && !st.escaped && st.depth >= 1 && WellFormedItems(items)
    ensures Neutral(st, ItemsText(items, comma))
    decreases items, 1
  {
    hide Neutral, Blank, Text;
    match items
    case NoItems(blank) =>
      TokenNeutral(st, blank);
    case Item(before, value, after, more) =>
      ItemsNeutral(st, more, true);
      ValueNeutral(st, value);
      TokenNeutral(st, before);
      TokenNeutral(st, after);
      CommaNeutral(st, comma);
      NeutralAppend(st, after, ItemsText(more, true));
      NeutralAppend(st, Text(value), after + ItemsText(more, true));
      NeutralAppend(st, before, Text(value) + (after + ItemsText(more, true)));
      NeutralAppend(st, Comma(comma), before + (Text(value) + (after + ItemsText(more, true))));
  }

  lemma CommaNeutral(st: State, comma: bool)
    requires !st.inString
    ensures Neutral(st, Comma(comma))
  {
    TokenNeutral(st, ",");
  }

  lemma {:induction false} MembersNeutral(st: State, members: Members, comma: bool)
    requires !st.inString && !st.escaped && st.depth >= 1 && WellFormedMembers(members)
    ensures Neutral(st, MembersText(members, comma))
    decreases members, 1
  {
    hide Neutral, Blank, Text, StringText;
    match members
    case NoMembers(blank) =>
      TokenNeutral(st, blank);
    case Member(before, name, colonBefore, colonAfter, value, after, more) =>
      MembersNeutral(st, more, true);
      ValueNeutral(st, value);
      StringNeutral(st, name);
      TokenNeutral(st, before);
      TokenNeutral(st, colonBefore);
      TokenNeutral(st, ":");
      TokenNeutral(st, colonAfter);
      TokenNeutral(st, after);
      CommaNeutral(st, comma);
      var t1 := after + MembersText(more, true);
      var t2 := Text(value) + t1;
      var t3 := colonAfter + t2;
      var t4 := ":" + t3;
      var t5 := colonBefore + t4;
      var t6 := StringText(name) + t5;
      NeutralAppend(st, after, MembersText(more, true));
      NeutralAppend(st, Text(value), t1);
      NeutralAppend(st, colonAfter, t2);
      NeutralAppend(st, ":", t3);
      NeutralAppend(st, colonBefore, t4);
      NeutralAppend(st, StringText(name), t5);
      NeutralAppend(st, before, t6);
      NeutralAppend(st, Comma(comma), before + t6);
  }

  /**
   For every well-formed object, at any offset and before any suffix, the scan first comes back to depth 0 at
   that object's closing brace: the slice the scanner parses is the object's text.
   */
  lemma ObjectIsTheSlice(prefix: string, obj: Value, suffix: string)
    requires obj.Obj? && WellFormed(obj)
    ensures var output := prefix + Text(obj) + suffix;
            && FirstClose(START, output[|prefix|..]) == Some(|Text(obj)| - 1)
            && output[|prefix|..][..|Text(obj)|] == Text(obj)
  {
    var inner := MembersText(obj.members, false);
    MembersNeutral(State(1, false, false), obj.members, false);
    var text, output := Text(obj), prefix + Text(obj) + suffix;
    assert text == "{" + (inner + "}");
    hide Text, MembersText, WellFormed, Neutral, FirstClose;
    assert output[|prefix|..] == text + suffix;
    BracesClose(inner, suffix);
  }

  lemma BracesClose(inner: string, suffix: string)
    requires Neutral(State(1, false, false), inner)
    ensures FirstClose(START, "{" + (inner + "}") + suffix) == Some(|inner| + 1)
  {
    var inside := State(1, false, false);
    var text, rest := "{" + (inner + "}") + suffix, "}" + suffix;
    ScanAppend(inside, inner, rest);
    assert text[0] == '{' && text[1..] == inner + rest;
    assert rest[0] == '}';
    assert Next(START, '{') == inside;
  }
}
