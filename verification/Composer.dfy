/**
 Reading a pointer back from a composer pane: finding the box, reducing its lines to content, and
 recognising the one check command in the rejoined text.
 */
module Composer {
  import opened Basics
  import opened Mail

  const ARROW := '\U{2192}'
  const TOP_EDGE := '\U{2584}'
  const BOTTOM_EDGE := '\U{2580}'

  predicate IsEdge(line: string, edge: char) {
    |Trim(line)| >= 8 && forall i :: 0 <= i < |Trim(line)| ==> Trim(line)[i] == edge
  }

  /** The index of the last top edge, or -1. */
  function LastTop(lines: seq<string>): (r: int)
    ensures -1 <= r < |lines|
  {
    if lines == [] then -1
    else if IsEdge(lines[|lines| - 1], TOP_EDGE) then |lines| - 1
    else LastTop(lines[..|lines| - 1])
  }

  /** The lines up to the first bottom edge, when there is one. */
  function UpToBottom(lines: seq<string>): Option<seq<string>> {
    if lines == [] then None
    else if IsEdge(lines[0], BOTTOM_EDGE) then Some([])
    else match UpToBottom(lines[1..])
      case None => None
      case Some(rest) => Some([lines[0]] + rest)
  }

  function Interior(lines: seq<string>): Option<seq<string>> {
    var top := LastTop(lines);
    if top < 0 then None else UpToBottom(lines[top + 1..])
  }

  method ComposerInterior(raw: seq<string>) returns (r: Option<seq<string>>)
    ensures r == Interior(raw)
  {
    hide IsEdge;
    var top := -1;
    var index := 0;
    while index < |raw|
      invariant 0 <= index <= |raw|
      invariant top == LastTop(raw[..index])
    {
      assert raw[..index + 1][..index] == raw[..index];
      if IsEdge(raw[index], TOP_EDGE) {
        top := index;
      }
      index := index + 1;
    }
    assert raw[..index] == raw;
    if top < 0 {
      return None;
    }
    index := top + 1;
    PrependNothing(UpToBottom(raw[index..]));
    assert raw[top + 1..index] == [];
    while index < |raw|
      invariant top < index <= |raw|
      invariant UpToBottom(raw[top + 1..]) == Prepend(raw[top + 1..index], UpToBottom(raw[index..]))
    {
      if IsEdge(raw[index], BOTTOM_EDGE) {
        assert raw[top + 1..index] + [] == raw[top + 1..index];
        return Some(raw[top + 1..index]);
      }
      NextLine(raw, top + 1, index);
      index := index + 1;
    }
    return None;
  }

  function Prepend(prefix: seq<string>, rest: Option<seq<string>>): Option<seq<string>> {
    match rest
    case None => None
    case Some(r) => Some(prefix + r)
  }

  lemma PrependNothing(rest: Option<seq<string>>)
    ensures Prepend([], rest) == rest
  {
    if rest.Some? {
      assert [] + rest.value == rest.value;
    }
  }

  lemma NextLine(raw: seq<string>, top: nat, index: nat)
    requires top <= index < |raw| && !IsEdge(raw[index], BOTTOM_EDGE)
    ensures Prepend(raw[top..index], UpToBottom(raw[index..])) == Prepend(raw[top..index + 1], UpToBottom(raw[index + 1..]))
  {
    hide IsEdge;
    assert raw[index..][1..] == raw[index + 1..];
    var rest := UpToBottom(raw[index + 1..]).GetOr([]);
    assert raw[top..index] + ([raw[index]] + rest) == raw[top..index + 1] + rest;
  }

  /** Simple case folding, for the characters the patterns name. */
  function Fold(c: char): char {
    if 'A' <= c <= 'Z' then (c as int + 32) as char
    else if c == '\U{017F}' then 's'
    else if c == '\U{212A}' then 'k'
    else c
  }

  predicate IsWord(c: char) {
    '0' <= c <= '9' || c == '_' || 'a' <= Fold(c) <= 'z'
  }

  predicate LiteralAt(s: string, i: nat, literal: string) {
    i + |literal| <= |s| && forall k :: 0 <= k < |literal| ==> Fold(s[i + k]) == Fold(literal[k])
  }

  predicate BoundaryAt(s: string, i: nat) {
    i >= |s| || !IsWord(s[i])
  }

  /** The line is the `ctrl+c to stop` hint. */
  predicate IsStopHint(line: string) {
    LiteralAt(line, 0, "ctrl+c to stop") && BoundaryAt(line, |"ctrl+c to stop"|)
  }

  function StripArrow(line: string): string {
    Trim(if line != [] && line[0] == ARROW then TrimStart(line[1..]) else line)
  }

  function TrimNonEmpty(lines: seq<string>): seq<string> {
    if lines == [] then []
    else (if Trim(lines[0]) == [] then [] else [Trim(lines[0])]) + TrimNonEmpty(lines[1..])
  }

  /** Composer lines without the prompt arrow and the stop hint. */
  function Stripped(trimmed: seq<string>): seq<string> {
    if trimmed == [] then []
    else
      (if trimmed[0] == [ARROW] || IsStopHint(trimmed[0]) || StripArrow(trimmed[0]) == [] then []
       else [StripArrow(trimmed[0])]) + Stripped(trimmed[1..])
  }

  function ContentLines(lines: seq<string>): seq<string> {
    Stripped(TrimNonEmpty(lines))
  }

  function Join(parts: seq<string>, separator: string): string {
    if parts == [] then []
    else if |parts| == 1 then parts[0]
    else parts[0] + separator + Join(parts[1..], separator)
  }

  function DigitsEnd(s: string, i: nat): (r: nat)
    requires i <= |s|
    ensures i <= r <= |s|
    decreases |s| - i
  {
    if i < |s| && '0' <= s[i] <= '9' then DigitsEnd(s, i + 1) else i
  }

  function FirstBacktick(s: string, i: nat): (r: nat)
    requires i <= |s|
    ensures i <= r <= |s|
    ensures r < |s| ==> s[r] == '`'
    ensures forall k :: i <= k < r ==> s[k] != '`'
    decreases |s| - i
  {
    if i < |s| && s[i] != '`' then FirstBacktick(s, i + 1) else i
  }

  /** The end of the longest run of non-space characters from `i` that a closing backtick and full stop follow. */
  function LastClose(s: string, i: nat): (r: Option<nat>)
    requires i <= |s|
    ensures r.Some? ==> i <= r.value && r.value + 1 < |s| && s[r.value] == '`' && s[r.value + 1] == '.'
    ensures r.Some? ==> NoSpace(s[i..r.value])
    decreases |s| - i
  {
    if i >= |s| || IsSpace(s[i]) then None
    else
      var further := LastClose(s, i + 1);
      if further.Some? then
        assert s[i..further.value] == [s[i]] + s[i + 1..further.value];
        further
      else if s[i] == '`' && i + 1 < |s| && s[i + 1] == '.' then Some(i)
      else None
  }

  datatype Match = Match(end: nat, command: string)

  /** The quoted command that starts at `q`, with its closing backtick and full stop. */
  function CommandAt(s: string, q: nat): (r: Option<Match>)
    ensures r.Some? ==> q < r.value.end <= |s|
  {
    if !LiteralAt(s, q, BARE_CHECK) then None
    else
      var p := q + |BARE_CHECK|;
      var id := if LiteralAt(s, p, " --run ") then p + |" --run "|
                else if LiteralAt(s, p, " --terminal ") then p + |" --terminal "|
                else p;
      if id == p then
        if p + 1 < |s| && s[p] == '`' && s[p + 1] == '.' then Some(Match(p + 2, s[q..p])) else None
      else if id < |s| && !IsSpace(s[id]) then
        match LastClose(s, id + 1)
        case None => None
        case Some(e) => Some(Match(e + 2, s[q..e]))
      else
        None
  }

  const YOU_HAVE := "You have "
  const MESSAGE := " orchestration message"

  /** Where the counted header `You have <n> orchestration message(s)` that starts at `i` ends. */
  function HeaderEnd(s: string, i: nat): (r: Option<nat>)
    ensures r.Some? ==> i < r.value <= |s|
  {
    if !LiteralAt(s, i, YOU_HAVE) then None
    else
      var d := i + |YOU_HAVE|;
      var n := DigitsEnd(s, d);
      if n == d || !LiteralAt(s, n, MESSAGE) then None
      else
        var b := n + |MESSAGE|;
        var p := if LiteralAt(s, b, "s") then b + 1 else b;
        if BoundaryAt(s, p) then Some(p) else None
  }

  /** The pointer pattern, anchored at `i`. */
  function MatchAt(s: string, i: nat): (r: Option<Match>)
    requires i <= |s|
    ensures r.Some? ==> i < r.value.end <= |s|
  {
    match HeaderEnd(s, i)
    case None => None
    case Some(p) =>
      var k := FirstBacktick(s, p);
      if k >= |s| then None else CommandAt(s, k + 1)
  }

  /** The commands of all matches from `i` on, provided nothing but white space lies between them. */
  function Scan(s: string, i: nat): Option<seq<string>>
    requires i <= |s|
    decreases |s| - i
  {
    if i == |s| then Some([])
    else match MatchAt(s, i)
      case Some(m) =>
        (match Scan(s, m.end)
         case None => None
         case Some(rest) => Some([m.command] + rest))
      case None =>
        if IsSpace(s[i]) then Scan(s, i + 1) else None
  }

  /** Drops a prompt arrow that stands before a pointer. */
  function DropArrows(s: string): (r: string)
    ensures |r| <= |s|
    decreases |s|
  {
    if s == [] then []
    else if s[0] == ARROW && "You have" <= TrimStart(s[1..]) then DropArrows(TrimStart(s[1..]))
    else [s[0]] + DropArrows(s[1..])
  }

  /** The command of a candidate text that holds pointers for one command and nothing else. */
  function Accept(candidate: string): Option<string> {
    match Scan(DropArrows(candidate), 0)
    case None => None
    case Some(commands) =>
      if commands != [] && forall k :: 0 <= k < |commands| ==> commands[k] == commands[0] then Some(commands[0]) else None
  }

  function FirstAccepted(candidates: seq<string>): Option<string> {
    if candidates == [] then None
    else if Accept(candidates[0]).Some? then Accept(candidates[0])
    else FirstAccepted(candidates[1..])
  }

  /** The command a pane shows; `unboxed` is the reading of a pane without a box. */
  function PointerCommand(lines: seq<string>, unboxed: seq<string>): Option<string> {
    var interior := Interior(lines);
    var source := if interior.Some? then ContentLines(interior.value) else unboxed;
    FirstAccepted([Join(source, ""), Join(source, " "), Trim(Join(lines, "\n"))])
  }
}
