/**
 The managed block of a target AGENTS.md: the pack's text between two markers, rewritten in place. `Adopted`
 specifies the byte part of an adoption; `AgentsFile` is the file it rewrites.
 */
module ManagedBlock {
  import opened Basics

  newtype byte = x: int | 0 <= x < 256

  type Bytes = seq<byte>

  const LT: byte := 0x3c
  const NEWLINE: byte := 0x0a

  function Ascii(s: string): (b: Bytes)
    ensures |b| == |s| && forall i :: 0 <= i < |s| ==> b[i] == AsciiByte(s[i])
  {
    seq(|s|, i requires 0 <= i < |s| => AsciiByte(s[i]))
  }

  function AsciiByte(c: char): byte {
    if c as int < 128 then c as int as byte else 0x3f
  }

  const START := Ascii("<!-- orchestrator-pack:start -->")
  const END := Ascii("<!-- orchestrator-pack:end -->")

  datatype Problem =
    | SourceHasMarker | OnlyEnd | OnlyStart | ManyBoth | ManyStarts | ManyEnds | NoInterval

  datatype Outcome = Refused(problem: Problem) | Adopt(next: Bytes)

  // ----- searching -----

  /** The number of places the needle occurs. */
  function Count(t: Bytes, needle: Bytes): nat {
    if t == [] then 0 else (if needle <= t then 1 else 0) + Count(t[1..], needle)
  }

  function Find(t: Bytes, needle: Bytes): (r: Option<nat>)
    ensures r.Some? ==> r.value + |needle| <= |t| && needle <= t[r.value..]
  {
    if needle <= t then Some(0)
    else if t == [] then None
    else
      match Find(t[1..], needle)
      case Some(k) => Some(k + 1)
      case None => None
  }

  /** It opens with `<`, has no other one, and no line break: so it cannot overlap another one like it. */
  predicate Marker(m: Bytes) {
    m != [] && m[0] == LT && forall i :: 1 <= i < |m| ==> m[i] != LT && m[i] != NEWLINE
  }

  /** Neither marker starts with the other. */
  predicate Apart(m: Bytes, n: Bytes) {
    m == n || exists i :: 0 <= i < |m| && i < |n| && m[i] != n[i]
  }

  method CountLiteral(haystack: Bytes, literal: Bytes) returns (count: nat)
    requires Marker(literal)
    ensures count == Count(haystack, literal)
  {
    hide Count, Find, Marker;
    count := 0;
    var from := 0;
    while from <= |haystack|
      invariant 0 <= from <= |haystack|
      invariant count + Count(haystack[from..], literal) == Count(haystack, literal)
      decreases |haystack| - from
    {
      var index := Find(haystack[from..], literal);
      CountFrom(haystack, from, literal);
      if index.None? {
        return;
      }
      count := count + 1;
      from := from + index.value + |literal|;
    }
  }

  lemma CountFrom(t: Bytes, from: nat, needle: Bytes)
    requires Marker(needle) && from <= |t|
    ensures match Find(t[from..], needle)
            case None => Count(t[from..], needle) == 0
            case Some(k) =>
              && from + k + |needle| <= |t| && |needle| > 0
              && Count(t[from..], needle) == 1 + Count(t[from + k + |needle|..], needle)
  {
    hide Count, Find, Marker;
    CountTail(t[from..], needle);
    if Find(t[from..], needle).Some? {
      var n := Find(t[from..], needle).value + |needle|;
      assert t[from..][n..] == t[from + n..];
    }
  }

  lemma CountTail(u: Bytes, needle: Bytes)
    requires Marker(needle)
    ensures |needle| > 0
    ensures match Find(u, needle)
            case None => Count(u, needle) == 0
            case Some(k) => Count(u, needle) == 1 + Count(u[k + |needle|..], needle)
  {
    hide Count, Find;
    FindSkips(u, needle);
    if Find(u, needle).Some? {
      var k := Find(u, needle).value;
      assert u[k..] == needle + u[k + |needle|..];
      CountMarker(needle, u[k + |needle|..], needle);
    }
  }

  // ----- the rewriting -----

  function WithTrailingNewline(source: Bytes): Bytes {
    if source != [] && source[|source| - 1] == NEWLINE then source else source + [NEWLINE]
  }

  function ManagedInterior(source: Bytes): Bytes {
    START + ([NEWLINE] + (WithTrailingNewline(source) + END))
  }

  function BlockOf(source: Bytes): Bytes {
    ManagedInterior(source) + [NEWLINE]
  }

  predicate MarkerFree(b: Bytes) {
    Count(b, START) == 0 && Count(b, END) == 0
  }

  function MarkerOwnershipProblem(starts: nat, ends: nat): Option<Problem> {
    if starts == 1 && ends == 1 then None
    else if starts == 0 && ends == 1 then Some(OnlyEnd)
    else if starts == 1 && ends == 0 then Some(OnlyStart)
    else if starts == 0 && ends == 0 then None
    else if starts > 1 && ends > 1 then Some(ManyBoth)
    else if starts > 1 then Some(ManyStarts)
    else if ends > 1 then Some(ManyEnds)
    else Some(NoInterval)
  }

  function Separator(target: Bytes): Bytes {
    if target != [] && target[|target| - 1] != NEWLINE then [NEWLINE] else []
  }

  function Adopted(source: Bytes, target: Option<Bytes>): Outcome {
    if Find(source, START).Some? || Find(source, END).Some? then
      Refused(SourceHasMarker)
    else if target.None? then
      Adopt(BlockOf(source))
    else
      var t := target.value;
      var starts, ends := Count(t, START), Count(t, END);
      if starts == 0 && ends == 0 then
        Adopt(t + Separator(t) + BlockOf(source))
      else if MarkerOwnershipProblem(starts, ends).Some? then
        Refused(MarkerOwnershipProblem(starts, ends).value)
      else
        var startAt, endAt := Find(t, START), Find(t, END);
        if startAt.None? || endAt.None? || endAt.value < startAt.value + |START| then
          Refused(NoInterval)
        else
          Adopt(t[..startAt.value] + ManagedInterior(source) + t[endAt.value + |END|..])
  }

  /** The target's root AGENTS.md; absent or a regular file. */
  class AgentsFile {
    var content: Option<Bytes>

    constructor (c: Option<Bytes>)
      ensures content == c
    {
      content := c;
    }

    /** Writes byte by byte as far as the system goes; `progress` is what one write manages at an offset. */
    method WriteBytes(data: Bytes, progress: nat -> nat) returns (ok: bool)
      modifies this
      ensures content.Some? && content.value <= data
      ensures ok <==> content == Some(data)
    {
      var offset := 0;
      content := Some([]);
      while offset < |data|
        invariant 0 <= offset <= |data|
        invariant content == Some(data[..offset])
      {
        var written := Min(progress(offset), |data| - offset);
        if written == 0 {
          return false;
        }
        content := Some(content.value + data[offset..offset + written]);
        assert data[..offset] + data[offset..offset + written] == data[..offset + written];
        offset := offset + written;
      }
      assert data[..offset] == data;
      return true;
    }

    /** A refusal happens before any write, and an unchanged file is not written at all. */
    method Adopt(source: Bytes, progress: nat -> nat) returns (outcome: Outcome, written: bool)
      modifies this
      ensures outcome == old(Adopted(source, content))
      ensures outcome.Refused? ==> content == old(content)
      ensures outcome.Adopt? && written ==> content == Some(outcome.next)
      ensures outcome.Adopt? && old(content) == Some(outcome.next) ==> written
      ensures outcome.Adopt? && !written ==> content.Some? && content.value <= outcome.next && content.value != outcome.next
    {
      hide START, END, Count, Find, ManagedInterior, Separator, MarkerOwnershipProblem;
      written := true;
      if Find(source, START).Some? || Find(source, END).Some? {
        return Refused(SourceHasMarker), written;
      }
      MarkersAre();
      if content.None? {
        outcome := Outcome.Adopt(BlockOf(source));
        written := WriteBytes(outcome.next, progress);
        return;
      }
      var target := content.value;
      var starts := CountLiteral(target, START);
      var ends := CountLiteral(target, END);
      if starts == 0 && ends == 0 {
        outcome := Outcome.Adopt(target + Separator(target) + BlockOf(source));
      } else {
        var problem := MarkerOwnershipProblem(starts, ends);
        if problem.Some? {
          return Refused(problem.value), written;
        }
        var startAt, endAt := Find(target, START), Find(target, END);
        if startAt.None? || endAt.None? || endAt.value < startAt.value + |START| {
          return Refused(NoInterval), written;
        }
        outcome := Outcome.Adopt(target[..startAt.value] + ManagedInterior(source) + target[endAt.value + |END|..]);
      }
      if outcome.next != target {
        written := WriteBytes(outcome.next, progress);
      }
    }
  }

  // ----- counting -----

  lemma MarkersAre()
    ensures Marker(START) && Marker(END) && Apart(START, END) && START != END
  {
    var s, e := "<!-- orchestrator-pack:start -->", "<!-- orchestrator-pack:end -->";
    assert s[23] == 's' && e[23] == 'e';
    assert START[23] != END[23];
  }

  lemma {:induction false} FindSkips(t: Bytes, needle: Bytes)
    requires needle != []
    ensures match Find(t, needle) case None => Count(t, needle) == 0 case Some(k) => Count(t, needle) == Count(t[k..], needle)
  {
    if !(needle <= t) && t != [] {
      FindSkips(t[1..], needle);
      if Find(t, needle).Some? {
        var k := Find(t, needle).value;
        assert t[1..][k - 1..] == t[k..];
      }
    }
  }

  lemma {:induction false} FindCounts(t: Bytes, needle: Bytes)
    requires needle != []
    ensures Find(t, needle).Some? <==> Count(t, needle) > 0
  {
    FindSkips(t, needle);
    if Find(t, needle).Some? {
      var k := Find(t, needle).value;
      assert t[k..] != [];
    }
  }

  /** Before a `<` or the end, what starts with a marker does so without what follows. */
  lemma StartsBefore(a: Bytes, b: Bytes, m: Bytes)
    requires Marker(m) && a != [] && (b == [] || b[0] == LT)
    ensures m <= a + b <==> m <= a
  {
    if b != [] && |m| > |a| {
      assert (a + b)[|a|] == LT && m[|a|] != LT;
    }
  }

  lemma {:induction false} CountBefore(a: Bytes, b: Bytes, m: Bytes)
    requires Marker(m) && (b == [] || b[0] == LT)
    ensures Count(a + b, m) == Count(a, m) + Count(b, m)
  {
    if a == [] {
      assert a + b == b;
    } else {
      StartsBefore(a, b, m);
      CountBefore(a[1..], b, m);
      assert (a + b)[1..] == a[1..] + b;
    }
  }

  /** A line break splits the count too. */
  lemma {:induction false} CountLine(a: Bytes, b: Bytes, m: Bytes)
    requires Marker(m)
    ensures Count(a + ([NEWLINE] + b), m) == Count(a, m) + Count(b, m)
  {
    var t := a + ([NEWLINE] + b);
    if a == [] {
      assert t[0] == NEWLINE && t[1..] == b;
    } else {
      CountLine(a[1..], b, m);
      assert t[1..] == a[1..] + ([NEWLINE] + b);
      if |m| > |a| {
        assert t[|a|] == NEWLINE && m[|a|] != NEWLINE;
      }
    }
  }

  /** Inside a marker no other one starts. */
  lemma {:induction false} CountInside(inner: Bytes, b: Bytes, m: Bytes)
    requires Marker(m) && forall i :: 0 <= i < |inner| ==> inner[i] != LT
    ensures Count(inner + b, m) == Count(b, m)
  {
    if inner == [] {
      assert inner + b == b;
    } else {
      CountInside(inner[1..], b, m);
      assert (inner + b)[1..] == inner[1..] + b && (inner + b)[0] == inner[0];
    }
  }

  lemma CountMarker(n: Bytes, b: Bytes, m: Bytes)
    requires Marker(n) && Marker(m) && Apart(m, n)
    ensures Count(n + b, m) == (if n == m then 1 else 0) + Count(b, m)
  {
    var t := n + b;
    CountInside(n[1..], b, m);
    assert t[1..] == n[1..] + b;
    if n != m {
      var i :| 0 <= i < |m| && i < |n| && m[i] != n[i];
      assert t[i] == n[i];
    }
  }

  lemma CountNewlineEnd(source: Bytes, m: Bytes)
    requires Marker(m)
    ensures Count(WithTrailingNewline(source), m) == Count(source, m)
  {
    CountLine(source, [], m);
    assert [NEWLINE] + [] == [NEWLINE];
  }

  /** Everything between, before and after the markers counts by itself. */
  lemma CountAround(pre: Bytes, mid: Bytes, post: Bytes, m: Bytes)
    requires m == START || m == END
    ensures Count(pre + (START + (mid + (END + post))), m) == Count(pre, m) + Count(mid, m) + Count(post, m) + 1
  {
    MarkersAre();
    hide START, END;
    CountMarker(END, post, m);
    CountBefore(mid, END + post, m);
    CountMarker(START, mid + (END + post), m);
    CountBefore(pre, START + (mid + (END + post)), m);
  }

  lemma CountInterior(pre: Bytes, source: Bytes, post: Bytes, m: Bytes)
    requires m == START || m == END
    ensures Count(pre + ManagedInterior(source) + post, m) == Count(pre, m) + Count(source, m) + Count(post, m) + 1
  {
    MarkersAre();
    hide START, END;
    var mid := [NEWLINE] + WithTrailingNewline(source);
    CountAround(pre, mid, post, m);
    CountLine([], WithTrailingNewline(source), m);
    assert [] + ([NEWLINE] + WithTrailingNewline(source)) == mid;
    CountNewlineEnd(source, m);
    InteriorRegroup(pre, START, WithTrailingNewline(source), END, post);
  }

  lemma Assoc(a: Bytes, b: Bytes, c: Bytes)
    ensures (a + b) + c == a + (b + c)
  {
  }

  lemma InteriorRegroup(pre: Bytes, s: Bytes, text: Bytes, e: Bytes, post: Bytes)
    ensures pre + (s + ([NEWLINE] + (text + e))) + post == pre + (s + (([NEWLINE] + text) + (e + post)))
  {
    Assoc(pre, s + ([NEWLINE] + (text + e)), post);
    Assoc(s, [NEWLINE] + (text + e), post);
    Assoc([NEWLINE], text + e, post);
    Assoc(text, e, post);
    Assoc([NEWLINE], text, e + post);
  }

  /** The one marker behind text without one is found at its place. */
  lemma {:induction false} FindAfter(pre: Bytes, n: Bytes, post: Bytes)
    requires Marker(n) && Count(pre, n) == 0
    ensures Find(pre + (n + post), n) == Some(|pre|)
  {
    hide Count, Find;
    var t, rest := pre + (n + post), n + post;
    assert n <= rest && rest[0] == LT;
    FindStep(t, n);
    if pre == [] {
      assert t == rest;
    } else {
      NoneInFront(pre, n);
      StartsBefore(pre, rest, n);
      FindAfter(pre[1..], n, post);
      assert t[1..] == pre[1..] + rest;
    }
  }

  lemma NoneInFront(t: Bytes, n: Bytes)
    requires t != [] && Count(t, n) == 0
    ensures !(n <= t) && Count(t[1..], n) == 0
  {
  }

  lemma FindStep(t: Bytes, n: Bytes)
    ensures n <= t ==> Find(t, n) == Some(0)
    ensures !(n <= t) && t != [] ==>
              Find(t, n) == match Find(t[1..], n) case Some(k) => Some(k + 1) case None => None
  {
  }

  /** An accepted file: no block yet, or exactly one well-formed interval and what stands around it. */
  ghost predicate Interval(t: Bytes, pre: Bytes, mid: Bytes, post: Bytes) {
    && t == pre + (START + (mid + (END + post)))
    && MarkerFree(pre) && MarkerFree(mid) && MarkerFree(post)
  }

  lemma IntervalFound(t: Bytes, pre: Bytes, mid: Bytes, post: Bytes)
    requires Interval(t, pre, mid, post)
    ensures Count(t, START) == 1 && Count(t, END) == 1
    ensures Find(t, START) == Some(|pre|) && Find(t, END) == Some(|pre| + |START| + |mid|)
    ensures t[..|pre|] == pre && t[|pre| + |START| + |mid| + |END|..] == post
  {
    hide START, END, Find, Count;
    CountAround(pre, mid, post, START);
    CountAround(pre, mid, post, END);
    EndFree(pre, mid);
    IntervalRegroup(pre, START, mid, END, post);
    MarkerAfter(pre, START, mid + (END + post));
    MarkerAfter(pre + (START + mid), END, post);
  }

  lemma MarkerAfter(pre: Bytes, n: Bytes, post: Bytes)
    requires (n == START || n == END) && Count(pre, n) == 0
    ensures Find(pre + (n + post), n) == Some(|pre|)
  {
    hide START, END, Find, Count;
    MarkersAre();
    FindAfter(pre, n, post);
  }

  lemma EndFree(pre: Bytes, mid: Bytes)
    requires MarkerFree(pre) && MarkerFree(mid)
    ensures Count(pre, START) == 0 && Count(pre + (START + mid), END) == 0
  {
    MarkersAre();
    hide START, END;
    CountMarker(START, mid, END);
    CountBefore(pre, START + mid, END);
  }

  lemma IntervalRegroup(pre: Bytes, s: Bytes, mid: Bytes, e: Bytes, post: Bytes)
    ensures var t := pre + (s + (mid + (e + post)));
            && t == (pre + (s + mid)) + (e + post)
            && t[..|pre|] == pre && t[|pre| + |s| + |mid| + |e|..] == post
  {
    Assoc(s, mid, e + post);
    Assoc(pre, s + mid, e + post);
    Assoc(pre + (s + mid), e, post);
  }

  lemma FoundInterval(t: Bytes) returns (pre: Bytes, mid: Bytes, post: Bytes)
    requires Count(t, START) == 1 && Count(t, END) == 1
    requires Find(t, START).Some? && Find(t, END).Some? && Find(t, END).value >= Find(t, START).value + |START|
    ensures Interval(t, pre, mid, post)
  {
    hide START, END, Find, Count;
    var i, j := Find(t, START).value, Find(t, END).value;
    pre, mid, post := CutAt(t, START, END, i, j);
    CountAround(pre, mid, post, START);
    CountAround(pre, mid, post, END);
  }

  lemma CutAt(t: Bytes, s: Bytes, e: Bytes, i: nat, j: nat) returns (pre: Bytes, mid: Bytes, post: Bytes)
    requires i + |s| <= j && j + |e| <= |t| && s <= t[i..] && e <= t[j..]
    ensures t == pre + (s + (mid + (e + post)))
  {
    pre, mid, post := t[..i], t[i + |s|..j], t[j + |e|..];
    assert t[i..] == s + t[i + |s|..];
    assert t[j..] == e + post;
    assert t[i + |s|..] == mid + t[j..];
    assert t == pre + t[i..];
  }

  // ----- main results -----

  /** Accepted exactly: a source without markers, over no file, a file without markers, or one with one interval. */
  lemma AcceptedExactly(source: Bytes, target: Option<Bytes>)
    ensures Adopted(source, target).Adopt? <==>
            && MarkerFree(source)
            && (target.None? || MarkerFree(target.value)
                || exists pre, mid, post :: Interval(target.value, pre, mid, post))
  {
    MarkersAre();
    hide START, END, Count, Find;
    FindCounts(source, START);
    FindCounts(source, END);
    if target.Some? {
      var t := target.value;
      FindCounts(t, START);
      FindCounts(t, END);
      if pre, mid, post :| Interval(t, pre, mid, post) {
        IntervalFound(t, pre, mid, post);
      }
      if Count(t, START) == 1 && Count(t, END) == 1 && Find(t, END).value >= Find(t, START).value + |START| {
        var pre, mid, post := FoundInterval(t);
      }
    }
  }

  /** What adoption writes: the new text between the same surroundings, every byte of them kept. */
  lemma AdoptedForm(source: Bytes, target: Option<Bytes>) returns (pre: Bytes, post: Bytes)
    requires Adopted(source, target).Adopt?
    ensures Adopted(source, target).next == pre + ManagedInterior(source) + post
    ensures MarkerFree(source) && MarkerFree(pre) && MarkerFree(post)
    ensures target.None? ==> pre == [] && post == [NEWLINE]
    ensures target.Some? && MarkerFree(target.value) ==> pre == target.value + Separator(target.value) && post == [NEWLINE]
    ensures target.Some? && !MarkerFree(target.value) ==> exists mid :: Interval(target.value, pre, mid, post)
    ensures forall other :: MarkerFree(other) ==> Adopted(other, target) == Adopt(pre + ManagedInterior(other) + post)
  {
    MarkersAre();
    hide START, END, Count, Find, ManagedInterior, Interval, Separator, MarkerOwnershipProblem;
    AcceptedExactly(source, target);
    LineFree();
    CountEmpty();
    if target.None? {
      pre, post := [], [NEWLINE];
    } else if MarkerFree(target.value) {
      pre, post := target.value + Separator(target.value), [NEWLINE];
      SeparatorFree(target.value);
    } else {
      var p, mid, q :| Interval(target.value, p, mid, q);
      pre, post := p, q;
      IntervalFree(target.value, p, mid, q);
    }
    forall other | MarkerFree(other) ensures Adopted(other, target) == Adopt(pre + ManagedInterior(other) + post) {
      AdoptedBetween(other, target, pre, post);
    }
  }

  lemma AdoptedBetween(source: Bytes, target: Option<Bytes>, pre: Bytes, post: Bytes)
    requires MarkerFree(source)
    requires match target
             case None => pre == [] && post == [NEWLINE]
             case Some(t) =>
               || (MarkerFree(t) && pre == t + Separator(t) && post == [NEWLINE])
               || exists mid :: Interval(t, pre, mid, post)
    ensures Adopted(source, target) == Adopt(pre + ManagedInterior(source) + post)
  {
    MarkersAre();
    hide START, END, Count, Find, ManagedInterior, Interval, Separator;
    FindCounts(source, START);
    FindCounts(source, END);
    if target.None? {
      assert [] + ManagedInterior(source) + post == BlockOf(source);
    } else if MarkerFree(target.value) && pre == target.value + Separator(target.value) && post == [NEWLINE] {
      Assoc(pre, ManagedInterior(source), post);
    } else {
      var mid :| Interval(target.value, pre, mid, post);
      IntervalFound(target.value, pre, mid, post);
    }
  }

  lemma LineFree()
    ensures MarkerFree([NEWLINE])
  {
    MarkersAre();
    hide START, END;
    CountLine([], [], START);
    CountLine([], [], END);
    assert [] + ([NEWLINE] + []) == [NEWLINE];
  }

  lemma IntervalFree(t: Bytes, pre: Bytes, mid: Bytes, post: Bytes)
    requires Interval(t, pre, mid, post)
    ensures MarkerFree(pre) && MarkerFree(post)
  {
  }

  lemma SeparatorFree(t: Bytes)
    requires MarkerFree(t)
    ensures MarkerFree(t + Separator(t))
  {
    MarkersAre();
    hide START, END, Count;
    if Separator(t) == [] {
      assert t + Separator(t) == t;
    } else {
      CountLine(t, [], START);
      CountLine(t, [], END);
      assert t + ([NEWLINE] + []) == t + Separator(t);
      LineFree();
      CountEmpty();
    }
  }

  lemma CountEmpty()
    ensures Count([], START) == 0 && Count([], END) == 0
  {
  }

  /** The result has exactly one start and one end marker, and is accepted again. */
  lemma OneBlock(source: Bytes, target: Option<Bytes>)
    requires Adopted(source, target).Adopt?
    ensures Count(Adopted(source, target).next, START) == 1 && Count(Adopted(source, target).next, END) == 1
  {
    var pre, post := AdoptedForm(source, target);
    CountInterior(pre, source, post, START);
    CountInterior(pre, source, post, END);
  }

  /** The last writer wins: adopting again from another source gives what that source alone would have given. */
  lemma LastWriterWins(first: Bytes, second: Bytes, target: Option<Bytes>)
    requires Adopted(first, target).Adopt? && MarkerFree(second)
    ensures Adopted(second, Some(Adopted(first, target).next)) == Adopted(second, target)
  {
    hide START, END, Count, Find, Adopted;
    var pre, post := AdoptedForm(first, target);
    var next := Adopted(first, target).next;
    var mid := [NEWLINE] + WithTrailingNewline(first);
    MidFree(first);
    InteriorRegroup(pre, START, WithTrailingNewline(first), END, post);
    assert Interval(next, pre, mid, post);
    AdoptedBetween(second, Some(next), pre, post);
  }

  lemma MidFree(source: Bytes)
    requires MarkerFree(source)
    ensures MarkerFree([NEWLINE] + WithTrailingNewline(source))
  {
    MarkersAre();
    hide START, END;
    var line := WithTrailingNewline(source);
    CountLine([], line, START);
    CountLine([], line, END);
    assert [] + ([NEWLINE] + line) == [NEWLINE] + line;
    CountNewlineEnd(source, START);
    CountNewlineEnd(source, END);
  }

  /** Adopting the same source twice changes nothing the second time. */
  lemma AdoptIdempotent(source: Bytes, target: Option<Bytes>)
    requires Adopted(source, target).Adopt?
    ensures Adopted(source, Some(Adopted(source, target).next)) == Adopted(source, target)
  {
    AcceptedExactly(source, target);
    LastWriterWins(source, source, target);
  }

  // ----- what is refused, and the lines between -----

  /** Why an adoption is refused: by the markers of the source, or by how many of each the target has. */
  lemma RefusedExactly(source: Bytes, target: Option<Bytes>)
    ensures var starts, ends := (if target.None? then 0 else Count(target.value, START)), (if target.None? then 0 else Count(target.value, END));
            if !MarkerFree(source) then Adopted(source, target) == Refused(SourceHasMarker)
            else
              var r := Adopted(source, target);
              && (r == Refused(OnlyStart) <==> starts == 1 && ends == 0)
              && (r == Refused(OnlyEnd) <==> starts == 0 && ends == 1)
              && (r == Refused(ManyBoth) <==> starts >= 2 && ends >= 2)
              && (r == Refused(ManyStarts) <==> starts >= 2 && ends <= 1)
              && (r == Refused(ManyEnds) <==> starts <= 1 && ends >= 2)
              && (r == Refused(NoInterval) <==>
                    starts == 1 && ends == 1 && forall pre, mid, post :: !Interval(target.value, pre, mid, post))
              && r != Refused(SourceHasMarker)
  {
    MarkersAre();
    AcceptedExactly(source, target);
    FindCounts(source, START);
    FindCounts(source, END);
    hide START, END, Count, Find, Interval, BlockOf, ManagedInterior;
    if target.Some? && exists pre, mid, post :: Interval(target.value, pre, mid, post) {
      var pre, mid, post :| Interval(target.value, pre, mid, post);
      IntervalFound(target.value, pre, mid, post);
    }
  }

  predicate EndsLine(b: Bytes) {
    b == [] || b[|b| - 1] == NEWLINE
  }

  /** The start marker comes to stand on a line of its own, with at most one newline put before it. */
  lemma StartsOnOwnLine(target: Bytes)
    ensures EndsLine(target + Separator(target)) && |Separator(target)| <= 1
    ensures Separator(target) == [] <==> EndsLine(target)
  {
  }

  /** And the end marker: what stands before it is the source, ended by a newline, put there only if there is none. */
  lemma EndsOnOwnLine(source: Bytes)
    ensures var t := WithTrailingNewline(source); t != [] && EndsLine(t) && source <= t && |t| <= |source| + 1
    ensures WithTrailingNewline(source) == source <==> source != [] && EndsLine(source)
  {
  }
}
