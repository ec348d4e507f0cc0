/**
 The merge-triage evidence record: changed paths and denylist patterns are made safe, sorted and compared. What the
 record says about their intersection is what the globs mean for the paths the caller named.
 */
module TriageEvidence {
  import opened Basics
  import Glob

  datatype Record = Record(changedPaths: seq<string>, denylistPatterns: seq<string>, matchedPaths: seq<string>, intersection: bool)

  // ----- safe paths -----

  function Slashes(s: string): string {
    seq(|s|, i requires 0 <= i < |s| => if s[i] == '\\' then '/' else s[i])
  }

  /** One of the segments between slashes is `..`. */
  predicate HasDotDot(s: string) {
    exists i :: 0 <= i < |s| && DotDotAt(s, i)
  }

  predicate DotDotAt(s: string, i: int) {
    && 0 <= i && i + 2 <= |s| && s[i] == '.' && s[i + 1] == '.'
    && (i == 0 || s[i - 1] == '/') && (i + 2 == |s| || s[i + 2] == '/')
  }

  predicate Unsafe(s: string) {
    s == "" || s[0] == '/' || !NulFree(s) || HasDotDot(s)
  }

  function StripDot(s: string): string {
    if "./" <= s then s[2..] else s
  }

  /** The path with forward slashes and without one leading `./`; none when it is empty or unsafe. */
  function NormalizeChangedPath(value: string): Option<string> {
    var path := Slashes(Trim(value));
    if Unsafe(path) then None else Some(StripDot(path))
  }

  function NormalizeAll(values: seq<string>): (r: Option<seq<string>>)
    ensures r.Some? ==> |r.value| == |values| && forall i :: 0 <= i < |values| ==> NormalizeChangedPath(values[i]) == Some(r.value[i])
    ensures r.None? ==> exists v :: v in values && NormalizeChangedPath(v).None?
  {
    if values == [] then Some([])
    else
      var first, rest := NormalizeChangedPath(values[0]), NormalizeAll(values[1..]);
      if first.None? || rest.None? then None else Some([first.value] + rest.value)
  }

  // ----- sorted sets -----

  /** The order of code units. */
  predicate Less(a: string, b: string) {
    b != "" && (a == "" || a[0] < b[0] || (a[0] == b[0] && Less(a[1..], b[1..])))
  }

  lemma {:induction false} LessTransitive(a: string, b: string, c: string)
    requires Less(a, b) && Less(b, c)
    ensures Less(a, c)
  {
    if a != "" && a[0] == b[0] && b[0] == c[0] {
      LessTransitive(a[1..], b[1..], c[1..]);
    }
  }

  lemma {:induction false} LessTotal(a: string, b: string)
    ensures a == b || Less(a, b) || Less(b, a)
    ensures !Less(a, a)
  {
    if a != "" && b != "" && a[0] == b[0] {
      LessTotal(a[1..], b[1..]);
      assert a == [a[0]] + a[1..] && b == [b[0]] + b[1..];
    } else if a != "" {
      LessTotal(a[1..], a[1..]);
    }
  }

  predicate Ascending(xs: seq<string>) {
    forall i, j :: 0 <= i < j < |xs| ==> Less(xs[i], xs[j])
  }

  function Insert(x: string, xs: seq<string>): (r: seq<string>)
    requires Ascending(xs)
    ensures Ascending(r) && forall y :: y in r <==> y == x || y in xs
  {
    if xs == [] then [x]
    else if x == xs[0] then xs
    else
      LessTotal(x, xs[0]);
      if Less(x, xs[0]) then
        InFront(x, xs);
        [x] + xs
      else
        var rest := Insert(x, xs[1..]);
        assert forall y :: y in rest ==> Less(xs[0], y);
        InFront(xs[0], rest);
        [xs[0]] + rest
  }

  lemma InFront(x: string, xs: seq<string>)
    requires Ascending(xs) && (xs != [] ==> Less(x, xs[0]))
    ensures Ascending([x] + xs)
  {
    forall j | 0 <= j < |xs| ensures Less(x, xs[j]) {
      if j > 0 {
        LessTransitive(x, xs[0], xs[j]);
      }
    }
  }

  /** The distinct values in ascending order. */
  function SortedSet(xs: seq<string>): (r: seq<string>)
    ensures Ascending(r) && forall y :: y in r <==> y in xs
  {
    if xs == [] then [] else Insert(xs[0], SortedSet(xs[1..]))
  }

  // ----- the comparison -----

  /** Patterns are tried in order until one matches; an unsafe one reached before that ends it all. */
  ghost function SomeMatches(path: string, patterns: seq<string>): Option<bool> {
    if patterns == [] then Some(false)
    else
      var pattern := NormalizeChangedPath(patterns[0]);
      if pattern.None? then None
      else if Glob.Accepts("^" + Glob.Body(pattern.value) + "$", path) then Some(true)
      else SomeMatches(path, patterns[1..])
  }

  ghost function PathMatchesDenylist(path: string, patterns: seq<string>): Option<bool> {
    var normalized := NormalizeChangedPath(path);
    if normalized.None? then None else SomeMatches(normalized.value, patterns)
  }

  ghost function MatchedPaths(paths: seq<string>, patterns: seq<string>): Option<seq<string>> {
    if paths == [] then Some([])
    else
      var first, rest := PathMatchesDenylist(paths[0], patterns), MatchedPaths(paths[1..], patterns);
      if first.None? || rest.None? then None
      else Some((if first.value then [paths[0]] else []) + rest.value)
  }

  ghost function BuildRecord(changed: seq<string>, denylist: seq<string>): Option<Record> {
    var paths, patterns := NormalizeAll(changed), NormalizeAll(denylist);
    if paths.None? || patterns.None? then None
    else
      var changedPaths, denylistPatterns := SortedSet(paths.value), SortedSet(patterns.value);
      var matched := MatchedPaths(changedPaths, denylistPatterns);
      if matched.None? then None
      else Some(Record(changedPaths, denylistPatterns, matched.value, |matched.value| > 0))
  }

  // ----- what a record says -----

  /** What a name has become by the time it is compared: it is normalized twice on the way. */
  function Compared(name: string): Option<string> {
    var once := NormalizeChangedPath(name);
    if once.None? then None else NormalizeChangedPath(once.value)
  }

  predicate Hit(path: string, pattern: string) {
    Compared(path).Some? && Compared(pattern).Some? && Glob.Matches(Compared(pattern).value, Compared(path).value, false)
  }

  lemma {:induction false} SomeMatchesMeaning(path: string, patterns: seq<string>)
    ensures var r := SomeMatches(path, patterns);
            && (r == Some(true) ==> exists d :: d in patterns && PatternHits(path, d))
            && (r == Some(false) ==> forall d :: d in patterns ==> NormalizeChangedPath(d).Some? && !PatternHits(path, d))
            && (r == None ==> exists d :: d in patterns && NormalizeChangedPath(d).None?)
  {
    hide NormalizeChangedPath, PatternHits, SomeMatches;
    SomeMatchesStep(path, patterns);
    if patterns != [] {
      var head, tail := patterns[0], patterns[1..];
      SomeMatchesMeaning(path, tail);
      assert head in patterns && forall d :: d in tail ==> d in patterns;
      var r := SomeMatches(path, patterns);
      if r == Some(true) && !PatternHits(path, head) {
        var d :| d in tail && PatternHits(path, d);
        assert d in patterns;
      }
      if r == None && NormalizeChangedPath(head).Some? {
        var d :| d in tail && NormalizeChangedPath(d).None?;
        assert d in patterns;
      }
      if r == Some(false) {
        forall d | d in patterns ensures NormalizeChangedPath(d).Some? && !PatternHits(path, d) {
          assert d == head || d in tail;
        }
      }
    }
  }

  lemma SomeMatchesStep(path: string, patterns: seq<string>)
    ensures patterns == [] ==> SomeMatches(path, patterns) == Some(false)
    ensures patterns != [] ==>
              && (PatternHits(path, patterns[0]) ==> NormalizeChangedPath(patterns[0]).Some?)
              && SomeMatches(path, patterns) ==
                 if NormalizeChangedPath(patterns[0]).None? then None
                 else if PatternHits(path, patterns[0]) then Some(true)
                 else SomeMatches(path, patterns[1..])
  {
    hide NormalizeChangedPath, Glob.Accepts, Glob.Matches;
    if patterns != [] && NormalizeChangedPath(patterns[0]).Some? {
      Glob.CompiledMeaning(NormalizeChangedPath(patterns[0]).value, path);
    }
  }

  ghost predicate HitBefore(path: string, patterns: seq<string>, j: nat)
    requires j < |patterns|
  {
    exists i :: 0 <= i < j && PatternHits(path, patterns[i])
  }

  /** The comparison of a path comes to an end exactly if every unsafe pattern has a match in front of it. */
  lemma {:induction false} SomeMatchesEnds(path: string, patterns: seq<string>)
    ensures SomeMatches(path, patterns).Some? <==>
            forall j :: 0 <= j < |patterns| && NormalizeChangedPath(patterns[j]).None? ==> HitBefore(path, patterns, j)
  {
    hide NormalizeChangedPath, PatternHits, SomeMatches;
    SomeMatchesStep(path, patterns);
    if patterns != [] {
      var tail := patterns[1..];
      SomeMatchesEnds(path, tail);
      if NormalizeChangedPath(patterns[0]).None? {
        assert !HitBefore(path, patterns, 0);
      } else if PatternHits(path, patterns[0]) {
        assert forall j :: 0 < j < |patterns| ==> HitBefore(path, patterns, j);
      } else {
        forall j | 0 <= j < |tail| ensures HitBefore(path, tail, j) <==> HitBefore(path, patterns, j + 1) {
          HitBeforeShifts(path, patterns, j);
        }
        assert forall j :: 0 <= j < |tail| ==> tail[j] == patterns[j + 1];
        assert forall j :: 0 < j < |patterns| ==> patterns[j] == tail[j - 1] && (HitBefore(path, tail, j - 1) <==> HitBefore(path, patterns, j));
      }
    }
  }

  lemma HitBeforeShifts(path: string, patterns: seq<string>, j: nat)
    requires j + 1 < |patterns| && !PatternHits(path, patterns[0])
    ensures HitBefore(path, patterns[1..], j) <==> HitBefore(path, patterns, j + 1)
  {
    hide PatternHits;
    var tail := patterns[1..];
    if HitBefore(path, tail, j) {
      var i :| 0 <= i < j && PatternHits(path, tail[i]);
      assert patterns[i + 1] == tail[i];
    }
    if HitBefore(path, patterns, j + 1) {
      var i :| 0 <= i < j + 1 && PatternHits(path, patterns[i]);
      assert tail[i - 1] == patterns[i];
    }
  }

  predicate PatternHits(path: string, pattern: string) {
    var normalized := NormalizeChangedPath(pattern);
    normalized.Some? && Glob.Matches(normalized.value, path, false)
  }

  lemma {:induction false} MatchedPathsMeaning(paths: seq<string>, patterns: seq<string>)
    ensures var r := MatchedPaths(paths, patterns);
            && (r.Some? ==>
                  && (forall p :: p in paths ==> PathMatchesDenylist(p, patterns).Some?)
                  && (forall p :: p in r.value <==> p in paths && PathMatchesDenylist(p, patterns) == Some(true)))
            && (r.None? ==> exists p :: p in paths && PathMatchesDenylist(p, patterns).None?)
  {
    hide PathMatchesDenylist;
    if paths != [] {
      MatchedPathsMeaning(paths[1..], patterns);
      assert paths == [paths[0]] + paths[1..];
    }
  }

  /** Some pattern hits a changed path that is normalized to `p`. */
  ghost predicate SomeHit(changed: seq<string>, denylist: seq<string>, p: string) {
    exists c, d :: c in changed && d in denylist && NormalizeChangedPath(c) == Some(p) && Hit(c, d)
  }

  /** The matched paths of a record are those changed paths, and only those, that some pattern hits. */
  lemma RecordMeaning(changed: seq<string>, denylist: seq<string>)
    requires BuildRecord(changed, denylist).Some?
    ensures var r := BuildRecord(changed, denylist).value;
            && (r.intersection <==> exists c, d :: c in changed && d in denylist && Hit(c, d))
            && (forall p :: p in r.matchedPaths <==> SomeHit(changed, denylist, p))
  {
    var r := BuildRecord(changed, denylist).value;
    RecordMatched(changed, denylist, r);
    hide BuildRecord, SomeHit, NormalizeChangedPath, Hit;
    if c, d :| c in changed && d in denylist && Hit(c, d) {
      HitIsSomeHit(changed, denylist, c, d);
    }
    if r.intersection {
      assert r.matchedPaths[0] in r.matchedPaths;
    }
  }

  lemma RecordMatched(changed: seq<string>, denylist: seq<string>, r: Record)
    requires BuildRecord(changed, denylist) == Some(r)
    ensures forall p :: p in r.matchedPaths <==> SomeHit(changed, denylist, p)
    ensures r.intersection <==> r.matchedPaths != []
  {
    forall p ensures p in r.matchedPaths <==> SomeHit(changed, denylist, p) {
      RecordMatchedAt(changed, denylist, r, p);
    }
  }

  lemma RecordMatchedAt(changed: seq<string>, denylist: seq<string>, r: Record, p: string)
    requires BuildRecord(changed, denylist) == Some(r)
    ensures p in r.matchedPaths <==> SomeHit(changed, denylist, p)
  {
    RecordParts(changed, denylist, r);
    hide *;
    MatchedOne(changed, denylist, NormalizeAll(changed).value, NormalizeAll(denylist).value, r.denylistPatterns, p);
    MatchedOrNot(PathMatchesDenylist(p, r.denylistPatterns));
  }

  lemma MatchedOrNot(o: Option<bool>)
    ensures o == None || o == Some(true) || o == Some(false)
  {
    if o.Some? {
      if o.value {
        assert o == Some(true);
      } else {
        assert o == Some(false);
      }
    }
  }

  lemma HitIsSomeHit(changed: seq<string>, denylist: seq<string>, c: string, d: string)
    requires c in changed && d in denylist && Hit(c, d)
    ensures SomeHit(changed, denylist, NormalizeChangedPath(c).value)
  {
    hide NormalizeChangedPath, Glob.Matches;
  }

  lemma RecordParts(changed: seq<string>, denylist: seq<string>, r: Record)
    requires BuildRecord(changed, denylist) == Some(r)
    ensures NormalizeAll(changed).Some? && NormalizeAll(denylist).Some?
    ensures forall p :: p in r.changedPaths <==> p in NormalizeAll(changed).value
    ensures forall d :: d in r.denylistPatterns <==> d in NormalizeAll(denylist).value
    ensures forall p :: p in r.changedPaths ==> PathMatchesDenylist(p, r.denylistPatterns).Some?
    ensures forall p :: p in r.matchedPaths <==> p in r.changedPaths && PathMatchesDenylist(p, r.denylistPatterns) == Some(true)
    ensures r.intersection <==> r.matchedPaths != []
  {
    MatchedPathsMeaning(r.changedPaths, r.denylistPatterns);
    hide NormalizeChangedPath, PathMatchesDenylist;
  }

  lemma MatchedOne(changed: seq<string>, denylist: seq<string>, paths: seq<string>, patterns: seq<string>, sorted: seq<string>, p: string)
    requires NormalizeAll(changed) == Some(paths) && NormalizeAll(denylist) == Some(patterns)
    requires forall y :: y in sorted <==> y in patterns
    ensures p in paths && PathMatchesDenylist(p, sorted) == Some(true) ==> SomeHit(changed, denylist, p)
    ensures SomeHit(changed, denylist, p) ==> p in paths && PathMatchesDenylist(p, sorted) != Some(false)
  {
    hide NormalizeChangedPath, Glob.Matches, SomeMatches;
    var q := NormalizeChangedPath(p);
    if q.Some? {
      SomeMatchesMeaning(q.value, sorted);
    }
    if p in paths && PathMatchesDenylist(p, sorted) == Some(true) {
      var i :| 0 <= i < |paths| && paths[i] == p;
      var g :| g in sorted && PatternHits(q.value, g);
      var j :| 0 <= j < |patterns| && patterns[j] == g;
      assert changed[i] in changed && denylist[j] in denylist && Hit(changed[i], denylist[j]);
    }
    if c, d :| c in changed && d in denylist && NormalizeChangedPath(c) == Some(p) && Hit(c, d) {
      var i :| 0 <= i < |changed| && changed[i] == c;
      var j :| 0 <= j < |denylist| && denylist[j] == d;
      assert paths[i] == p && patterns[j] in patterns && PatternHits(q.value, patterns[j]);
    }
  }

  /** `no_intersection` means that no changed path matches any pattern, read as the globs are meant on one line. */
  lemma NoIntersection(changed: seq<string>, denylist: seq<string>)
    requires BuildRecord(changed, denylist).Some? && !BuildRecord(changed, denylist).value.intersection
    ensures forall c, d :: c in changed && d in denylist ==>
                             && Compared(c).Some? && Compared(d).Some?
                             && !Glob.Matches(Compared(d).value, Compared(c).value, false)
                             && (Glob.OneLine(Compared(c).value) ==> !Glob.Matches(Compared(d).value, Compared(c).value, true))
  {
    hide NormalizeChangedPath, Glob.Matches, BuildRecord;
    RecordMeaning(changed, denylist);
    forall c, d | c in changed && d in denylist
      ensures Compared(c).Some? && Compared(d).Some?
      ensures !Glob.Matches(Compared(d).value, Compared(c).value, false)
      ensures Glob.OneLine(Compared(c).value) ==> !Glob.Matches(Compared(d).value, Compared(c).value, true)
    {
      NoIntersectionCompares(changed, denylist, c, d);
      assert !Hit(c, d);
      if Glob.OneLine(Compared(c).value) {
        Glob.OneLineAgrees(Compared(d).value, Compared(c).value);
      }
    }
  }

  lemma NoIntersectionCompares(changed: seq<string>, denylist: seq<string>, c: string, d: string)
    requires BuildRecord(changed, denylist).Some? && !BuildRecord(changed, denylist).value.intersection
    requires c in changed && d in denylist
    ensures Compared(c).Some? && Compared(d).Some?
  {
    hide NormalizeChangedPath, SomeMatches;
    var r := BuildRecord(changed, denylist).value;
    RecordParts(changed, denylist, r);
    hide BuildRecord;
    var i :| 0 <= i < |changed| && changed[i] == c;
    var j :| 0 <= j < |denylist| && denylist[j] == d;
    var p, g := NormalizeAll(changed).value[i], NormalizeAll(denylist).value[j];
    assert p in r.changedPaths && g in r.denylistPatterns;
    assert p !in r.matchedPaths && PathMatchesDenylist(p, r.denylistPatterns).Some?;
    assert !PathMatchesDenylist(p, r.denylistPatterns).value;
    SomeMatchesMeaning(NormalizeChangedPath(p).value, r.denylistPatterns);
  }

  /** In the order of the normalized patterns, one that matches the path comes before `d`. */
  ghost predicate HitFirst(c: string, d: string, denylist: seq<string>) {
    exists h :: h in denylist && ComesBefore(h, d) && Hit(c, h)
  }

  predicate ComesBefore(h: string, d: string) {
    var a, b := NormalizeChangedPath(h), NormalizeChangedPath(d);
    a.Some? && b.Some? && Less(a.value, b.value)
  }

  /**
   A record is built exactly if every name passes the first normalization, every changed path the second one
   too, and every pattern that does not comes after one that matches, whatever the changed path.
   */
  lemma BuiltExactly(changed: seq<string>, denylist: seq<string>)
    ensures BuildRecord(changed, denylist).Some? <==>
            && (forall v :: v in changed || v in denylist ==> NormalizeChangedPath(v).Some?)
            && (forall c :: c in changed ==> Compared(c).Some?)
            && (forall c, d :: c in changed && d in denylist && Compared(d).None? ==> HitFirst(c, d, denylist))
  {
    hide NormalizeChangedPath, SomeMatches, Hit, Less;
    AllNormalized(changed);
    AllNormalized(denylist);
    if NormalizeAll(changed).Some? && NormalizeAll(denylist).Some? {
      var paths, patterns := NormalizeAll(changed).value, NormalizeAll(denylist).value;
      MatchedPathsMeaning(SortedSet(paths), SortedSet(patterns));
      hide SortedSet, PathMatchesDenylist, HitFirst;
      forall c | c in changed
        ensures NormalizeChangedPath(c).Some? && NormalizeChangedPath(c).value in paths
        ensures PathMatchesDenylist(NormalizeChangedPath(c).value, SortedSet(patterns)).Some? <==>
                Compared(c).Some? && forall d :: d in denylist && Compared(d).None? ==> HitFirst(c, d, denylist)
      {
        PathEnds(changed, denylist, c);
      }
      forall p | p in paths ensures exists c :: c in changed && NormalizeChangedPath(c) == Some(p) {
        var i :| 0 <= i < |paths| && paths[i] == p;
        assert changed[i] in changed;
      }
    }
  }

  lemma AllNormalized(values: seq<string>)
    ensures NormalizeAll(values).Some? <==> forall v :: v in values ==> NormalizeChangedPath(v).Some?
  {
    hide NormalizeChangedPath;
    if NormalizeAll(values).Some? {
      forall v | v in values ensures NormalizeChangedPath(v).Some? {
        var i :| 0 <= i < |values| && values[i] == v;
      }
    }
  }

  /** What one changed path asks of the patterns. */
  lemma PathEnds(changed: seq<string>, denylist: seq<string>, c: string)
    requires NormalizeAll(changed).Some? && NormalizeAll(denylist).Some? && c in changed
    ensures NormalizeChangedPath(c).Some? && NormalizeChangedPath(c).value in NormalizeAll(changed).value
    ensures PathMatchesDenylist(NormalizeChangedPath(c).value, SortedSet(NormalizeAll(denylist).value)).Some? <==>
            Compared(c).Some? && forall d :: d in denylist && Compared(d).None? ==> HitFirst(c, d, denylist)
  {
    hide NormalizeChangedPath, SomeMatches, Less, SortedSet, Ascending;
    var i :| 0 <= i < |changed| && changed[i] == c;
    var sorted := SortedSet(NormalizeAll(denylist).value);
    if Compared(c).Some? {
      var q := Compared(c).value;
      SomeMatchesEnds(q, sorted);
      forall d | d in denylist
        ensures exists j :: 0 <= j < |sorted| && NormalizeChangedPath(d) == Some(sorted[j]) && (HitBefore(q, sorted, j) <==> HitFirst(c, d, denylist))
      {
        var j := PatternPlace(denylist, d);
        HitBeforeMeaning(denylist, c, d, j);
      }
      forall j | 0 <= j < |sorted| ensures Named(denylist, sorted[j]) {
        var d := PatternOf(denylist, j);
      }
      EndsForAll(q, c, denylist, sorted);
    }
  }

  /** Some name is normalized to the pattern. */
  ghost predicate Named(names: seq<string>, pattern: string) {
    exists d :: d in names && NormalizeChangedPath(d) == Some(pattern)
  }

  lemma EndsForAll(q: string, c: string, denylist: seq<string>, sorted: seq<string>)
    requires Ascending(sorted)
    requires forall d :: d in denylist ==>
      exists j :: 0 <= j < |sorted| && NormalizeChangedPath(d) == Some(sorted[j]) && (HitBefore(q, sorted, j) <==> HitFirst(c, d, denylist))
    requires forall j :: 0 <= j < |sorted| ==> Named(denylist, sorted[j])
    ensures (forall j :: 0 <= j < |sorted| && NormalizeChangedPath(sorted[j]).None? ==> HitBefore(q, sorted, j)) <==>
            (forall d :: d in denylist && Compared(d).None? ==> HitFirst(c, d, denylist))
  {
    hide NormalizeChangedPath, HitBefore, HitFirst, Less;
    forall d, j, k | d in denylist && 0 <= j < |sorted| && 0 <= k < |sorted|
                     && NormalizeChangedPath(d) == Some(sorted[j]) == Some(sorted[k])
      ensures j == k
    {
      LessTotal(sorted[j], sorted[k]);
    }
  }

  lemma PatternPlace(denylist: seq<string>, d: string) returns (j: nat)
    requires NormalizeAll(denylist).Some? && d in denylist
    ensures var sorted := SortedSet(NormalizeAll(denylist).value); j < |sorted| && NormalizeChangedPath(d) == Some(sorted[j])
  {
    hide NormalizeChangedPath, Ascending;
    var patterns := NormalizeAll(denylist).value;
    var i :| 0 <= i < |denylist| && denylist[i] == d;
    assert patterns[i] in SortedSet(patterns);
    j :| 0 <= j < |SortedSet(patterns)| && SortedSet(patterns)[j] == patterns[i];
  }

  lemma PatternOf(denylist: seq<string>, j: nat) returns (d: string)
    requires NormalizeAll(denylist).Some? && j < |SortedSet(NormalizeAll(denylist).value)|
    ensures d in denylist && NormalizeChangedPath(d) == Some(SortedSet(NormalizeAll(denylist).value)[j])
  {
    hide NormalizeChangedPath, Ascending;
    var patterns := NormalizeAll(denylist).value;
    assert SortedSet(patterns)[j] in patterns;
    var i :| 0 <= i < |patterns| && patterns[i] == SortedSet(patterns)[j];
    d := denylist[i];
  }

  lemma HitBeforeMeaning(denylist: seq<string>, c: string, d: string, j: nat)
    requires NormalizeAll(denylist).Some? && Compared(c).Some?
    requires var sorted := SortedSet(NormalizeAll(denylist).value); j < |sorted| && NormalizeChangedPath(d) == Some(sorted[j])
    ensures HitBefore(Compared(c).value, SortedSet(NormalizeAll(denylist).value), j) <==> HitFirst(c, d, denylist)
  {
    var sorted, q := SortedSet(NormalizeAll(denylist).value), Compared(c).value;
    assert Ascending(sorted);
    hide NormalizeChangedPath, SortedSet, NormalizeAll, Less, Glob.Matches;
    if HitBefore(q, sorted, j) {
      var i :| 0 <= i < j && PatternHits(q, sorted[i]);
      var h := PatternOf(denylist, i);
      assert ComesBefore(h, d) && Hit(c, h);
    }
    if HitFirst(c, d, denylist) {
      var h :| h in denylist && ComesBefore(h, d) && Hit(c, h);
      var i := PatternPlace(denylist, h);
      LessIsBefore(sorted, i, j);
      assert PatternHits(q, sorted[i]);
    }
  }

  lemma LessIsBefore(xs: seq<string>, i: nat, j: nat)
    requires Ascending(xs) && i < |xs| && j < |xs| && Less(xs[i], xs[j])
    ensures i < j
  {
    hide Less;
    LessTotal(xs[i], xs[i]);
    if j < i {
      LessTransitive(xs[i], xs[j], xs[i]);
    }
  }

  // ----- normalizing twice -----

  lemma {:induction false} TrimStartIsTail(s: string) returns (k: nat)
    ensures k <= |s| && TrimStart(s) == s[k..]
  {
    if s != [] && IsSpace(s[0]) {
      var n := TrimStartIsTail(s[1..]);
      k := n + 1;
      assert s[1..][n..] == s[k..];
    } else {
      k := 0;
      assert s[0..] == s;
    }
  }

  predicate EndsBare(s: string) {
    s == "" || !IsSpace(s[|s| - 1])
  }

  lemma {:induction false} TrimEndsBare(s: string)
    ensures EndsBare(TrimEnd(s))
  {
    if s != [] && IsSpace(s[|s| - 1]) {
      TrimEndsBare(s[..|s| - 1]);
    }
  }

  /** What ends in no space is only trimmed at its start. */
  lemma TrimIsTail(s: string) returns (k: nat)
    requires EndsBare(s)
    ensures k <= |s| && Trim(s) == s[k..]
  {
    k := TrimStartIsTail(s);
    assert EndsBare(s[k..]);
  }

  /** Trimming a normalized path leaves a tail of the path it was made from. */
  lemma TrimOnce(value: string) returns (at: nat)
    requires NormalizeChangedPath(value).Some?
    ensures var path := Slashes(Trim(value)); at <= |path| && Trim(NormalizeChangedPath(value).value) == path[at..]
  {
    var path := Slashes(Trim(value));
    TrimEndsBare(TrimStart(value));
    var k := TrimIsTail(StripDot(path));
    at := if "./" <= path then 2 + k else k;
    hide Trim, Slashes;
    if "./" <= path {
      assert path[2..][k..] == path[at..];
    }
  }

  lemma SlashesOnce(s: string)
    requires forall n :: 0 <= n < |s| ==> s[n] != '\\'
    ensures Slashes(s) == s
  {
  }

  /**
   The second pass refuses a name the first pass took exactly when what is left, trimmed, is empty, absolute or climbs
   out. Normalizing is not idempotent, and a name may pass once and fail the next time.
   */
  lemma SecondPass(value: string)
    requires NormalizeChangedPath(value).Some?
    ensures var once := NormalizeChangedPath(value).value;
            NormalizeChangedPath(once).None? <==>
            Trim(once) == "" || Trim(once)[0] == '/' || Trim(once) == ".." || "../" <= Trim(once)
  {
    var path := Slashes(Trim(value));
    var at := TrimOnce(value);
    var t := Trim(NormalizeChangedPath(value).value);
    assert !Unsafe(path);
    assert forall n :: 0 <= n < |t| ==> t[n] == path[at + n] && t[n] != '\\' && t[n] != '\0';
    SlashesOnce(t);
    hide Trim, Slashes;
    forall n | 0 < n < |t| ensures !DotDotAt(t, n) {
      DotDotMoves(path, t, at, n);
    }
    assert HasDotDot(t) <==> t != "" && DotDotAt(t, 0);
  }

  /** A `..` segment inside a tail of a path is a segment of the path. */
  lemma DotDotMoves(path: string, t: string, at: nat, n: nat)
    requires !Unsafe(path) && 0 < n < |t| && at <= |path| && t == path[at..]
    ensures !DotDotAt(t, n)
  {
    assert DotDotAt(t, n) ==> DotDotAt(path, at + n);
  }

  /** A name taken at first and refused when it is compared. */
  lemma TakenThenRefused()
    ensures NormalizeChangedPath(".//a") == Some("/a") && Compared(".//a") == None
    ensures BuildRecord([".//a"], []) == None
  {
    var v, w := ".//a", "/a";
    FirstPass();
    hide NormalizeChangedPath;
    var values: seq<string>, once: seq<string> := [v], [w];
    assert values[0] == v && values[1..] == [];
    assert NormalizeAll(values[1..]) == Some([]) && [w] + [] == once;
    assert NormalizeAll(values) == Some(once);
    assert once[0] == w && once[1..] == [];
    assert SortedSet(once) == once;
    assert MatchedPaths(once, []) == None;
  }

  lemma FirstPass()
    ensures NormalizeChangedPath(".//a") == Some("/a") && NormalizeChangedPath("/a") == None
  {
    var v, w := ".//a", "/a";
    assert TrimStart(v) == v && TrimEnd(v) == v && Slashes(v) == v;
    assert v[0] == '.' && v[1] == '/' && v[2] == '/' && v[3] == 'a';
    assert !HasDotDot(v) && NulFree(v);
    assert v[..2] == "./" && v[2..] == w;
    assert TrimStart(w) == w && TrimEnd(w) == w && Slashes(w) == w;
  }
}
