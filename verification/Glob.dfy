/**
 The denylist glob compiler: one pass over a glob prints the text of a regular expression. The printed text is
 read back by the ECMAScript pattern grammar, and what it then accepts is what a recursive reading of the glob says.
 */
module Glob {
  import opened Basics

  // ----- regular expressions -----

  datatype Class = Dot | NotSlash | Exactly(c: char)

  datatype Regex = Empty | One(kind: Class) | Cat(first: Regex, second: Regex) | Star(body: Regex) | Opt(body: Regex)

  /** What `.` does not match (section 22.2.2.7 of ECMA-262). */
  predicate LineTerminator(c: char) {
    c == '\n' || c == '\r' || c == '\U{2028}' || c == '\U{2029}'
  }

  predicate Has(kind: Class, c: char) {
    match kind
    case Dot => !LineTerminator(c)
    case NotSlash => c != '/'
    case Exactly(d) => c == d
  }

  /** The whole of `s` is matched. */
  ghost predicate In(r: Regex, s: string)
    decreases r, |s|
  {
    match r
    case Empty => s == ""
    case One(kind) => |s| == 1 && Has(kind, s[0])
    case Cat(a, b) => exists k :: 0 <= k <= |s| && In(a, s[..k]) && In(b, s[k..])
    case Star(a) => s == "" || exists k :: 0 < k <= |s| && In(a, s[..k]) && In(r, s[k..])
    case Opt(a) => s == "" || In(a, s)
  }

  // ----- reading a pattern -----

  const SYNTAX := "^$\\.*+?()[]{}|"

  datatype Read = Bad | Good(regex: Regex, rest: string)

  /** Terms up to the end, a closing parenthesis or the end anchor. */
  function ReadTerms(s: string): (r: Read)
    ensures r.Good? ==> |r.rest| <= |s|
    decreases |s|, 2
  {
    if s == "" || s[0] == ')' || s == "$" then Good(Empty, s)
    else
      var term := ReadTerm(s);
      if term.Bad? then Bad
      else
        var more := ReadTerms(term.rest);
        if more.Bad? then Bad else Good(Cat(term.regex, more.regex), more.rest)
  }

  /** One atom and its quantifier. */
  function ReadTerm(s: string): (r: Read)
    requires s != ""
    ensures r.Good? ==> |r.rest| < |s|
    decreases |s|, 1
  {
    var atom := ReadAtom(s);
    if atom.Bad? then Bad
    else if atom.rest != "" && atom.rest[0] == '*' then Good(Star(atom.regex), atom.rest[1..])
    else if atom.rest != "" && atom.rest[0] == '?' then Good(Opt(atom.regex), atom.rest[1..])
    else atom
  }

  /** A dot, an escaped syntax character, the class `[^/]`, a group, or a character for itself. */
  function ReadAtom(s: string): (r: Read)
    requires s != ""
    ensures r.Good? ==> |r.rest| < |s|
    decreases |s|, 0
  {
    if s[0] == '.' then Good(One(Dot), s[1..])
    else if s[0] == '\\' then
      if |s| > 1 && s[1] in SYNTAX then Good(One(Exactly(s[1])), s[2..]) else Bad
    else if "[^/]" <= s then Good(One(NotSlash), s[4..])
    else if "(?:" <= s then
      var group := ReadTerms(s[3..]);
      if group.Good? && group.rest != "" && group.rest[0] == ')' then Good(group.regex, group.rest[1..]) else Bad
    else if s[0] in SYNTAX then Bad
    else Good(One(Exactly(s[0])), s[1..])
  }

  /** A pattern anchored at both ends. */
  function ReadPattern(source: string): Option<Regex> {
    if source == "" || source[0] != '^' then None
    else
      var terms := ReadTerms(source[1..]);
      if terms.Good? && terms.rest == "$" then Some(terms.regex) else None
  }

  /** `new RegExp(source).test(path)`, where the source is a pattern that can be read. */
  ghost predicate Accepts(source: string, path: string) {
    ReadPattern(source).Some? && In(ReadPattern(source).value, path)
  }

  // ----- the compiler -----

  const ESCAPED := "|\\{}()[]^$+?."

  /** How many characters of the glob one piece of output stands for. */
  function Width(glob: string): nat
    requires glob != ""
    ensures 1 <= Width(glob) <= |glob|
  {
    if "**/" <= glob then 3 else if "**" <= glob then 2 else 1
  }

  function Piece(glob: string): string
    requires glob != ""
  {
    if "**/" <= glob then "(?:.*/)?"
    else if "**" <= glob then ".*"
    else if glob[0] == '*' then "[^/]*"
    else if glob[0] == '?' then "[^/]"
    else if glob[0] in ESCAPED then "\\" + [glob[0]]
    else [glob[0]]
  }

  function Body(glob: string): string
    decreases |glob|
  {
    if glob == "" then "" else Piece(glob) + Body(glob[Width(glob)..])
  }

  /** The one-pass loop of the script. */
  method GlobToRegExp(pattern: string) returns (out: string)
    ensures out == "^" + Body(pattern) + "$"
    ensures forall path :: Accepts(out, path) <==> Matches(pattern, path, false)
  {
    hide Body, Matches, Accepts;
    out := "^";
    var index := 0;
    assert pattern[0..] == pattern;
    while index < |pattern|
      invariant 0 <= index <= |pattern|
      invariant out + Body(pattern[index..]) == "^" + Body(pattern)
    {
      var c := pattern[index];
      var piece;
      ghost var at := index;
      if c == '*' && index + 1 < |pattern| && pattern[index + 1] == '*' {
        index := index + 1;
        if index + 1 < |pattern| && pattern[index + 1] == '/' {
          index := index + 1;
          piece := "(?:.*/)?";
        } else {
          piece := ".*";
        }
      } else if c == '*' {
        piece := "[^/]*";
      } else if c == '?' {
        piece := "[^/]";
      } else {
        piece := if c in ESCAPED then "\\" + [c] else [c];
      }
      index := index + 1;
      BodyAt(pattern, at);
      Regroup(out, piece, Body(pattern[index..]));
      out := out + piece;
    }
    BodyEnds(pattern, index, out);
    out := out + "$";
    forall path ensures Accepts(out, path) <==> Matches(pattern, path, false) {
      CompiledMeaning(pattern, path);
    }
  }

  lemma Regroup(a: string, b: string, c: string)
    ensures (a + b) + c == a + (b + c)
  {
  }

  lemma BodyEnds(pattern: string, index: int, out: string)
    requires index == |pattern| && out + Body(pattern[index..]) == "^" + Body(pattern)
    ensures out == "^" + Body(pattern)
  {
    assert pattern[index..] == "";
    assert Body("") == "" && out + "" == out;
  }

  /** What the glob prints at a place, told by the characters there. */
  lemma BodyAt(pattern: string, at: nat)
    requires at < |pattern|
    ensures var c := pattern[at];
            var stars := c == '*' && at + 1 < |pattern| && pattern[at + 1] == '*';
            var slash := stars && at + 2 < |pattern| && pattern[at + 2] == '/';
            var piece := if slash then "(?:.*/)?" else if stars then ".*" else if c == '*' then "[^/]*" else if c == '?' then "[^/]"
                         else if c in ESCAPED then "\\" + [c] else [c];
            Body(pattern[at..]) == piece + Body(pattern[at + (if slash then 3 else if stars then 2 else 1)..])
  {
    var glob := pattern[at..];
    assert glob[0] == pattern[at];
    assert at + 1 < |pattern| ==> glob[1] == pattern[at + 1];
    assert at + 2 < |pattern| ==> glob[2] == pattern[at + 2];
    assert glob[Width(glob)..] == pattern[at + Width(glob)..];
  }

  // ----- the printed text reads back -----

  function PieceRegex(glob: string): Regex
    requires glob != ""
  {
    if "**/" <= glob then Opt(Directories)
    else if "**" <= glob then Star(One(Dot))
    else if glob[0] == '*' then Star(One(NotSlash))
    else if glob[0] == '?' then One(NotSlash)
    else One(Exactly(glob[0]))
  }

  const Directories := Cat(Star(One(Dot)), Cat(One(Exactly('/')), Empty))

  function Meaning(glob: string): Regex
    decreases |glob|
  {
    if glob == "" then Empty else Cat(PieceRegex(glob), Meaning(glob[Width(glob)..]))
  }

  predicate NoQuantifier(s: string) {
    s == "" || (s[0] != '*' && s[0] != '?')
  }

  lemma BodyStart(glob: string)
    ensures NoQuantifier(Body(glob) + "$")
  {
    if glob != "" {
      var first := Piece(glob)[0];
      assert first != '*' && first != '?';
      assert (Body(glob) + "$")[0] == first;
    }
  }

  /** A piece is read as one term, whatever follows, and is not taken for the end. */
  lemma PieceReads(glob: string, rest: string)
    requires glob != "" && NoQuantifier(rest) && rest != ""
    ensures var s := Piece(glob) + rest;
            && s != "" && s[0] != ')' && s != "$"
            && ReadTerm(s) == Good(PieceRegex(glob), rest)
  {
    var s := Piece(glob) + rest;
    var p := Piece(glob);
    if "**/" <= glob {
      GroupReads(rest);
    } else if "**" <= glob {
      assert s[0] == '.' && s[1..] == "*" + rest && ("*" + rest)[1..] == rest;
    } else if glob[0] == '*' {
      assert s == "[^/]" + ("*" + rest) && s[4..] == "*" + rest && ("*" + rest)[1..] == rest;
    } else if glob[0] == '?' {
      assert s[4..] == rest;
    } else if glob[0] in ESCAPED {
      assert s[0] == '\\' && s[1] == glob[0] && s[2..] == rest;
    } else {
      assert s[0] == glob[0] && s[1..] == rest;
      assert glob[0] !in SYNTAX;
    }
  }

  lemma CloseReads(rest: string)
    ensures ReadTerms(")?" + rest) == Good(Empty, ")?" + rest)
  {
  }

  lemma SlashReads(rest: string)
    ensures ReadTerms("/)?" + rest) == Good(Cat(One(Exactly('/')), Empty), ")?" + rest)
  {
    var s := "/)?" + rest;
    CloseReads(rest);
    hide ReadTerms;
    assert s[0] == '/' && s[1] == ')' && s[1..] == ")?" + rest;
    assert ReadTerm(s) == Good(One(Exactly('/')), ")?" + rest);
    TermThen(s);
  }

  lemma DotsRead(rest: string)
    ensures ReadTerms(".*/)?" + rest) == Good(Directories, ")?" + rest)
  {
    var s := ".*/)?" + rest;
    SlashReads(rest);
    hide ReadTerms;
    assert s[0] == '.' && s[1..] == "*/)?" + rest && s[1..][1..] == "/)?" + rest;
    assert ReadTerm(s) == Good(Star(One(Dot)), "/)?" + rest);
    TermThen(s);
  }

  /** A term and what is read after it. */
  lemma TermThen(s: string)
    requires s != "" && s[0] != ')' && s != "$" && ReadTerm(s).Good? && ReadTerms(ReadTerm(s).rest).Good?
    ensures ReadTerms(s) == Good(Cat(ReadTerm(s).regex, ReadTerms(ReadTerm(s).rest).regex), ReadTerms(ReadTerm(s).rest).rest)
  {
  }

  lemma GroupReads(rest: string)
    ensures ReadTerm("(?:.*/)?" + rest) == Good(Opt(Directories), rest)
  {
    var s := "(?:.*/)?" + rest;
    DotsRead(rest);
    hide ReadTerms;
    assert s[3..] == ".*/)?" + rest && s[0] == '(' && s[1] == '?' && s[2] == ':';
    assert (")?" + rest)[1..] == "?" + rest && ("?" + rest)[1..] == rest;
    assert s[..3] == "(?:" && "(?:" <= s;
    assert ReadTerms(s[3..]) == Good(Directories, ")?" + rest);
    assert ReadAtom(s) == Good(Directories, "?" + rest);
  }

  /** The compiled text is a well-formed pattern, and literals stay literals in it. */
  lemma {:induction false} BodyReads(glob: string)
    ensures ReadTerms(Body(glob) + "$") == Good(Meaning(glob), "$")
    decreases |glob|
  {
    if glob == "" {
      assert Body(glob) + "$" == "$";
    } else {
      var tail := glob[Width(glob)..];
      BodyStart(tail);
      BodyReads(tail);
      var rest := Body(tail) + "$";
      assert Body(glob) + "$" == Piece(glob) + rest;
      PieceReads(glob, rest);
      TermThen(Piece(glob) + rest);
    }
  }

  lemma CompiledReads(glob: string)
    ensures ReadPattern("^" + Body(glob) + "$") == Some(Meaning(glob))
  {
    var source := "^" + Body(glob) + "$";
    assert source[1..] == Body(glob) + "$";
    BodyReads(glob);
  }

  // ----- what a glob means -----

  function FirstSlash(s: string): (i: nat)
    ensures i <= |s| && (forall k :: 0 <= k < i ==> s[k] != '/') && (i < |s| ==> s[i] == '/')
  {
    if s == "" || s[0] == '/' then 0 else 1 + FirstSlash(s[1..])
  }

  /** Whether a double star may step over a character: any character, or none that ends a line. */
  predicate Steps(c: char, lines: bool) {
    lines || !LineTerminator(c)
  }

  predicate StepsUpTo(s: string, n: nat, lines: bool)
    requires n <= |s|
  {
    forall i :: 0 <= i < n ==> Steps(s[i], lines)
  }

  /**
   The recursive reading: a double star before a slash stands for zero or more directories, another double star for
   anything, a star and a question mark stay within a segment, all else is literal. With `lines`, names may hold
   line terminators.
   */
  predicate Matches(glob: string, path: string, lines: bool)
    decreases |glob|, |path|
  {
    if glob == "" then path == ""
    else if "**/" <= glob then
      || Matches(glob[3..], path, lines)
      || (FirstSlash(path) < |path| && StepsUpTo(path, FirstSlash(path), lines)
          && Matches(glob, path[FirstSlash(path) + 1..], lines))
    else if "**" <= glob then
      Matches(glob[2..], path, lines) || (path != "" && Steps(path[0], lines) && Matches(glob, path[1..], lines))
    else if glob[0] == '*' then
      Matches(glob[1..], path, lines) || (path != "" && path[0] != '/' && Matches(glob, path[1..], lines))
    else if glob[0] == '?' then
      path != "" && path[0] != '/' && Matches(glob[1..], path[1..], lines)
    else
      path != "" && path[0] == glob[0] && Matches(glob[1..], path[1..], lines)
  }

  // ----- the two meanings agree -----

  lemma InOne(kind: Class, r: Regex, s: string)
    ensures In(Cat(One(kind), r), s) <==> s != "" && Has(kind, s[0]) && In(r, s[1..])
  {
    if s != "" && Has(kind, s[0]) && In(r, s[1..]) {
      assert In(One(kind), s[..1]);
    }
  }

  lemma InEmpty(r: Regex, s: string)
    ensures In(Cat(r, Empty), s) <==> In(r, s)
  {
    if In(r, s) {
      assert s[..|s|] == s && In(Empty, s[|s|..]);
    }
    if In(Cat(r, Empty), s) {
      var k :| 0 <= k <= |s| && In(r, s[..k]) && In(Empty, s[k..]);
      assert k == |s| && s[..k] == s;
    }
  }

  /** The first `k` characters are all in the class. */
  predicate Run(kind: Class, s: string, k: nat) {
    k <= |s| && forall i :: 0 <= i < k ==> Has(kind, s[i])
  }

  lemma {:induction false} InStar(kind: Class, s: string)
    ensures In(Star(One(kind)), s) <==> Run(kind, s, |s|)
    decreases |s|
  {
    if s != "" {
      InStar(kind, s[1..]);
      assert Run(kind, s, |s|) <==> Has(kind, s[0]) && Run(kind, s[1..], |s| - 1) by {
        assert forall i :: 1 <= i < |s| ==> s[i] == s[1..][i - 1];
      }
      if Run(kind, s, |s|) {
        assert In(One(kind), s[..1]);
      }
      if In(Star(One(kind)), s) {
        var k :| 0 < k <= |s| && In(One(kind), s[..k]) && In(Star(One(kind)), s[k..]);
        assert k == 1 && s[..1][0] == s[0];
      }
    }
  }

  lemma InStarPrefix(kind: Class, s: string, k: nat)
    requires k <= |s|
    ensures In(Star(One(kind)), s[..k]) <==> Run(kind, s, k)
  {
    InStar(kind, s[..k]);
    assert forall i :: 0 <= i < k ==> s[..k][i] == s[i];
  }

  ghost predicate RunThen(kind: Class, r: Regex, s: string, k: nat) {
    Run(kind, s, k) && In(r, s[k..])
  }

  lemma InStarCat(kind: Class, r: Regex, s: string)
    ensures In(Cat(Star(One(kind)), r), s) <==> exists k: nat :: RunThen(kind, r, s, k)
  {
    var star := Star(One(kind));
    if In(Cat(star, r), s) {
      var k :| 0 <= k <= |s| && In(star, s[..k]) && In(r, s[k..]);
      InStarPrefix(kind, s, k);
      assert RunThen(kind, r, s, k);
    }
    if k: nat :| RunThen(kind, r, s, k) {
      InStarPrefix(kind, s, k);
    }
  }

  lemma RunStep(kind: Class, r: Regex, s: string, k: nat)
    requires s != ""
    ensures RunThen(kind, r, s, k + 1) <==> Has(kind, s[0]) && RunThen(kind, r, s[1..], k)
  {
    hide In, Has;
    if k + 1 <= |s| {
      assert s[1..][k..] == s[k + 1..];
      assert forall i :: 1 <= i < |s| ==> s[i] == s[1..][i - 1];
      if Has(kind, s[0]) && Run(kind, s[1..], k) {
        forall i | 0 <= i < k + 1 ensures Has(kind, s[i]) {
          assert i > 0 ==> s[i] == s[1..][i - 1];
        }
      }
      if Run(kind, s, k + 1) {
        assert Has(kind, s[0]);
        forall i | 0 <= i < k ensures Has(kind, s[1..][i]) {
          assert s[1..][i] == s[i + 1];
        }
      }
    }
  }

  /** A starred class takes one more character or none. */
  lemma StarStep(kind: Class, r: Regex, s: string)
    ensures In(Cat(Star(One(kind)), r), s) <==>
            In(r, s) || (s != "" && Has(kind, s[0]) && In(Cat(Star(One(kind)), r), s[1..]))
  {
    InStarCat(kind, r, s);
    assert RunThen(kind, r, s, 0) <==> In(r, s) by {
      assert s[0..] == s;
    }
    hide In, RunThen;
    if s != "" {
      InStarCat(kind, r, s[1..]);
      if k: nat :| RunThen(kind, r, s, k) {
        if k > 0 {
          RunStep(kind, r, s, k - 1);
        }
      }
      if k: nat :| RunThen(kind, r, s[1..], k) {
        RunStep(kind, r, s, k);
      }
    } else {
      assert forall k: nat :: RunThen(kind, r, s, k) ==> k == 0 by {
        RunEnds(kind, r);
      }
    }
  }

  lemma RunEnds(kind: Class, r: Regex)
    ensures forall k: nat :: RunThen(kind, r, "", k) ==> k == 0
  {
  }

  /** Directories, each with its slash, fill the first `k` characters. */
  predicate DirectoriesBefore(s: string, k: nat) {
    0 < k <= |s| && s[k - 1] == '/' && Run(Dot, s, k - 1)
  }

  lemma InDirectories(s: string, k: nat)
    requires k <= |s|
    ensures In(Directories, s[..k]) <==> DirectoriesBefore(s, k)
  {
    var slash := Cat(One(Exactly('/')), Empty);
    var t := s[..k];
    assert forall i :: 0 <= i < k ==> t[i] == s[i];
    InStarCat(Dot, slash, t);
    if n: nat :| RunThen(Dot, slash, t, n) {
      InEmpty(One(Exactly('/')), t[n..]);
      assert n == k - 1 && t[n..][0] == t[n];
    }
    if DirectoriesBefore(s, k) {
      InEmpty(One(Exactly('/')), t[k - 1..]);
      assert t[k - 1..][0] == s[k - 1];
      assert RunThen(Dot, slash, t, k - 1);
    }
  }

  ghost predicate DirectoriesThen(r: Regex, s: string, k: nat) {
    DirectoriesBefore(s, k) && In(r, s[k..])
  }

  lemma InOptDirectories(r: Regex, s: string)
    ensures In(Cat(Opt(Directories), r), s) <==> In(r, s) || exists k: nat :: DirectoriesThen(r, s, k)
  {
    if In(Cat(Opt(Directories), r), s) {
      var k :| 0 <= k <= |s| && In(Opt(Directories), s[..k]) && In(r, s[k..]);
      if k == 0 {
        assert s[0..] == s;
      } else {
        InDirectories(s, k);
        assert DirectoriesThen(r, s, k);
      }
    }
    if In(r, s) {
      assert s[0..] == s && In(Opt(Directories), s[..0]);
    }
    if k: nat :| DirectoriesThen(r, s, k) {
      InDirectories(s, k);
      assert In(Opt(Directories), s[..k]);
    }
  }

  /** Past the first directory the rest is looked at the same way. */
  lemma DirectoriesStep(r: Regex, s: string, k: nat)
    requires FirstSlash(s) < |s|
    ensures var i := FirstSlash(s);
            && (DirectoriesThen(r, s, i + 1 + k) <==>
                StepsUpTo(s, i, false) && (if k == 0 then In(r, s[i + 1..]) else DirectoriesThen(r, s[i + 1..], k)))
            && (forall n: nat :: DirectoriesThen(r, s, n) ==> n > i)
  {
    hide In, LineTerminator;
    var i := FirstSlash(s);
    var t := s[i + 1..];
    assert forall j :: 0 <= j < |t| ==> t[j] == s[i + 1 + j];
    if i + 1 + k <= |s| {
      assert t[k..] == s[i + 1 + k..];
      if StepsUpTo(s, i, false) && k > 0 && Run(Dot, t, k - 1) {
        forall j | 0 <= j < i + k ensures Has(Dot, s[j]) {
          assert j < i ==> Steps(s[j], false);
          assert j > i ==> s[j] == t[j - i - 1];
          assert j == i ==> s[j] == '/';
          SlashIsDot();
        }
      }
      if Run(Dot, s, i + k) {
        forall j | 0 <= j < i ensures Steps(s[j], false) {
          assert Has(Dot, s[j]);
        }
        forall j | 0 <= j < k - 1 ensures Has(Dot, t[j]) {
          assert Has(Dot, s[i + 1 + j]);
        }
      }
      if k == 0 && StepsUpTo(s, i, false) {
        forall j | 0 <= j < i ensures Has(Dot, s[j]) {
          assert Steps(s[j], false);
        }
      }
    }
  }

  lemma SlashIsDot()
    ensures Has(Dot, '/')
  {
  }

  /** The directory prefix takes one more directory or none. */
  lemma DirectoryStep(r: Regex, s: string)
    ensures var i := FirstSlash(s);
            In(Cat(Opt(Directories), r), s) <==>
            In(r, s) || (i < |s| && StepsUpTo(s, i, false) && In(Cat(Opt(Directories), r), s[i + 1..]))
  {
    hide In, DirectoriesThen, StepsUpTo;
    var i := FirstSlash(s);
    InOptDirectories(r, s);
    if i < |s| {
      var t := s[i + 1..];
      InOptDirectories(r, t);
      DirectoriesStep(r, s, 0);
      if k: nat :| DirectoriesThen(r, s, k) {
        assert k > i;
        DirectoriesStep(r, s, k - i - 1);
      }
      if k: nat :| DirectoriesThen(r, t, k) {
        assert k > 0 by {
          DirectoriesFill(r, t, k);
        }
        DirectoriesStep(r, s, k);
      }
    } else {
      forall k: nat ensures !DirectoriesThen(r, s, k) {
        NoDirectories(r, s, k);
      }
    }
  }

  lemma DirectoriesFill(r: Regex, s: string, k: nat)
    requires DirectoriesThen(r, s, k)
    ensures k > 0
  {
  }

  lemma NoDirectories(r: Regex, s: string, k: nat)
    requires FirstSlash(s) == |s|
    ensures !DirectoriesThen(r, s, k)
  {
  }

  /** The compiled expression accepts what the recursive reading without line terminators matches. */
  lemma {:induction false} GlobMeaning(glob: string, path: string)
    ensures In(Meaning(glob), path) <==> Matches(glob, path, false)
    decreases |glob|, |path|
  {
    hide In;
    if glob == "" {
      EmptyMeaning(path);
    } else {
      var rest := Meaning(glob[Width(glob)..]);
      if "**/" <= glob {
        DirectoryStep(rest, path);
        GlobMeaning(glob[3..], path);
        var i := FirstSlash(path);
        if i < |path| {
          GlobMeaning(glob, path[i + 1..]);
        }
      } else if "**" <= glob {
        StarStep(Dot, rest, path);
        GlobMeaning(glob[2..], path);
        if path != "" {
          GlobMeaning(glob, path[1..]);
        }
      } else if glob[0] == '*' {
        StarStep(NotSlash, rest, path);
        GlobMeaning(glob[1..], path);
        if path != "" {
          GlobMeaning(glob, path[1..]);
        }
      } else {
        InOne(if glob[0] == '?' then NotSlash else Exactly(glob[0]), rest, path);
        if path != "" {
          GlobMeaning(glob[1..], path[1..]);
        }
      }
    }
  }

  lemma EmptyMeaning(path: string)
    ensures In(Meaning(""), path) <==> path == ""
  {
  }

  lemma CompiledMeaning(glob: string, path: string)
    ensures Accepts("^" + Body(glob) + "$", path) <==> Matches(glob, path, false)
  {
    CompiledReads(glob);
    GlobMeaning(glob, path);
  }

  predicate OneLine(s: string) {
    forall i :: 0 <= i < |s| ==> !LineTerminator(s[i])
  }

  /** On a path of one line the two readings are the same. */
  lemma {:induction false} OneLineAgrees(glob: string, path: string)
    requires OneLine(path)
    ensures Matches(glob, path, false) <==> Matches(glob, path, true)
    decreases |glob|, |path|
  {
    if glob == "" {
    } else if "**/" <= glob {
      OneLineAgrees(glob[3..], path);
      var i := FirstSlash(path);
      if i < |path| {
        OneLineAgrees(glob, path[i + 1..]);
      }
    } else if "**" <= glob {
      OneLineAgrees(glob[2..], path);
      if path != "" {
        OneLineAgrees(glob, path[1..]);
      }
    } else if glob[0] == '*' {
      OneLineAgrees(glob[1..], path);
      if path != "" {
        OneLineAgrees(glob, path[1..]);
      }
    } else if path != "" {
      OneLineAgrees(glob[1..], path[1..]);
    }
  }

  /** Compiling keeps the meaning of a glob on every path of one line. */
  lemma CompilerKeepsMeaning(glob: string, path: string)
    requires OneLine(path)
    ensures Accepts("^" + Body(glob) + "$", path) <==> Matches(glob, path, true)
  {
    CompiledMeaning(glob, path);
    OneLineAgrees(glob, path);
  }

  /** With fewer steps allowed nothing more is matched: a compiled glob never accepts too much. */
  lemma {:induction false} NeverTooMuch(glob: string, path: string)
    requires Matches(glob, path, false)
    ensures Matches(glob, path, true)
    decreases |glob|, |path|
  {
    if glob == "" {
    } else if "**/" <= glob {
      if Matches(glob[3..], path, false) {
        NeverTooMuch(glob[3..], path);
      } else {
        NeverTooMuch(glob, path[FirstSlash(path) + 1..]);
      }
    } else if "**" <= glob {
      if Matches(glob[2..], path, false) {
        NeverTooMuch(glob[2..], path);
      } else {
        NeverTooMuch(glob, path[1..]);
      }
    } else if glob[0] == '*' {
      if Matches(glob[1..], path, false) {
        NeverTooMuch(glob[1..], path);
      } else {
        NeverTooMuch(glob, path[1..]);
      }
    } else {
      NeverTooMuch(glob[1..], path[1..]);
    }
  }

  /** Beyond one line a double star stops short: it stands for anything, but is accepted only on paths of one line. */
  lemma {:induction false} DoubleStarIsOneLine(path: string)
    ensures Matches("**", path, true)
    ensures Accepts("^" + Body("**") + "$", path) <==> OneLine(path)
    decreases |path|
  {
    CompiledMeaning("**", path);
    assert "**"[2..] == "";
    if path != "" {
      DoubleStarIsOneLine(path[1..]);
      CompiledMeaning("**", path[1..]);
      assert OneLine(path) <==> !LineTerminator(path[0]) && OneLine(path[1..]) by {
        assert forall i :: 1 <= i < |path| ==> path[i] == path[1..][i - 1];
      }
    }
  }
}
