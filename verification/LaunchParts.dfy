/**
 The parts of a launch command, each by what it is and not by how it is read or computed: the executable's path, the
 session id, the port of a name and its decimal digits; and when a list of rules ends in a deny.
 */
module LaunchParts {
  import opened Basics
  import opened LaunchAdmission
  import D = DenyOverlay

  // ----- the executable -----

  /** Letters, digits, and four more. */
  predicate Plainly(c: char) {
    || '`' < c < '{' || '@' < c < '[' || '/' < c < ':' || c in {'.', '_', '+', '-'}
  }

  /** Every name with a slash behind it. */
  function Directories(names: seq<string>): string {
    if names == [] then "" else names[0] + "/" + Directories(names[1..])
  }

  ghost predicate PlainNames(names: seq<string>) {
    forall i :: 0 <= i < |names| ==> names[i] != "" && forall c :: c in names[i] ==> Plainly(c)
  }

  lemma SegmentExactly(c: char)
    ensures SegmentChar(c) <==> Plainly(c)
  {
  }

  lemma {:induction false} SlashAfter(name: string, rest: string)
    requires '/' !in name
    ensures FirstSlash(name + "/" + rest) == |name|
  {
    var s := name + "/" + rest;
    if name != "" {
      assert s[1..] == name[1..] + "/" + rest;
      SlashAfter(name[1..], rest);
    }
  }

  lemma {:induction false} SlashFound(s: string)
    ensures FirstSlash(s) < |s| ==> s[FirstSlash(s)] == '/'
    ensures '/' !in s[..FirstSlash(s)]
  {
    if s != "" && s[0] != '/' {
      SlashFound(s[1..]);
      assert s[..FirstSlash(s)] == [s[0]] + s[1..][..FirstSlash(s[1..])];
    }
  }

  lemma {:induction false} NamesAreRead(names: seq<string>)
    requires PlainNames(names)
    ensures Segments(Directories(names) + "opencode")
    decreases |names|
  {
    var s := Directories(names) + "opencode";
    if names == [] {
      assert s == "opencode";
      NoSlash("opencode");
    } else {
      var name, rest := names[0], Directories(names[1..]) + "opencode";
      assert s == name + "/" + rest;
      forall i | 0 <= i < |name| ensures SegmentChar(s[i]) {
        assert s[i] == name[i] && name[i] in name;
        SegmentExactly(name[i]);
      }
      assert '/' !in name;
      SlashAfter(name, rest);
      assert s[|name| + 1..] == rest;
      NamesAreRead(names[1..]);
    }
  }

  lemma {:induction false} NoSlash(s: string)
    requires '/' !in s
    ensures FirstSlash(s) == |s|
  {
    if s != "" {
      NoSlash(s[1..]);
    }
  }

  lemma SegmentsStep(s: string)
    requires Segments(s)
    ensures var n := FirstSlash(s);
            if n == |s| then s == "opencode"
            else n > 0 && (forall i :: 0 <= i < n ==> SegmentChar(s[i])) && Segments(s[n + 1..])
  {
    hide FirstSlash, SegmentChar;
  }

  lemma SegmentRead(s: string)
    requires Segments(s) && FirstSlash(s) < |s|
    ensures var n := FirstSlash(s); s == s[..n] + "/" + s[n + 1..] && PlainNames([s[..n]]) && Segments(s[n + 1..])
  {
    hide FirstSlash, SegmentChar, Plainly, Segments;
    SegmentsStep(s);
    SlashFound(s);
    var n := FirstSlash(s);
    forall c | c in s[..n] ensures Plainly(c) {
      var i :| 0 <= i < n && s[..n][i] == c;
      SegmentExactly(s[i]);
    }
  }

  lemma OnlyName(s: string)
    requires Segments(s) && FirstSlash(s) >= |s|
    ensures PlainNames([]) && s == Directories([]) + "opencode"
  {
    hide FirstSlash, Segments;
    SegmentsStep(s);
    assert "" + "opencode" == "opencode";
  }

  lemma OneMoreName(name: string, names: seq<string>)
    requires PlainNames([name]) && PlainNames(names)
    ensures PlainNames([name] + names) && Directories([name] + names) + "opencode" == name + "/" + (Directories(names) + "opencode")
  {
    hide Plainly;
    assert [name][0] == name && ([name] + names)[1..] == names;
    Associates(name + "/", Directories(names), "opencode");
  }

  lemma Associates(a: string, b: string, c: string)
    ensures a + b + c == a + (b + c)
  {
  }

  lemma {:induction false} ReadAreNames(s: string) returns (names: seq<string>)
    requires Segments(s)
    ensures PlainNames(names) && s == Directories(names) + "opencode"
    decreases |s|
  {
    hide *;
    if FirstSlash(s) >= |s| {
      names := [];
      OnlyName(s);
    } else {
      var n := FirstSlash(s);
      SegmentRead(s);
      var rest := ReadAreNames(s[n + 1..]);
      names := [s[..n]] + rest;
      OneMoreName(s[..n], rest);
    }
  }

  /** An executable is an absolute path to a file `opencode`, through directories of plain names. */
  lemma ExecutableExactly(s: string)
    ensures ValidExecutable(s) <==> exists names :: PlainNames(names) && s == "/" + Directories(names) + "opencode"
  {
    hide Segments, Directories, PlainNames;
    if ValidExecutable(s) {
      var names := ReadAreNames(s[1..]);
      assert s == "/" + s[1..] && "/" + Directories(names) + "opencode" == "/" + (Directories(names) + "opencode");
    }
    if names :| PlainNames(names) && s == "/" + Directories(names) + "opencode" {
      NamesAreRead(names);
      assert s[1..] == Directories(names) + "opencode";
    }
  }

  // ----- the session -----

  /** A session id is `ses_` and 6 to 128 letters, digits, underscores or hyphens. */
  lemma SessionExactly(s: string)
    ensures ValidSession(s) <==>
            exists t :: s == "ses_" + t && 5 < |t| < 129 && forall c :: c in t ==> Plainly(c) && c != '.' && c != '+'
  {
    if ValidSession(s) {
      var t := s[4..];
      assert s == s[..4] + t;
      forall c | c in t ensures Plainly(c) && c != '.' && c != '+' {
        var i :| 0 <= i < |t| && t[i] == c;
        assert s[i + 4] == c;
      }
    }
    if t :| s == "ses_" + t && 5 < |t| < 129 && forall c :: c in t ==> Plainly(c) && c != '.' && c != '+' {
      forall i | 4 <= i < |s| ensures s[i] in t {
        assert s[i] == t[i - 4];
      }
      assert s[..4] == "ses_";
    }
  }

  // ----- the port -----

  function Power(n: nat): nat {
    if n == 0 then 1 else 31 * Power(n - 1)
  }

  /** The codes of the characters as the digits of a number to base 31, the first one the highest. */
  function Weighted(name: string): nat {
    if name == "" then 0 else name[0] as int * Power(|name| - 1) + Weighted(name[1..])
  }

  lemma {:induction false} WeightedLast(name: string, c: char)
    ensures Weighted(name + [c]) == Weighted(name) * 31 + c as int
  {
    var s := name + [c];
    if name == "" {
      assert s[1..] == "" && Power(0) == 1;
    } else {
      assert s[1..] == name[1..] + [c];
      WeightedLast(name[1..], c);
      Distribute(name[0] as int, Power(|name| - 1), Weighted(name[1..]));
    }
  }

  lemma Distribute(a: int, p: int, w: int)
    ensures a * (31 * p) + w * 31 == (a * p + w) * 31
  {
  }

  lemma WrapOnce(h: nat, w: nat, c: nat)
    requires h == w % 0x1_0000_0000
    ensures (h * 31 + c) % 0x1_0000_0000 == (w * 31 + c) % 0x1_0000_0000
  {
    var q := w / 0x1_0000_0000;
    assert w * 31 + c == (h * 31 + c) + 0x1_0000_0000 * (q * 31);
    Skip(h * 31 + c, q * 31);
  }

  lemma {:induction false} Skip(a: nat, k: nat)
    ensures (a + 0x1_0000_0000 * k) % 0x1_0000_0000 == a % 0x1_0000_0000
    decreases k
  {
    if k > 0 {
      Skip(a, k - 1);
      assert a + 0x1_0000_0000 * k == (a + 0x1_0000_0000 * (k - 1)) + 0x1_0000_0000;
    }
  }

  /** The control port of a name: 10000 and up, by that number kept to 32 bits. */
  lemma {:induction false} PortExactly(name: string)
    ensures Hash(name) == Weighted(name) % 0x1_0000_0000
    ensures Port(name) == 10_000 + Weighted(name) % 0x1_0000_0000 % 50_000
  {
    if name != "" {
      var n := |name| - 1;
      PortExactly(name[..n]);
      assert name == name[..n] + [name[n]];
      WeightedLast(name[..n], name[n]);
      WrapOnce(Hash(name[..n]), Weighted(name[..n]), name[n] as int);
    }
  }

  // ----- the digits -----

  function Value(digits: string): int {
    if digits == "" then 0 else Value(digits[..|digits| - 1]) * 10 + (digits[|digits| - 1] as int - 48)
  }

  /** Written out, a number is its decimal digits without a leading zero: read as decimal they give it back. */
  lemma {:induction false} DigitsExactly(n: nat)
    ensures Value(Digits(n)) == n && (n > 0 ==> Digits(n)[0] != '0') && (n == 0 ==> Digits(n) == "0")
    decreases n
  {
    var s := Digits(n);
    if n < 10 {
      assert s[..|s| - 1] == "" && Value("") == 0;
    } else {
      DigitsExactly(n / 10);
      assert s[..|s| - 1] == Digits(n / 10);
    }
  }

  // ----- the denied patterns and the check -----

  /** Every pattern stands there twice: alone, and before anything after a space. */
  lemma {:induction false} ArgumentsExactly(patterns: seq<string>)
    ensures var r := D.WithArguments(patterns);
            |r| == 2 * |patterns| && forall i :: 0 <= i < |patterns| ==> r[2 * i] == patterns[i] && r[2 * i + 1] == patterns[i] + " *"
  {
    if patterns != [] {
      var r, rest := D.WithArguments(patterns), D.WithArguments(patterns[1..]);
      ArgumentsExactly(patterns[1..]);
      forall i | 0 <= i < |patterns| ensures r[2 * i] == patterns[i] && r[2 * i + 1] == patterns[i] + " *" {
        if i > 0 {
          assert r[2 * i] == rest[2 * (i - 1)] && r[2 * i + 1] == rest[2 * (i - 1) + 1];
        }
      }
    }
  }

  /** The last rule for the pattern is a deny, and so is every later one that applies. */
  lemma {:induction false} TerminalExactly(rules: seq<D.Rule>, expected: D.Rule)
    ensures D.TerminalDeny(rules, expected) <==>
            exists i :: 0 <= i < |rules| && EndsAt(rules, expected, i)
  {
    if rules != [] {
      var rest := rules[1..];
      TerminalExactly(rest, expected);
      forall i | 1 <= i < |rules| ensures EndsAt(rules, expected, i) <==> EndsAt(rest, expected, i - 1) {
        EndsLater(rules, expected, i);
      }
      if D.HasMatch(rest, expected) {
        var r :| r in rest && D.Matches(r, expected);
        var k :| 0 <= k < |rest| && rest[k] == r;
        assert rules[k + 1] == r;
      }
      if i :| 0 <= i < |rest| && EndsAt(rest, expected, i) {
        assert EndsAt(rules, expected, i + 1);
      }
      EndsFirst(rules, expected);
    }
  }

  ghost predicate EndsAt(rules: seq<D.Rule>, expected: D.Rule, i: int)
    requires 0 <= i < |rules|
  {
    && rules[i].permission == expected.permission && rules[i].pattern == expected.pattern && rules[i].action == D.DENY
    && (forall j :: i < j < |rules| ==> !(rules[j].permission == expected.permission && rules[j].pattern == expected.pattern))
    && (forall j :: i < j < |rules| && (rules[j].permission == expected.permission || rules[j].permission == "*") ==> rules[j].action == D.DENY)
  }

  lemma EndsLater(rules: seq<D.Rule>, expected: D.Rule, i: int)
    requires 1 <= i < |rules|
    ensures EndsAt(rules, expected, i) <==> EndsAt(rules[1..], expected, i - 1)
  {
    var rest := rules[1..];
    assert forall j :: 0 <= j < |rest| ==> rest[j] == rules[j + 1];
    assert forall j :: 1 <= j < |rules| ==> rules[j] == rest[j - 1];
  }

  lemma EndsFirst(rules: seq<D.Rule>, expected: D.Rule)
    requires rules != []
    ensures EndsAt(rules, expected, 0) <==>
            D.Matches(rules[0], expected) && rules[0].action == D.DENY
            && !D.HasMatch(rules[1..], expected) && D.AllDeny(rules[1..], expected)
  {
    var rest := rules[1..];
    assert forall j :: 1 <= j < |rules| ==> rules[j] == rest[j - 1] && rules[j] in rest;
    assert forall j :: 0 <= j < |rest| ==> rest[j] == rules[j + 1];
    forall r | r in rest ensures exists j :: 1 <= j < |rules| && rules[j] == r {
      var k :| 0 <= k < |rest| && rest[k] == r;
      assert rules[k + 1] == r;
    }
  }
}
