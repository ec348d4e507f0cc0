/**
 The OpenCode launch command: built from a configuration that carries the deny overlay, and admitted only
 in exactly that form. Splitting an admitted command into shell words gives the checked configuration back.
 */
module LaunchAdmission {
  import opened Basics
  import opened ShellQuote
  import D = DenyOverlay

  const ASSIGN := "OPENCODE_CONFIG_CONTENT="
  const STATE_HOME := "XDG_STATE_HOME="
  const DATA_HOME := "XDG_DATA_HOME="

  // ----- the parts of a command -----

  predicate SegmentChar(c: char) {
    'a' <= c <= 'z' || 'A' <= c <= 'Z' || '0' <= c <= '9' || c == '.' || c == '_' || c == '+' || c == '-'
  }

  function FirstSlash(s: string): (n: nat)
    ensures n <= |s|
  {
    if s == "" || s[0] == '/' then 0 else 1 + FirstSlash(s[1..])
  }

  predicate Segments(s: string)
    decreases |s|
  {
    var n := FirstSlash(s);
    if n == |s| then s == "opencode"
    else n > 0 && (forall i :: 0 <= i < n ==> SegmentChar(s[i])) && Segments(s[n + 1..])
  }

  /** An absolute path of plain segments whose last one is `opencode`. */
  predicate ValidExecutable(s: string) {
    s != "" && s[0] == '/' && Segments(s[1..])
  }

  predicate ValidSession(s: string) {
    && |s| >= 10 && |s| <= 132 && s[..4] == "ses_"
    && forall i :: 4 <= i < |s| ==> 'a' <= s[i] <= 'z' || 'A' <= s[i] <= 'Z' || '0' <= s[i] <= '9' || s[i] == '_' || s[i] == '-'
  }

  function Hash(name: string): (h: nat)
    ensures h < 0x1_0000_0000
  {
    if name == "" then 0 else (Hash(name[..|name| - 1]) * 31 + name[|name| - 1] as int) % 0x1_0000_0000
  }

  function Port(name: string): (p: nat)
    ensures 10_000 <= p < 60_000
  {
    10_000 + Hash(name) % 50_000
  }

  method OpenCodeControlPort(name: string) returns (port: nat)
    ensures port == Port(name)
  {
    var hash := 0;
    for i := 0 to |name|
      invariant hash == Hash(name[..i])
    {
      assert name[..i + 1][..i] == name[..i];
      hash := (hash * 31 + name[i] as int) % 0x1_0000_0000;
    }
    assert name[..|name|] == name;
    return 10_000 + hash % 50_000;
  }

  function Digits(n: nat): (s: string)
    ensures s != "" && forall i :: 0 <= i < |s| ==> '0' <= s[i] <= '9'
    ensures n < 100_000 ==> |s| <= 5
  {
    DigitsUpTo(n)
  }

  function DigitsUpTo(n: nat): (s: string)
    ensures s != "" && forall i :: 0 <= i < |s| ==> '0' <= s[i] <= '9'
    ensures n < 10 ==> |s| == 1
    ensures n < 100 ==> |s| <= 2
    ensures n < 1_000 ==> |s| <= 3
    ensures n < 10_000 ==> |s| <= 4
    ensures n < 100_000 ==> |s| <= 5
  {
    if n < 10 then ['0' + n as char] else DigitsUpTo(n / 10) + ['0' + (n % 10) as char]
  }

  /** What one launch is built from. */
  datatype Launch = Launch(
    config: string, state: Option<string>, data: Option<string>, executable: string, agentName: string, session: Option<string>)

  function Assignment(name: string, value: Option<string>): string {
    if value.Some? then name + Quote(value.value) + " " else ""
  }

  /** The command from the executable on. */
  function Started(executable: string, agentName: string): string {
    executable + (" --hostname 127.0.0.1 --port " + (Digits(Port(agentName)) + (" --agent " + Quote(agentName))))
  }

  function Session(session: Option<string>): string {
    if session.Some? then " --session " + Quote(session.value) else ""
  }

  function Rest(l: Launch): string {
    Assignment(STATE_HOME, l.state) + (Assignment(DATA_HOME, l.data) + (Started(l.executable, l.agentName) + Session(l.session)))
  }

  function Command(l: Launch): string {
    Assignment(ASSIGN, Some(l.config)) + Rest(l)
  }

  // ----- admission of the text -----

  ghost predicate Contains(s: string, t: string) {
    exists i :: 0 <= i <= |s| - |t| && At(s, t, i)
  }

  predicate At(s: string, t: string, i: int)
    requires 0 <= i <= |s| - |t|
  {
    forall k :: 0 <= k < |t| ==> s[i + k] == t[k]
  }

  /** The text ends in a quoted session with no quote inside. */
  predicate SessionEnd(rest: string, body: string) {
    var end := " --session '" + body + "'";
    body != "" && '\'' !in body && |rest| >= |end| && rest[|rest| - |end|..] == end
  }

  ghost predicate HasSession(rest: string) {
    exists body :: SessionEnd(rest, body)
  }

  /** A quoted assignment as the launch check recognises it. */
  ghost predicate IsAssignment(name: string, s: string) {
    exists body :: Unescaped(body).Some? && s == name + "'" + body + "'"
  }

  /** The root assignments that may stand before the executable. */
  ghost predicate IsRoots(prefix: string) {
    || IsAssignment(STATE_HOME, prefix)
    || IsAssignment(DATA_HOME, prefix)
    || exists a, b :: IsAssignment(STATE_HOME, a) && IsAssignment(DATA_HOME, b) && prefix == a + " " + b
  }

  /** The session found at the end, and before it nothing but the executable with its roots. */
  ghost predicate FormedWith(rest: string, executable: string, agentName: string, session: Option<string>) {
    && (session.None? <==> !HasSession(rest)) && (session.Some? ==> SessionEnd(rest, session.value))
    && var final := Started(executable, agentName) + Session(session);
    (rest == final || exists prefix :: IsRoots(prefix) && rest == prefix + (" " + final))
  }

  /** The text part of the launch check. */
  ghost predicate AdmitsText(command: string, config: string, agentName: string, executable: string) {
    var assignment := Assignment(ASSIGN, Some(config));
    && ValidExecutable(executable) && config != "" && agentName != ""
    && assignment <= command
    && var rest := command[|assignment|..];
    && !Contains(rest, ASSIGN)
    && (forall body :: SessionEnd(rest, body) ==> ValidSession(body))
    && exists session :: FormedWith(rest, executable, agentName, session)
  }

  /** The launches the check means: nothing in them spells the assignment again. */
  ghost predicate Buildable(l: Launch) {
    && ValidExecutable(l.executable) && l.config != "" && l.agentName != ""
    && (l.session.Some? ==> ValidSession(l.session.value))
    && !Contains(l.agentName, ASSIGN)
    && (l.state.Some? ==> !Contains(l.state.value, ASSIGN))
    && (l.data.Some? ==> !Contains(l.data.value, ASSIGN))
  }

  // ----- where the assignment can be spelled -----

  lemma NotAcross(a: string, c: char, b: string, t: string, i: nat)
    requires c !in t && i <= |a| < i + |t| <= |a| + 1 + |b|
    ensures !At(a + ([c] + b), t, i)
  {
    var k := |a| - i;
    assert (a + ([c] + b))[i + k] == c;
    assert t[k] in t;
  }

  lemma AtWithin(u: string, a: string, v: string, t: string, i: int)
    requires 0 <= i <= |a| - |t|
    ensures At(u + (a + v), t, |u| + i) <==> At(a, t, i)
  {
    var s := u + (a + v);
    assert s[|u| + i..|u| + i + |t|] == a[i..i + |t|];
    AtSlice(s, t, |u| + i);
    AtSlice(a, t, i);
  }

  lemma AtSlice(s: string, t: string, i: int)
    requires 0 <= i <= |s| - |t|
    ensures At(s, t, i) <==> s[i..i + |t|] == t
  {
  }

  /** A text without the separator occurs on one side of it or the other. */
  lemma ContainsSplit(a: string, c: char, b: string, t: string)
    requires c !in t && t != ""
    ensures Contains(a + ([c] + b), t) <==> Contains(a, t) || Contains(b, t)
  {
    hide At;
    var s := a + ([c] + b);
    assert s == "" + (a + ([c] + b)) == (a + [c]) + (b + "");
    forall i | 0 <= i <= |s| - |t| && At(s, t, i) ensures Contains(a, t) || Contains(b, t) {
      if i <= |a| < i + |t| {
        NotAcross(a, c, b, t, i);
      } else if i + |t| <= |a| {
        AtWithin("", a, [c] + b, t, i);
      } else {
        AtWithin(a + [c], b, "", t, i - |a| - 1);
      }
    }
    if i :| 0 <= i <= |a| - |t| && At(a, t, i) {
      AtWithin("", a, [c] + b, t, i);
      assert At(s, t, i);
    }
    if i :| 0 <= i <= |b| - |t| && At(b, t, i) {
      AtWithin(a + [c], b, "", t, i);
      assert At(s, t, |a + [c]| + i);
    }
  }

  lemma ContainsNeeds(s: string, t: string, c: char)
    requires c in t && c !in s
    ensures !Contains(s, t)
  {
    var k :| 0 <= k < |t| && t[k] == c;
    forall i | 0 <= i <= |s| - |t| ensures !At(s, t, i) {
      assert s[i + k] in s;
    }
  }

  lemma {:induction false} ContainsEscaped(value: string, t: string)
    requires t != "" && '\'' !in t && '\\' !in t
    ensures Contains(Escaped(value), t) <==> Contains(value, t)
    decreases |value|
  {
    if '\'' !in value {
      QuoteFree(value);
    } else {
      var n := FirstQuote(value);
      var p, q := value[..n], value[n + 1..];
      EscapedAtQuote(p, q);
      assert value == p + (['\''] + q);
      ContainsEscaped(q, t);
      ContainsSplit(p, '\'', q, t);
      var e := Escaped(q);
      ContainsSplit(p, '\'', ['\\'] + (['\''] + (['\''] + e)), t);
      ContainsSplit("", '\\', ['\''] + (['\''] + e), t);
      ContainsSplit("", '\'', ['\''] + e, t);
      ContainsSplit("", '\'', e, t);
      EmptyAppend(['\\'] + (['\''] + (['\''] + e)));
      EmptyAppend(['\''] + (['\''] + e));
      EmptyAppend(['\''] + e);
    }
  }

  lemma EmptyAppend(s: string)
    ensures "" + s == s
  {
  }

  function FirstQuote(s: string): (n: nat)
    requires '\'' in s
    ensures n < |s| && s[n] == '\'' && '\'' !in s[..n]
  {
    if s[0] == '\'' then 0
    else
      var n := FirstQuote(s[1..]);
      assert s[..n + 1] == [s[0]] + s[1..][..n];
      n + 1
  }

  lemma {:induction false} EscapedAtQuote(p: string, q: string)
    requires '\'' !in p
    ensures Escaped(p + (['\''] + q)) == p + (['\''] + (['\\'] + (['\''] + (['\''] + Escaped(q)))))
  {
    if p == "" {
      var s := ['\''] + q;
      assert p + s == s && s[1..] == q;
      QuoteInPieces(Escaped(q));
      EmptyAppend(['\''] + (['\\'] + (['\''] + (['\''] + Escaped(q)))));
      assert "\\'" + ("'" + Escaped(q)) == ['\\'] + (['\''] + (['\''] + Escaped(q)));
    } else {
      EscapedAtQuote(p[1..], q);
      var s := p + (['\''] + q);
      assert s[1..] == p[1..] + (['\''] + q) && s[0] == p[0];
      assert p == [p[0]] + p[1..];
      Assoc([p[0]], p[1..], ['\''] + (['\\'] + (['\''] + (['\''] + Escaped(q)))));
    }
  }

  lemma AssignFacts()
    ensures ASSIGN != "" && '=' in ASSIGN && '\'' !in ASSIGN && ' ' !in ASSIGN && '\\' !in ASSIGN
    ensures |ASSIGN| == 24 && |STATE_HOME| == 15 && |DATA_HOME| == 14
  {
    assert ASSIGN[23] == '=';
  }

  lemma AssignmentFree(name: string, value: string, tail: string)
    requires |name| < |ASSIGN|
    ensures Contains(Assignment(name, Some(value)) + tail, ASSIGN) <==> Contains(value, ASSIGN) || Contains(tail, ASSIGN)
  {
    AssignFacts();
    var e := Escaped(value);
    hide ASSIGN, Contains, Escaped;
    assert Assignment(name, Some(value)) + tail == name + (['\''] + (e + (['\''] + ("" + ([' '] + tail)))));
    ContainsSplit(name, '\'', e + (['\''] + ("" + ([' '] + tail))), ASSIGN);
    ContainsSplit(e, '\'', "" + ([' '] + tail), ASSIGN);
    ContainsSplit("", ' ', tail, ASSIGN);
    TooShort(name, ASSIGN);
    TooShort("", ASSIGN);
    ContainsEscaped(value, ASSIGN);
  }

  lemma TooShort(s: string, t: string)
    requires |s| < |t|
    ensures !Contains(s, t)
  {
  }

  lemma {:induction false} SegmentsChars(s: string)
    requires Segments(s)
    ensures forall i :: 0 <= i < |s| ==> SegmentChar(s[i]) || s[i] == '/'
    decreases |s|
  {
    var n := FirstSlash(s);
    SlashFound(s);
    if n < |s| {
      SegmentsChars(s[n + 1..]);
      assert forall i :: n + 1 <= i < |s| ==> s[i] == s[n + 1..][i - n - 1];
    }
  }

  lemma {:induction false} SlashFound(s: string)
    ensures FirstSlash(s) < |s| ==> s[FirstSlash(s)] == '/'
  {
    if s != "" && s[0] != '/' {
      SlashFound(s[1..]);
    }
  }

  lemma ExecutableChars(executable: string)
    requires ValidExecutable(executable)
    ensures forall i :: 0 <= i < |executable| ==> SegmentChar(executable[i]) || executable[i] == '/'
  {
    SegmentsChars(executable[1..]);
    assert forall i :: 1 <= i < |executable| ==> executable[i] == executable[1..][i - 1];
  }

  /** The command from the executable on spells the assignment only where the agent's name does. */
  lemma FinalFree(executable: string, agentName: string, session: Option<string>)
    requires ValidExecutable(executable) && (session.Some? ==> ValidSession(session.value))
    ensures Contains(Started(executable, agentName) + Session(session), ASSIGN) <==> Contains(agentName, ASSIGN)
  {
    var head := StartedHead(executable, agentName);
    HeadNoEquals(executable, agentName);
    SessionChars(session);
    hide Escaped, Session, StartedHead;
    QuotedFree(head, agentName, Session(session));
    FinalRegroup(executable, agentName, Session(session));
  }

  function StartedHead(executable: string, agentName: string): string {
    executable + (" --hostname 127.0.0.1 --port " + (Digits(Port(agentName)) + " --agent "))
  }

  lemma FinalRegroup(executable: string, agentName: string, tail: string)
    ensures Started(executable, agentName) + tail ==
            StartedHead(executable, agentName) + (['\''] + (Escaped(agentName) + (['\''] + tail)))
  {
    var e := Escaped(agentName);
    hide Escaped;
    assert Quote(agentName) + tail == ['\''] + (e + (['\''] + tail));
  }

  lemma HeadNoEquals(executable: string, agentName: string)
    requires ValidExecutable(executable)
    ensures '=' !in StartedHead(executable, agentName)
  {
    ExecutableChars(executable);
    var middle, port, agent := " --hostname 127.0.0.1 --port ", Digits(Port(agentName)), " --agent ";
    assert '=' !in middle && '=' !in agent && '=' !in executable && '=' !in port;
  }

  lemma QuotedFree(head: string, value: string, tail: string)
    requires '=' !in head && '=' !in tail
    ensures Contains(head + (['\''] + (Escaped(value) + (['\''] + tail))), ASSIGN) <==> Contains(value, ASSIGN)
  {
    AssignFacts();
    hide ASSIGN, Contains, Escaped;
    var e := Escaped(value);
    ContainsSplit(head, '\'', e + (['\''] + tail), ASSIGN);
    ContainsSplit(e, '\'', tail, ASSIGN);
    ContainsNeeds(head, ASSIGN, '=');
    ContainsNeeds(tail, ASSIGN, '=');
    ContainsEscaped(value, ASSIGN);
  }

  lemma SessionValue(v: string)
    requires ValidSession(v)
    ensures v != "" && forall i :: 0 <= i < |v| ==> v[i] != '=' && v[i] != '\'' && Ordinary(v[i])
  {
    assert forall i :: 0 <= i < 4 ==> v[i] == v[..4][i];
    assert v[..4] == "ses_";
  }

  lemma SessionChars(session: Option<string>)
    requires session.Some? ==> ValidSession(session.value)
    ensures '=' !in Session(session)
    ensures session.Some? ==> '\'' !in session.value && session.value != "" && Quote(session.value) == "'" + session.value + "'"
  {
    if session.Some? {
      var v := session.value;
      SessionValue(v);
      QuoteFree(v);
      var text := " --session ";
      assert '=' !in text;
      assert Session(session) == text + ("'" + v + "'");
    }
  }

  lemma RestFree(l: Launch)
    requires ValidExecutable(l.executable) && (l.session.Some? ==> ValidSession(l.session.value))
    ensures Contains(Rest(l), ASSIGN) <==>
            || Contains(l.agentName, ASSIGN)
            || (l.state.Some? && Contains(l.state.value, ASSIGN))
            || (l.data.Some? && Contains(l.data.value, ASSIGN))
  {
    AssignFacts();
    FinalFree(l.executable, l.agentName, l.session);
    var final := Started(l.executable, l.agentName) + Session(l.session);
    hide Contains, ASSIGN, Started, Session, ValidExecutable, ValidSession, Quote;
    var roots := Assignment(DATA_HOME, l.data) + final;
    if l.data.Some? {
      AssignmentFree(DATA_HOME, l.data.value, final);
    } else {
      EmptyAppend(final);
    }
    if l.state.Some? {
      AssignmentFree(STATE_HOME, l.state.value, roots);
    } else {
      EmptyAppend(roots);
    }
  }

  // ----- the session at the end -----

  lemma LastUnique(a: string, c: char, x: string, b: string, y: string)
    requires c !in x && c !in y && a + ([c] + x) == b + ([c] + y)
    ensures a == b && x == y
  {
    var s, t := a + ([c] + x), b + ([c] + y);
    assert forall k :: |a| < k < |s| ==> s[k] == x[k - |a| - 1];
    assert forall k :: |b| < k < |t| ==> t[k] == y[k - |b| - 1];
    assert s[|a|] == c && t[|b|] == c;
    assert |a| == |b|;
    assert a == s[..|a|] && x == s[|a| + 1..];
    assert b == t[..|b|] && y == t[|b| + 1..];
  }

  lemma SessionEndSplit(rest: string, body: string)
    ensures SessionEnd(rest, body) <==>
            body != "" && '\'' !in body && exists u :: rest == EndedBy(u, body)
  {
    var end := " --session '" + body + "'";
    if SessionEnd(rest, body) {
      var u := rest[..|rest| - |end|];
      assert u + end == rest;
      EndRegroup(u, body);
      assert rest == EndedBy(u, body);
    }
    if u :| rest == EndedBy(u, body) {
      EndRegroup(u, body);
      assert rest[|u|..] == end;
    }
  }

  function EndedBy(u: string, body: string): string {
    (u + " --session ") + (['\''] + body) + "'"
  }

  lemma EndRegroup(u: string, body: string)
    ensures EndedBy(u, body) == u + (" --session '" + body + "'")
  {
    assert " --session '" == " --session " + ['\''];
  }

  lemma DropLast(a: string, b: string)
    requires a + "'" == b + "'"
    ensures a == b
  {
    assert (a + "'")[..|a|] == a && (b + "'")[..|b|] == b;
  }

  lemma SessionUnique(rest: string, a: string, b: string)
    requires SessionEnd(rest, a) && SessionEnd(rest, b)
    ensures a == b
  {
    SessionEndSplit(rest, a);
    SessionEndSplit(rest, b);
    var u :| rest == EndedBy(u, a);
    var v :| rest == EndedBy(v, b);
    DropLast((u + " --session ") + (['\''] + a), (v + " --session ") + (['\''] + b));
    LastUnique(u + " --session ", '\'', a, v + " --session ", b);
  }

  /** The last quote inside an escaped text comes right after another one. */
  lemma {:induction false} LastQuoteOfEscaped(value: string) returns (f: string, g: string)
    requires '\'' in value
    ensures Escaped(value) == f + (['\''] + g) && '\'' !in g && f != "" && f[|f| - 1] == '\''
  {
    var first := if value[0] == '\'' then "'\\''" else [value[0]];
    if '\'' in value[1..] {
      f, g := LastQuoteOfEscaped(value[1..]);
      Assoc(first, f, ['\''] + g);
      f := first + f;
    } else {
      QuoteFree(value[1..]);
      assert value == [value[0]] + value[1..];
      f, g := "'\\'", value[1..];
      assert "'\\''" == "'\\'" + ['\''];
      Assoc("'\\'", ['\''], g);
    }
  }

  /** A command without a session does not end like one with a session, whatever the agent is called. */
  lemma NoSessionEnd(head: string, agentName: string, body: string)
    ensures !SessionEnd(head + (" --agent " + Quote(agentName)), body)
  {
    var rest := head + (" --agent " + Quote(agentName));
    SessionEndSplit(rest, body);
    var e := Escaped(agentName);
    assert rest == (head + " --agent ") + (['\''] + e) + "'" by {
      assert " --agent " + Quote(agentName) == " --agent " + (['\''] + e + "'");
    }
    forall u | '\'' !in body ensures rest != EndedBy(u, body) {
      NotEndedBy(head + " --agent ", agentName, u + " --session ", body);
    }
  }

  lemma NotEndedBy(h: string, agentName: string, u: string, body: string)
    requires '\'' !in body
    requires |h| >= 2 && h[|h| - 1] == ' ' && h[|h| - 2] == 't' && |u| >= 2 && u[|u| - 1] == ' ' && u[|u| - 2] == 'n'
    ensures h + (['\''] + Escaped(agentName)) + "'" != u + (['\''] + body) + "'"
  {
    var e := Escaped(agentName);
    if h + (['\''] + e) + "'" == u + (['\''] + body) + "'" {
      DropLast(h + (['\''] + e), u + (['\''] + body));
      if '\'' in agentName {
        var f, g := LastQuoteOfEscaped(agentName);
        var front := h + (['\''] + f);
        assert h + (['\''] + e) == front + (['\''] + g);
        assert front[|front| - 1] == '\'';
        LastUnique(front, '\'', g, u, body);
      } else {
        QuoteFree(agentName);
        LastUnique(h, '\'', e, u, body);
      }
    }
  }

  lemma EndsInSession(u: string, v: string, body: string)
    requires ValidSession(v)
    ensures SessionEnd(u + Session(Some(v)), body) <==> body == v
  {
    SessionChars(Some(v));
    hide ValidSession, SessionEnd, Quote;
    EndRegroup(u, v);
    assert " --session " + ("'" + v + "'") == " --session '" + v + "'" by {
      assert " --session '" == " --session " + "'";
    }
    SessionEndSplit(EndedBy(u, v), v);
    forall b | SessionEnd(EndedBy(u, v), b) ensures b == v {
      SessionUnique(EndedBy(u, v), v, b);
    }
  }

  lemma EndsWithoutSession(prefix: string, executable: string, agentName: string, body: string)
    ensures !SessionEnd(prefix + (Started(executable, agentName) + Session(None)), body)
  {
    var port := Digits(Port(agentName));
    var head := prefix + (executable + (" --hostname 127.0.0.1 --port " + port));
    NoSessionEnd(head, agentName, body);
    NoSessionRegroup(prefix, executable, " --hostname 127.0.0.1 --port ", port, " --agent " + Quote(agentName));
  }

  /** A command ends in exactly the session it was built with. */
  lemma SessionOfFinal(prefix: string, executable: string, agentName: string, session: Option<string>, body: string)
    requires session.Some? ==> ValidSession(session.value)
    ensures SessionEnd(prefix + (Started(executable, agentName) + Session(session)), body) <==> session == Some(body)
  {
    hide SessionEnd, Started, Session, ValidSession;
    if session.Some? {
      Assoc(prefix, Started(executable, agentName), Session(session));
      EndsInSession(prefix + Started(executable, agentName), session.value, body);
    } else {
      EndsWithoutSession(prefix, executable, agentName, body);
    }
  }

  lemma NoSessionRegroup(a: string, b: string, c: string, d: string, e: string)
    ensures a + ((b + (c + (d + e))) + "") == a + (b + (c + d)) + e
  {
  }

  // ----- main results -----

  lemma AssignmentForm(name: string, s: string)
    ensures IsAssignment(name, s) <==> exists value :: s == name + Quote(value)
  {
    hide Escaped, Unescaped;
    if body :| Unescaped(body).Some? && s == name + "'" + body + "'" {
      UnescapedExact(body, Unescaped(body).value);
      QuotedRegroup(name, body);
      assert s == name + Quote(Unescaped(body).value);
    }
    if value :| s == name + Quote(value) {
      UnescapedExact(Escaped(value), value);
      QuotedRegroup(name, Escaped(value));
      assert Unescaped(Escaped(value)).Some?;
    }
  }

  lemma QuotedRegroup(name: string, body: string)
    ensures name + "'" + body + "'" == name + ("'" + body + "'")
  {
  }

  function RootsOf(l: Launch): string {
    Assignment(STATE_HOME, l.state) + Assignment(DATA_HOME, l.data)
  }

  /** The root prefixes are exactly what building with some root writes before the executable. */
  lemma RootsForm(prefix: string, l: Launch)
    requires prefix + " " == RootsOf(l) && (l.state.Some? || l.data.Some?)
    ensures IsRoots(prefix)
  {
    var all := RootsOf(l);
    if l.state.Some? && l.data.Some? {
      var a, b := STATE_HOME + Quote(l.state.value), DATA_HOME + Quote(l.data.value);
      AssignmentForm(STATE_HOME, a);
      AssignmentForm(DATA_HOME, b);
      assert prefix + " " == (a + " " + b) + " ";
      SpaceDrop(prefix, a + " " + b);
    } else if l.state.Some? {
      AssignmentForm(STATE_HOME, STATE_HOME + Quote(l.state.value));
      assert prefix + " " == (STATE_HOME + Quote(l.state.value)) + " ";
      SpaceDrop(prefix, STATE_HOME + Quote(l.state.value));
    } else {
      AssignmentForm(DATA_HOME, DATA_HOME + Quote(l.data.value));
      assert prefix + " " == (DATA_HOME + Quote(l.data.value)) + " ";
      SpaceDrop(prefix, DATA_HOME + Quote(l.data.value));
    }
  }

  lemma SpaceDrop(a: string, b: string)
    requires a + " " == b + " "
    ensures a == b
  {
    assert (a + " ")[..|a|] == a && (b + " ")[..|b|] == b;
  }

  lemma FormRoots(prefix: string, l: Launch) returns (m: Launch)
    requires IsRoots(prefix)
    ensures m == l.(state := m.state, data := m.data) && prefix + " " == RootsOf(m)
  {
    if IsAssignment(STATE_HOME, prefix) {
      AssignmentForm(STATE_HOME, prefix);
      var v :| prefix == STATE_HOME + Quote(v);
      m := l.(state := Some(v), data := None);
    } else if IsAssignment(DATA_HOME, prefix) {
      AssignmentForm(DATA_HOME, prefix);
      var v :| prefix == DATA_HOME + Quote(v);
      m := l.(state := None, data := Some(v));
    } else {
      var a, b :| IsAssignment(STATE_HOME, a) && IsAssignment(DATA_HOME, b) && prefix == a + " " + b;
      AssignmentForm(STATE_HOME, a);
      AssignmentForm(DATA_HOME, b);
      var v :| a == STATE_HOME + Quote(v);
      var w :| b == DATA_HOME + Quote(w);
      m := l.(state := Some(v), data := Some(w));
    }
  }

  lemma RestOf(l: Launch)
    ensures Rest(l) == RootsOf(l) + (Started(l.executable, l.agentName) + Session(l.session))
    ensures Command(l)[|Assignment(ASSIGN, Some(l.config))|..] == Rest(l)
    ensures Assignment(ASSIGN, Some(l.config)) <= Command(l)
  {
  }

  /** What is built has the form the check looks for. */
  lemma BuiltIsFormed(l: Launch)
    requires forall body :: SessionEnd(Rest(l), body) <==> l.session == Some(body)
    ensures FormedWith(Rest(l), l.executable, l.agentName, l.session)
  {
    var rest, final := Rest(l), Started(l.executable, l.agentName) + Session(l.session);
    RestOf(l);
    hide Rest, Started, Session, Command, SessionEnd, ASSIGN, Contains, ValidExecutable, ValidSession;
    if l.state.None? && l.data.None? {
      assert rest == final;
    } else {
      var roots := RootsOf(l);
      assert roots[|roots| - 1] == ' ';
      var prefix := roots[..|roots| - 1];
      assert prefix + " " == roots;
      RootsForm(prefix, l);
      Assoc(prefix, " ", final);
      assert rest == prefix + (" " + final);
    }
  }

  /** A launch that means no second assignment is admitted as built. */
  lemma BuiltIsAdmitted(l: Launch)
    requires Buildable(l)
    ensures AdmitsText(Command(l), l.config, l.agentName, l.executable)
  {
    hide Rest, Started, Session, Command, SessionEnd, ASSIGN, Contains, ValidExecutable, ValidSession, FormedWith, RootsOf;
    var rest := Rest(l);
    RestOf(l);
    RestFree(l);
    forall body ensures SessionEnd(rest, body) <==> l.session == Some(body) {
      SessionOfFinal(RootsOf(l), l.executable, l.agentName, l.session, body);
    }
    BuiltIsFormed(l);
  }

  lemma LaunchOfRest(rest: string, config: string, executable: string, agentName: string, session: Option<string>)
    returns (l: Launch)
    requires FormedWith(rest, executable, agentName, session)
    ensures l == Launch(config, l.state, l.data, executable, agentName, session)
    ensures rest == RootsOf(l) + (Started(executable, agentName) + Session(session))
  {
    hide Started, Session, HasSession, SessionEnd, IsRoots, Quote;
    var final := Started(executable, agentName) + Session(session);
    l := Launch(config, None, None, executable, agentName, session);
    if rest == final {
      assert RootsOf(l) == "";
      EmptyAppend(final);
    } else {
      var prefix :| IsRoots(prefix) && rest == prefix + (" " + final);
      l := FormRoots(prefix, l);
      Assoc(prefix, " ", final);
    }
  }

  /** And nothing else is: what is admitted is the command of some launch that means no second assignment. */
  lemma AdmittedIsBuilt(command: string, config: string, agentName: string, executable: string) returns (l: Launch)
    requires AdmitsText(command, config, agentName, executable)
    ensures Buildable(l) && command == Command(l)
    ensures l.config == config && l.agentName == agentName && l.executable == executable
  {
    hide FormedWith, SessionEnd, ValidExecutable, ValidSession, Contains, ASSIGN, Assignment, Rest, RootsOf;
    var assignment := Assignment(ASSIGN, Some(config));
    var rest := command[|assignment|..];
    assert command == assignment + rest;
    var session :| FormedWith(rest, executable, agentName, session);
    FormedSession(rest, executable, agentName, session);
    l := LaunchOfRest(rest, config, executable, agentName, session);
    RestOf(l);
    RestFree(l);
  }

  lemma FormedSession(rest: string, executable: string, agentName: string, session: Option<string>)
    requires FormedWith(rest, executable, agentName, session)
    ensures session.Some? ==> SessionEnd(rest, session.value)
  {
  }

  /** The launch check admits the text of a command exactly if it is what building writes. */
  lemma AdmittedExactlyBuilt(command: string, config: string, agentName: string, executable: string)
    ensures AdmitsText(command, config, agentName, executable) <==>
            exists l :: Buildable(l) && command == Command(l) && l.config == config
                        && l.agentName == agentName && l.executable == executable
  {
    hide AdmitsText, Buildable, Command;
    if AdmitsText(command, config, agentName, executable) {
      var l := AdmittedIsBuilt(command, config, agentName, executable);
    }
    if l :| Buildable(l) && command == Command(l) && l.config == config
            && l.agentName == agentName && l.executable == executable {
      BuiltIsAdmitted(l);
    }
  }

  // ----- reading the words back -----

  /** The texts of a command and the words they stand for, side by side. */
  datatype Part = Part(text: string, word: string)

  function RootPart(name: string, value: Option<string>): seq<Part> {
    if value.Some? then [Part(name + Quote(value.value), name + value.value)] else []
  }

  function Plain(word: string): Part {
    Part(word, word)
  }

  function StartParts(l: Launch): seq<Part> {
    [Plain(l.executable), Plain("--hostname"), Plain("127.0.0.1"), Plain("--port"), Plain(Digits(Port(l.agentName))),
     Plain("--agent"), Part(Quote(l.agentName), l.agentName)]
    + if l.session.Some? then [Plain("--session"), Part(Quote(l.session.value), l.session.value)] else []
  }

  function Parts(l: Launch): seq<Part> {
    RootPart(ASSIGN, Some(l.config)) + (RootPart(STATE_HOME, l.state) + (RootPart(DATA_HOME, l.data) + StartParts(l)))
  }

  function Texts(parts: seq<Part>): seq<string> {
    seq(|parts|, i requires 0 <= i < |parts| => parts[i].text)
  }

  function PartWords(parts: seq<Part>): seq<string> {
    seq(|parts|, i requires 0 <= i < |parts| => parts[i].word)
  }

  /** The words a launch means. */
  function LaunchWords(l: Launch): seq<string> {
    PartWords(Parts(l))
  }

  ghost predicate AllTokens(parts: seq<Part>) {
    forall i :: 0 <= i < |parts| ==> Token(parts[i].text, parts[i].word)
  }

  function Joined(parts: seq<Part>): string {
    Spaced(Texts(parts))
  }

  lemma JoinedCons(p: Part, parts: seq<Part>)
    requires parts != []
    ensures Joined([p] + parts) == p.text + (" " + Joined(parts))
  {
    var all := [p] + parts;
    assert all[0] == p && forall i :: 0 <= i < |parts| ==> all[i + 1] == parts[i];
    assert Texts(all)[0] == p.text && Texts(all)[1..] == Texts(parts);
  }

  lemma AssignmentJoined(name: string, value: Option<string>, parts: seq<Part>)
    requires parts != []
    ensures Joined(RootPart(name, value) + parts) == Assignment(name, value) + Joined(parts)
  {
    hide Joined, Quote;
    if value.Some? {
      JoinedCons(RootPart(name, value)[0], parts);
      Assoc(name + Quote(value.value), " ", Joined(parts));
    } else {
      assert RootPart(name, value) + parts == parts;
      EmptyAppend(Joined(parts));
    }
  }

  lemma StartJoined(l: Launch)
    ensures Joined(StartParts(l)) == Started(l.executable, l.agentName) + Session(l.session)
  {
    var port, agent := Digits(Port(l.agentName)), Quote(l.agentName);
    var s7 := [Part(agent, l.agentName)] + if l.session.Some? then [Plain("--session"), Part(Quote(l.session.value), l.session.value)] else [];
    AgentJoined(l);
    hide Joined, Quote, Digits, Port;
    var s6 := [Plain("--agent")] + s7;
    var s5 := [Plain(port)] + s6;
    var s4 := [Plain("--port")] + s5;
    var s3 := [Plain("127.0.0.1")] + s4;
    var s2 := [Plain("--hostname")] + s3;
    JoinedCons(Plain("--agent"), s7);
    JoinedCons(Plain(port), s6);
    JoinedCons(Plain("--port"), s5);
    JoinedCons(Plain("127.0.0.1"), s4);
    JoinedCons(Plain("--hostname"), s3);
    JoinedCons(Plain(l.executable), s2);
    assert StartParts(l) == [Plain(l.executable)] + s2;
    StartRegroup(l.executable, port, agent, Session(l.session));
  }

  lemma AgentJoined(l: Launch)
    ensures var s7 := [Part(Quote(l.agentName), l.agentName)]
                      + if l.session.Some? then [Plain("--session"), Part(Quote(l.session.value), l.session.value)] else [];
            Joined(s7) == Quote(l.agentName) + Session(l.session)
  {
    hide Quote;
    var agent := Part(Quote(l.agentName), l.agentName);
    if l.session.Some? {
      var last := Part(Quote(l.session.value), l.session.value);
      JoinedCons(agent, [Plain("--session"), last]);
      JoinedCons(Plain("--session"), [last]);
      assert [Plain("--session")] + [last] == [Plain("--session"), last];
      assert Joined([last]) == last.text;
      SessionRegroup(last.text);
    } else {
      assert [agent] + [] == [agent];
      assert Joined([agent]) == agent.text;
    }
  }

  lemma SessionRegroup(quoted: string)
    ensures " " + ("--session" + (" " + quoted)) == " --session " + quoted
  {
    assert " --session " == " " + ("--session" + " ");
  }

  lemma StartRegroup(executable: string, port: string, agent: string, session: string)
    ensures executable + (" " + ("--hostname" + (" " + ("127.0.0.1" + (" " + ("--port" + (" " + (port
            + (" " + ("--agent" + (" " + (agent + session))))))))))))
            == executable + (" --hostname 127.0.0.1 --port " + (port + (" --agent " + agent))) + session
  {
    var rest := agent + session;
    AgentRegroup(rest);
    HostRegroup(port + (" --agent " + rest));
    Assoc(port, " --agent " + agent, session);
    Assoc(" --agent ", agent, session);
    Assoc(" --hostname 127.0.0.1 --port ", port + (" --agent " + agent), session);
    Assoc(executable, " --hostname 127.0.0.1 --port " + (port + (" --agent " + agent)), session);
  }

  lemma AgentRegroup(rest: string)
    ensures " " + ("--agent" + (" " + rest)) == " --agent " + rest
  {
    assert " --agent " == " " + ("--agent" + " ");
  }

  lemma HostRegroup(rest: string)
    ensures " " + ("--hostname" + (" " + ("127.0.0.1" + (" " + ("--port" + (" " + rest))))))
            == " --hostname 127.0.0.1 --port " + rest
  {
    assert " --hostname 127.0.0.1 --port " == " " + ("--hostname" + (" " + ("127.0.0.1" + (" " + ("--port" + " ")))));
  }

  lemma CommandJoined(l: Launch)
    ensures Command(l) == Joined(Parts(l))
  {
    var start := StartParts(l);
    StartJoined(l);
    assert start != [];
    hide Joined, Quote, StartParts, Assignment;
    AssignmentJoined(DATA_HOME, l.data, start);
    var data := RootPart(DATA_HOME, l.data) + start;
    AssignmentJoined(STATE_HOME, l.state, data);
    AssignmentJoined(ASSIGN, Some(l.config), RootPart(STATE_HOME, l.state) + data);
  }

  lemma NameOrdinary()
    ensures forall i :: 0 <= i < |ASSIGN| ==> Ordinary(ASSIGN[i])
    ensures forall i :: 0 <= i < |STATE_HOME| ==> Ordinary(STATE_HOME[i])
    ensures forall i :: 0 <= i < |DATA_HOME| ==> Ordinary(DATA_HOME[i])
  {
  }

  lemma OptionTokens()
    ensures Token("--hostname", "--hostname") && Token("127.0.0.1", "127.0.0.1") && Token("--port", "--port")
    ensures Token("--agent", "--agent") && Token("--session", "--session")
  {
    PlainToken("--hostname");
    PlainToken("127.0.0.1");
    PlainToken("--port");
    PlainToken("--agent");
    PlainToken("--session");
  }

  lemma QuoteToken(value: string)
    ensures Token(Quote(value), value)
  {
    QuotedToken("", value);
    EmptyAppend(Quote(value));
    EmptyAppend(value);
  }

  lemma ExecutableToken(executable: string)
    requires ValidExecutable(executable)
    ensures Token(executable, executable)
  {
    ExecutableChars(executable);
    assert executable != "";
    hide ValidExecutable, Segments, Token;
    assert forall i :: 0 <= i < |executable| ==> Ordinary(executable[i]);
    PlainToken(executable);
  }

  lemma PortToken(port: nat)
    ensures Token(Digits(port), Digits(port))
  {
    var digits := Digits(port);
    hide Digits, Token;
    assert forall i :: 0 <= i < |digits| ==> Ordinary(digits[i]);
    PlainToken(digits);
  }

  lemma StartTokens(l: Launch)
    requires ValidExecutable(l.executable)
    ensures AllTokens(StartParts(l))
  {
    hide Token, Quote, Digits, Port, ValidExecutable;
    ExecutableToken(l.executable);
    PortToken(Port(l.agentName));
    OptionTokens();
    QuoteToken(l.agentName);
    if l.session.Some? {
      QuoteToken(l.session.value);
    }
  }

  lemma RootTokens(name: string, value: Option<string>)
    requires forall i :: 0 <= i < |name| ==> Ordinary(name[i])
    ensures AllTokens(RootPart(name, value))
  {
    if value.Some? {
      QuotedToken(name, value.value);
    }
  }

  lemma TokensAppend(a: seq<Part>, b: seq<Part>)
    requires AllTokens(a) && AllTokens(b)
    ensures AllTokens(a + b)
  {
    hide Token;
  }

  /** The shell reads a built command back as the words it was built from, each one exactly. */
  lemma CommandReadsBack(l: Launch)
    requires ValidExecutable(l.executable)
    ensures Words(Command(l)) == Some(LaunchWords(l))
  {
    NameOrdinary();
    StartTokens(l);
    RootTokens(ASSIGN, Some(l.config));
    RootTokens(STATE_HOME, l.state);
    RootTokens(DATA_HOME, l.data);
    hide AllTokens, ASSIGN, RootPart, StartParts, Words;
    TokensAppend(RootPart(DATA_HOME, l.data), StartParts(l));
    TokensAppend(RootPart(STATE_HOME, l.state), RootPart(DATA_HOME, l.data) + StartParts(l));
    TokensAppend(RootPart(ASSIGN, Some(l.config)), RootPart(STATE_HOME, l.state) + (RootPart(DATA_HOME, l.data) + StartParts(l)));
    CommandJoined(l);
    PartsRead(Parts(l));
  }

  lemma PartsRead(parts: seq<Part>)
    requires AllTokens(parts)
    ensures Words(Joined(parts)) == Some(PartWords(parts))
  {
    hide Token, Words;
    SpacedReads(Texts(parts), PartWords(parts));
  }

  /** Splitting an admitted command gives back exactly the checked configuration, as the value of the assignment. */
  lemma AdmittedReadsBack(command: string, config: string, agentName: string, executable: string)
    requires AdmitsText(command, config, agentName, executable)
    ensures Words(command).Some?
    ensures var words := Words(command).value; words != [] && words[0] == ASSIGN + config
    ensures exists l: Launch :: l.config == config && l.agentName == agentName && l.executable == executable
                        && Words(command) == Some(LaunchWords(l))
  {
    var l := AdmittedIsBuilt(command, config, agentName, executable);
    assert ValidExecutable(l.executable);
    hide AdmitsText, Command, Words, ValidExecutable;
    CommandReadsBack(l);
    assert Parts(l)[0] == Part(ASSIGN + Quote(config), ASSIGN + config);
  }

  // ----- the configuration -----

  /** The inline configuration: its own permission and one per agent. */
  datatype Config = Config(permission: D.Permissions, agents: map<string, D.Permissions>)

  /** What an overlay puts into the configuration; a key given twice keeps its last value. */
  function Configured(agentName: string, baseline: D.Permissions): Config {
    var none := D.WithFleetBrowserDenies([]);
    Config(none, map[agentName := D.WithFleetBrowserDenies(baseline)]["general" := none]["explore" := none])
  }

  ghost predicate DeniesAreTerminal(c: Config, agentName: string) {
    && agentName in c.agents && "general" in c.agents && "explore" in c.agents
    && D.FleetBrowserDenyRulesAreTerminal(c.permission)
    && D.FleetBrowserDenyRulesAreTerminal(c.agents[agentName])
    && D.FleetBrowserDenyRulesAreTerminal(c.agents["general"])
    && D.FleetBrowserDenyRulesAreTerminal(c.agents["explore"])
  }

  /** The whole launch check; `parse` stands for JSON parsing. */
  ghost predicate Admits(command: string, config: string, agentName: string, executable: string, parse: string -> Option<Config>) {
    && AdmitsText(command, config, agentName, executable)
    && parse(config).Some? && DeniesAreTerminal(parse(config).value, agentName)
  }

  lemma NoInheritedClash()
    ensures D.FleetBrowserDenyRulesAreTerminal(D.WithFleetBrowserDenies([]))
  {
    D.FleetOverlayTerminal([]);
  }

  /**
   A built overlay command is admitted exactly if no root and no agent name spells the assignment, and the
   inherited permissions have no clash, or the agent is called as one of the two the overlay writes itself.
   */
  lemma OverlayAdmission(l: Launch, baseline: D.Permissions, parse: string -> Option<Config>)
    requires ValidExecutable(l.executable) && (l.session.Some? ==> ValidSession(l.session.value))
    requires l.agentName != "" && l.config != "" && parse(l.config) == Some(Configured(l.agentName, baseline))
    requires D.IsObject(baseline)
    ensures Admits(Command(l), l.config, l.agentName, l.executable, parse) <==>
            && Buildable(l)
            && (l.agentName in {"general", "explore"} || !D.Clashes(baseline, D.FLEET))
  {
    hide D.FleetBrowserDenyRulesAreTerminal, D.WithFleetBrowserDenies, D.Clashes, D.FLEET, D.IsObject;
    hide ValidExecutable, ValidSession, Command, Contains, ASSIGN;
    NoInheritedClash();
    D.FleetOverlayTerminal(baseline);
    assert "general" != "explore" by {
      assert "general"[0] == 'g';
    }
    assert DeniesAreTerminal(Configured(l.agentName, baseline), l.agentName) <==>
           l.agentName in {"general", "explore"} || !D.Clashes(baseline, D.FLEET);
    if AdmitsText(Command(l), l.config, l.agentName, l.executable) {
      AdmittedMeansFree(l);
    } else if Buildable(l) {
      BuiltIsAdmitted(l);
    }
  }

  lemma AdmittedMeansFree(l: Launch)
    requires ValidExecutable(l.executable) && (l.session.Some? ==> ValidSession(l.session.value))
    requires AdmitsText(Command(l), l.config, l.agentName, l.executable)
    ensures Buildable(l)
  {
    hide ValidExecutable, ValidSession, Contains, ASSIGN, Assignment, Rest;
    RestOf(l);
    RestFree(l);
  }
}
