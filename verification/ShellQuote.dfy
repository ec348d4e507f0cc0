/**
 Quoting one shell argument, and reading shell words back by the quoting rules of section 2.2 of the
 POSIX.1-2017 Shell Command Language: a backslash, or single quotes that keep everything between them.
 */
module ShellQuote {
  import opened Basics

  /** Every single quote leaves the quotes, stands escaped, and enters them again. */
  function Escaped(value: string): string {
    if value == "" then "" else (if value[0] == '\'' then "'\\''" else [value[0]]) + Escaped(value[1..])
  }

  function Quote(value: string): string {
    "'" + Escaped(value) + "'"
  }

  // ----- the recogniser -----

  /** What stands between the outer quotes: characters other than a quote, and escaped quotes. */
  function Unescaped(body: string): Option<string>
    decreases |body|
  {
    if body == "" then Some("")
    else if body[0] != '\'' then
      match Unescaped(body[1..])
      case Some(rest) => Some([body[0]] + rest)
      case None => None
    else if |body| >= 4 && body[..4] == "'\\''" then
      match Unescaped(body[4..])
      case Some(rest) => Some("'" + rest)
      case None => None
    else None
  }

  /** The recogniser accepts exactly what quoting produces, and tells what was quoted. */
  lemma {:induction false} UnescapedExact(body: string, value: string)
    ensures Unescaped(body) == Some(value) <==> body == Escaped(value)
    decreases |body|
  {
    if value == "" {
    } else if value[0] == '\'' {
      assert Escaped(value)[..4] == "'\\''" && Escaped(value)[4..] == Escaped(value[1..]);
      if |body| >= 4 && body[..4] == "'\\''" {
        UnescapedExact(body[4..], value[1..]);
        assert body == "'\\''" + body[4..];
        assert value == "'" + value[1..];
      }
    } else {
      assert Escaped(value)[0] == value[0] && Escaped(value)[1..] == Escaped(value[1..]);
      if body != "" && body[0] == value[0] {
        UnescapedExact(body[1..], value[1..]);
        assert body == [body[0]] + body[1..] && value == [value[0]] + value[1..];
      }
    }
  }

  lemma {:induction false} QuoteFree(value: string)
    requires '\'' !in value
    ensures Escaped(value) == value
  {
    if value != "" {
      QuoteFree(value[1..]);
    }
  }

  // ----- reading words -----

  datatype Cut = Cut(word: string, rest: string)

  function Prepend(c: char, cut: Option<Cut>): Option<Cut> {
    match cut
    case Some(Cut(word, rest)) => Some(Cut([c] + word, rest))
    case None => None
  }

  /** Characters that mean nothing special to the shell; a text with any other unquoted one is not read here. */
  predicate Ordinary(c: char) {
    'a' <= c <= 'z' || 'A' <= c <= 'Z' || '0' <= c <= '9' || c in "_-./+:,@%="
  }

  function Unquoted(s: string): (r: Option<Cut>)
    ensures r.Some? ==> |r.value.rest| <= |s|
    ensures r.Some? && s != "" && s[0] != ' ' ==> |r.value.rest| < |s|
    decreases |s|
  {
    if s == "" || s[0] == ' ' then Some(Cut("", s))
    else if s[0] == '\'' then InQuotes(s[1..])
    else if s[0] == '\\' then if |s| < 2 || s[1] == '\n' then None else Prepend(s[1], Unquoted(s[2..]))
    else if Ordinary(s[0]) then Prepend(s[0], Unquoted(s[1..]))
    else None
  }

  function InQuotes(s: string): (r: Option<Cut>)
    ensures r.Some? ==> |r.value.rest| <= |s|
    decreases |s|
  {
    if s == "" then None
    else if s[0] == '\'' then Unquoted(s[1..])
    else Prepend(s[0], InQuotes(s[1..]))
  }

  function Words(s: string): Option<seq<string>>
    decreases |s|
  {
    if s == "" then Some([])
    else if s[0] == ' ' then Words(s[1..])
    else
      match Unquoted(s)
      case None => None
      case Some(Cut(word, rest)) =>
        match Words(rest)
        case None => None
        case Some(words) => Some([word] + words)
  }

  predicate WordEnd(t: string) {
    t == "" || t[0] == ' '
  }

  /** The text is read as this one word, wherever it ends. */
  ghost predicate Token(text: string, word: string) {
    text != "" && text[0] != ' ' && forall t {:trigger Unquoted(text + t)} :: WordEnd(t) ==> Unquoted(text + t) == Some(Cut(word, t))
  }

  lemma OneOrdinary(c: char, u: string)
    requires Ordinary(c)
    ensures Unquoted([c] + u) == Prepend(c, Unquoted(u))
  {
    assert ([c] + u)[1..] == u;
  }

  lemma OneQuoted(c: char, u: string)
    requires c != '\''
    ensures InQuotes([c] + u) == Prepend(c, InQuotes(u))
  {
    assert ([c] + u)[1..] == u;
  }

  lemma OneEscaped(u: string)
    ensures Unquoted("\\'" + u) == Prepend('\'', Unquoted(u))
  {
    assert ("\\'" + u)[2..] == u;
  }

  lemma Assoc(a: string, b: string, c: string)
    ensures (a + b) + c == a + (b + c)
  {
  }

  lemma QuoteInPieces(x: string)
    ensures "'\\''" + x == "'" + ("\\'" + ("'" + x))
  {
    assert "'\\''" == ['\'', '\\', '\'', '\''];
    assert "\\'" == ['\\', '\''] && "'" == ['\''];
  }

  lemma EscapedStep(value: string, t: string)
    requires value != ""
    ensures var rest := Escaped(value[1..]) + t;
            Escaped(value) + t == if value[0] == '\'' then "'" + ("\\'" + ("'" + rest)) else [value[0]] + rest
  {
    var first := if value[0] == '\'' then "'\\''" else [value[0]];
    Assoc(first, Escaped(value[1..]), t);
    QuoteInPieces(Escaped(value[1..]) + t);
  }

  lemma Regroup(plain: string, e: string, t: string)
    ensures plain + ("'" + e + "'") + t == plain + ("'" + (e + ("'" + t)))
  {
  }

  lemma {:induction false} QuotedReads(value: string, t: string)
    requires WordEnd(t)
    ensures InQuotes(Escaped(value) + ("'" + t)) == Some(Cut(value, t))
  {
    if value == "" {
      assert Escaped(value) + ("'" + t) == "'" + t;
    } else {
      var c, rest := value[0], Escaped(value[1..]) + ("'" + t);
      QuotedReads(value[1..], t);
      EscapedStep(value, "'" + t);
      hide Unquoted, InQuotes, Escaped;
      if c == '\'' {
        OneEscaped("'" + rest);
      } else {
        OneQuoted(c, rest);
      }
      assert value == [c] + value[1..];
    }
  }

  lemma {:induction false} OrdinaryReads(plain: string, text: string, word: string, t: string)
    requires forall i :: 0 <= i < |plain| ==> Ordinary(plain[i])
    requires Unquoted(text) == Some(Cut(word, t))
    ensures Unquoted(plain + text) == Some(Cut(plain + word, t))
  {
    hide Unquoted, Ordinary;
    if plain == "" {
      assert plain + text == text && plain + word == word;
    } else {
      OrdinaryReads(plain[1..], text, word, t);
      OneOrdinary(plain[0], plain[1..] + text);
      assert plain + text == [plain[0]] + (plain[1..] + text);
      assert plain + word == [plain[0]] + (plain[1..] + word);
    }
  }

  lemma PlainToken(plain: string)
    requires plain != "" && forall i :: 0 <= i < |plain| ==> Ordinary(plain[i])
    ensures Token(plain, plain)
  {
    assert plain[0] != ' ' by {
      assert Ordinary(plain[0]);
    }
    forall t | WordEnd(t) ensures Unquoted(plain + t) == Some(Cut(plain, t)) {
      assert Unquoted(t) == Some(Cut("", t));
      hide Unquoted, Ordinary;
      OrdinaryReads(plain, t, "", t);
      assert plain + "" == plain;
    }
  }

  /** An ordinary prefix and a quoted value are read as one word: the prefix and exactly the value. */
  lemma QuotedToken(plain: string, value: string)
    requires forall i :: 0 <= i < |plain| ==> Ordinary(plain[i])
    ensures Token(plain + Quote(value), plain + value)
  {
    var text := plain + Quote(value);
    assert text[0] == if plain == "" then '\'' else plain[0];
    assert plain != "" ==> Ordinary(plain[0]);
    assert text[0] != ' ';
    forall t | WordEnd(t) ensures Unquoted(text + t) == Some(Cut(plain + value, t)) {
      hide Unquoted, Ordinary, InQuotes, Escaped;
      var inside := Escaped(value) + ("'" + t);
      QuotedReads(value, t);
      OrdinaryReads(plain, "'" + inside, value, t);
      Regroup(plain, Escaped(value), t);
    }
  }

  function Spaced(texts: seq<string>): string {
    if texts == [] then "" else if |texts| == 1 then texts[0] else texts[0] + (" " + Spaced(texts[1..]))
  }

  /** Texts that are tokens, separated by single spaces, are read back word for word. */
  lemma {:induction false} SpacedReads(texts: seq<string>, words: seq<string>)
    requires |texts| == |words| && forall i :: 0 <= i < |texts| ==> Token(texts[i], words[i])
    ensures Words(Spaced(texts)) == Some(words)
  {
    if texts != [] {
      SpacedReads(texts[1..], words[1..]);
      var t := if |texts| == 1 then "" else " " + Spaced(texts[1..]);
      assert Spaced(texts) == texts[0] + t;
      assert Token(texts[0], words[0]) && WordEnd(t);
      assert (texts[0] + t)[0] == texts[0][0];
      assert words == [words[0]] + words[1..];
      if |texts| == 1 {
        assert words[1..] == [];
      } else {
        assert t[1..] == Spaced(texts[1..]);
        assert Words(t) == Words(t[1..]);
      }
    }
  }
}
