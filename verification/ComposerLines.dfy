/**
 The characters and lines the composer reader tells apart: letters that count as the same, characters of words, the
 edges of the box, and the hint line that is no content.
 */
module ComposerLines {
  import opened Basics
  import opened Composer
  import R = RawPane

  predicate Letter(c: char) {
    'a' <= c <= 'z' || 'A' <= c <= 'Z'
  }

  /** Equal but for case: of one letter, or the long s or the kelvin sign with theirs. */
  predicate Alike(c: char, d: char) {
    || c == d
    || (Letter(c) && Letter(d) && (c as int - d as int == 32 || d as int - c as int == 32))
    || (c in {'s', 'S', '\U{017F}'} && d in {'s', 'S', '\U{017F}'})
    || (c in {'k', 'K', '\U{212A}'} && d in {'k', 'K', '\U{212A}'})
  }

  lemma FoldsAlike(c: char, d: char)
    ensures Fold(c) == Fold(d) <==> Alike(c, d)
  {
  }

  lemma WordExactly(c: char)
    ensures IsWord(c) <==> '0' <= c <= '9' || c == '_' || Letter(c) || c == '\U{017F}' || c == '\U{212A}'
  {
  }

  function Repeat(c: char, n: nat): string {
    seq(n, i => c)
  }

  /** A line is an edge exactly if it is eight or more of the edge character between white space. */
  lemma EdgeExactly(line: string, edge: char)
    requires !IsSpace(edge)
    ensures IsEdge(line, edge) <==>
            exists a: string, n: nat, b: string :: n >= 8 && R.Blank(a) && R.Blank(b) && line == a + Repeat(edge, n) + b
  {
    hide IsSpace, R.Blank;
    if IsEdge(line, edge) {
      var a, b := R.TrimParts(line);
      assert Trim(line) == Repeat(edge, |Trim(line)|);
    }
    if a: string, n: nat, b: string :| n >= 8 && R.Blank(a) && R.Blank(b) && line == a + Repeat(edge, n) + b {
      EdgeTrims(a, edge, n, b);
    }
  }

  lemma EdgeTrims(a: string, edge: char, n: nat, b: string)
    requires n > 0 && !IsSpace(edge) && R.Blank(a) && R.Blank(b)
    ensures Trim(a + Repeat(edge, n) + b) == Repeat(edge, n)
  {
    hide IsSpace, R.Blank;
    R.TrimAround(a, Repeat(edge, n), b);
    BlankTrims(a);
    BlankTrims(b);
    assert "" + Repeat(edge, n) + "" == Repeat(edge, n);
  }

  lemma {:induction false} BlankTrims(s: string)
    requires R.Blank(s)
    ensures TrimStart(s) == "" && TrimEnd(s) == ""
  {
    hide IsSpace;
    if s != "" {
      BlankTrims(s[1..]);
      BlankTrims(s[..|s| - 1]);
    }
  }

  /** The hint is `ctrl+c to stop` in any case, with no word going on behind it. */
  lemma HintExactly(line: string)
    ensures IsStopHint(line) <==>
            && |line| >= 14 && (forall i :: 0 <= i < 14 ==> Alike(line[i], "ctrl+c to stop"[i]))
            && (|line| > 14 ==> !(Letter(line[14]) || '0' <= line[14] <= '9' || line[14] in {'_', '\U{017F}', '\U{212A}'}))
  {
    hide Fold, Alike, IsWord;
    var hint := "ctrl+c to stop";
    assert |hint| == 14;
    if |line| > 14 {
      WordExactly(line[14]);
    }
    forall i | 0 <= i < 14 && i < |line| ensures Fold(line[i]) == Fold(hint[i]) <==> Alike(line[i], hint[i]) {
      FoldsAlike(line[i], hint[i]);
    }
    assert forall i :: 0 <= i < 14 && i < |line| ==> line[0 + i] == line[i];
  }
}
