/**
 What a reported duplicate is, said by lines and paths: consecutive lines, not all of them blank, that at least two
 files have, that no suppression names, and that an introduced file has newly.
 */
module DuplicateMeaning {
  import opened Basics
  import opened DuplicateIndex

  /** All lines, each with its newline. */
  function Terminated(lines: seq<string>): string {
    if lines == [] then "" else lines[0] + "\n" + Terminated(lines[1..])
  }

  lemma {:induction false} JoinIsTerminated(lines: seq<string>)
    requires lines != []
    ensures Join(lines) + "\n" == Terminated(lines)
  {
    if |lines| == 1 {
      assert lines[1..] == [] && lines[0] + "\n" + "" == lines[0] + "\n";
    } else {
      JoinIsTerminated(lines[1..]);
      assert lines[0] + "\n" + Join(lines[1..]) + "\n" == lines[0] + "\n" + (Join(lines[1..]) + "\n");
    }
  }

  predicate HasInk(line: string) {
    exists c :: c in line && !IsSpace(c)
  }

  lemma InkExactly(line: string)
    ensures NonBlank(line) <==> HasInk(line)
  {
    hide IsSpace;
    if HasInk(line) {
      var c :| c in line && !IsSpace(c);
      var i :| 0 <= i < |line| && line[i] == c;
    }
  }

  /** The text is `size` consecutive lines from `start` on, not all of them blank. */
  ghost predicate StandsAt(lines: seq<string>, size: int, text: string, start: int) {
    && 0 < size && 0 <= start && start + size <= |lines|
    && text + "\n" == Terminated(lines[start..start + size])
    && exists line :: line in lines[start..start + size] && HasInk(line)
  }

  ghost predicate Stands(lines: seq<string>, size: int, text: string) {
    exists start :: StandsAt(lines, size, text, start)
  }

  lemma StandsExactly(lines: seq<string>, size: int, text: string, start: int)
    ensures StandsAt(lines, size, text, start) <==> BlockAt(lines, size, start) && TextAt(lines, size, start) == text
  {
    hide NonBlank, HasInk, Join, Terminated;
    if 0 < size && 0 <= start && start + size <= |lines| {
      var block := lines[start..start + size];
      JoinIsTerminated(block);
      assert text + "\n" == Join(block) + "\n" <==> text == Join(block) by {
        assert (text + "\n")[..|text|] == text && (Join(block) + "\n")[..|Join(block)|] == Join(block);
      }
      forall line ensures NonBlank(line) <==> HasInk(line) {
        InkExactly(line);
      }
      BlockHasLine(lines, size, start);
    }
  }

  lemma BlockHasLine(lines: seq<string>, size: int, start: int)
    requires 0 < size && 0 <= start && start + size <= |lines|
    ensures BlockAt(lines, size, start) <==> exists line :: line in lines[start..start + size] && NonBlank(line)
  {
    hide NonBlank;
    var block := lines[start..start + size];
    if BlockAt(lines, size, start) {
      var i :| start <= i < start + size && NonBlank(lines[i]);
      assert block[i - start] == lines[i];
    }
    if line :| line in block && NonBlank(line) {
      var k :| 0 <= k < |block| && block[k] == line;
      assert lines[start + k] == line;
    }
  }

  /** A file of that path has the text. */
  ghost predicate Has(input: Input, path: string, text: string) {
    exists i :: 0 <= i < |input.files| && input.files[i].path == path && Stands(input.files[i].lines, input.size, text)
  }

  lemma FilesAreHaving(input: Input, text: string, path: string)
    ensures path in FilesOf(AllPlaces(input, text)) <==> Has(input, path, text)
  {
    hide BlockAt, TextAt, StandsAt;
    if path in FilesOf(AllPlaces(input, text)) {
      var l :| l in AllPlaces(input, text) && l.file == path;
      var i :| 0 <= i < |input.files| && l in Places(input.files[i], input.size, text);
      var f := input.files[i];
      var start :| 0 <= start < |f.lines| && BlockAt(f.lines, input.size, start) && TextAt(f.lines, input.size, start) == text
                   && PlaceOf(f.path, input.size, start) == l;
      StandsExactly(f.lines, input.size, text, start);
    }
    if Has(input, path, text) {
      var i :| 0 <= i < |input.files| && input.files[i].path == path && Stands(input.files[i].lines, input.size, text);
      var f := input.files[i];
      var start :| StandsAt(f.lines, input.size, text, start);
      StandsExactly(f.lines, input.size, text, start);
      StartInside(f.lines, input.size, start);
      assert PlaceOf(path, input.size, start) in Places(f, input.size, text);
    }
  }

  lemma StartInside(lines: seq<string>, size: int, start: int)
    requires BlockAt(lines, size, start)
    ensures 0 <= start < |lines|
  {
  }

  lemma TwoOrMore<T>(s: set<T>)
    ensures |s| >= 2 <==> exists a, b :: a in s && b in s && a != b
  {
    if |s| >= 2 {
      var a :| a in s;
      assert |s - {a}| >= 1;
      var b :| b in s - {a};
    }
    if a, b :| a in s && b in s && a != b {
      assert {a, b} <= s;
      SubsetSize({a, b}, s);
    }
  }

  lemma {:induction false} SubsetSize<T>(a: set<T>, b: set<T>)
    requires a <= b
    ensures |a| <= |b|
  {
    if a != {} {
      var x :| x in a;
      SubsetSize(a - {x}, b - {x});
    }
  }

  /** A suppression for every rule or for this one that names the files, each once. */
  ghost predicate NamedBy(input: Input, files: set<string>) {
    exists s :: s in input.suppressions && s.rule in {"", "duplicate-literal"} && multiset(s.files) == multiset(files)
  }

  /** The file was introduced, and what it was before, if anything, did not have the text. */
  ghost predicate HasNewly(input: Input, path: string, text: string) {
    var folded := input.lower(path);
    && Has(input, path, text) && folded in input.introduced
    && (input.hasBase ==>
          (folded in input.renames ==> !Stands(input.base(input.renames[folded]), input.size, text))
          && (folded !in input.renames ==> !Stands(input.base(path), input.size, text)))
  }

  /**
   A text is to be reported exactly if two files have it, no suppression names just the files that do, and, once any
   file counts as introduced, one of those has it newly.
   */
  lemma ReportedExactly(input: Input, text: string)
    ensures Reported(input, text) <==>
            && (exists a, b :: a != b && Has(input, a, text) && Has(input, b, text))
            && !NamedBy(input, FilesOf(AllPlaces(input, text)))
            && (input.introduced == {} || exists path :: HasNewly(input, path, text))
  {
    hide AllPlaces, FilesOf, Has, HasText, Stands;
    var files := FilesOf(AllPlaces(input, text));
    forall path ensures path in files <==> Has(input, path, text) {
      FilesAreHaving(input, text, path);
    }
    TwoOrMore(files);
    SuppressedExactly(input, files);
    forall path ensures HasNewly(input, path, text) <==> path in files && Introduced(input, path) && Novel(input, path, text) {
      NewlyExactly(input, path, text);
    }
    hide Suppressed, NamedBy, Introduced, Novel, HasNewly;
    NovelWithoutBase(input, text);
  }

  lemma NovelWithoutBase(input: Input, text: string)
    ensures !input.hasBase ==> forall path :: Novel(input, path, text)
  {
  }

  lemma SuppressedExactly(input: Input, files: set<string>)
    ensures Suppressed(input, files) <==> NamedBy(input, files)
  {
    if NamedBy(input, files) {
      var s :| s in input.suppressions && s.rule in {"", "duplicate-literal"} && multiset(s.files) == multiset(files);
      var i :| 0 <= i < |input.suppressions| && input.suppressions[i] == s;
    }
  }

  lemma NewlyExactly(input: Input, path: string, text: string)
    ensures HasNewly(input, path, text) <==> Has(input, path, text) && Introduced(input, path) && Novel(input, path, text)
  {
    hide Has, HasText, Stands;
    HasTextExactly(input.base(OldPath(input, path)), input.size, text);
  }

  lemma HasTextExactly(lines: seq<string>, size: int, text: string)
    ensures HasText(lines, size, text) <==> Stands(lines, size, text)
  {
    hide BlockAt, TextAt, StandsAt;
    forall start ensures StandsAt(lines, size, text, start) <==> BlockAt(lines, size, start) && TextAt(lines, size, start) == text {
      StandsExactly(lines, size, text, start);
    }
  }
}
