/**
 Duplicate blocks of lines across files. The index is seeded from the introduced files only and the others
 are looked up in it; what is reported is what a plain index over all files would report.
 */
module DuplicateIndex {
  import opened Basics

  datatype Block = Block(text: string, startLine: int, endLine: int)

  datatype Location = Location(file: string, startLine: int, endLine: int)

  datatype File = File(path: string, lines: seq<string>)

  datatype Suppression = Suppression(rule: string, files: seq<string>)

  datatype Finding = Finding(text: string, locations: seq<Location>)

  const RULE := "duplicate-literal"

  /** What a run looks at; `base` gives the lines a path had before, `lower` is letter case folding. */
  datatype Input = Input(
    files: seq<File>, introduced: set<string>, size: int, suppressions: seq<Suppression>,
    hasBase: bool, renames: map<string, string>, base: string -> seq<string>, lower: string -> string)

  type Index = map<string, seq<Location>>

  predicate NonBlank(line: string) {
    exists i :: 0 <= i < |line| && !IsSpace(line[i])
  }

  function Join(lines: seq<string>): string {
    if lines == [] then "" else if |lines| == 1 then lines[0] else lines[0] + "\n" + Join(lines[1..])
  }

  /** The block of `size` lines at a place, unless all of them are blank. */
  predicate BlockAt(lines: seq<string>, size: int, start: int) {
    size > 0 && 0 <= start && start + size <= |lines| && exists i :: start <= i < start + size && NonBlank(lines[i])
  }

  function TextAt(lines: seq<string>, size: int, start: int): string
    requires BlockAt(lines, size, start)
  {
    Join(lines[start..start + size])
  }

  function PlaceOf(path: string, size: int, start: int): Location {
    Location(path, start + 1, start + size)
  }

  /** All places of a text in one file. */
  ghost function Places(f: File, size: int, text: string): set<Location> {
    set start | 0 <= start < |f.lines| && BlockAt(f.lines, size, start) && TextAt(f.lines, size, start) == text
      :: PlaceOf(f.path, size, start)
  }

  predicate Distinct(input: Input) {
    forall i, j :: 0 <= i < j < |input.files| ==> input.files[i].path != input.files[j].path
  }

  predicate Introduced(input: Input, path: string) {
    input.lower(path) in input.introduced
  }

  predicate RequireIntroduced(input: Input) {
    input.introduced != {}
  }

  /** The plain index: all places of a text in the files of `among`. */
  ghost function PlacesAmong(input: Input, among: set<int>, text: string): set<Location> {
    set i, l | i in among && 0 <= i < |input.files| && l in Places(input.files[i], input.size, text) :: l
  }

  ghost function AllPlaces(input: Input, text: string): set<Location> {
    set i, l | 0 <= i < |input.files| && l in Places(input.files[i], input.size, text) :: l
  }

  function FilesOf(places: set<Location>): set<string> {
    set l | l in places :: l.file
  }

  /** A suppression names exactly the files of a group. */
  predicate Suppressed(input: Input, files: set<string>) {
    exists i :: 0 <= i < |input.suppressions|
                && (input.suppressions[i].rule == "" || input.suppressions[i].rule == RULE)
                && multiset(input.suppressions[i].files) == multiset(files)
  }

  function OldPath(input: Input, path: string): string {
    if input.lower(path) in input.renames then input.renames[input.lower(path)] else path
  }

  ghost predicate HasText(lines: seq<string>, size: int, text: string) {
    exists start :: BlockAt(lines, size, start) && TextAt(lines, size, start) == text
  }

  /** The text was not in the file before. */
  ghost predicate Novel(input: Input, path: string, text: string) {
    !input.hasBase || !HasText(input.base(OldPath(input, path)), input.size, text)
  }

  /** What is to be reported, by the plain index alone. */
  ghost predicate Reported(input: Input, text: string) {
    var files := FilesOf(AllPlaces(input, text));
    && |files| >= 2 && !Suppressed(input, files)
    && (RequireIntroduced(input) ==>
          && (exists path :: path in files && Introduced(input, path))
          && (input.hasBase ==> exists path :: path in files && Introduced(input, path) && Novel(input, path, text)))
  }

  // ----- blocks of one file -----

  ghost predicate BlocksUpTo(lines: seq<string>, size: int, n: int, out: seq<Block>) {
    && (forall k :: 0 <= k < |out| ==> IsBlock(lines, size, n, out[k]))
    && (forall j, k :: 0 <= j < k < |out| ==> out[j].startLine < out[k].startLine)
    && (forall start :: 0 <= start < n && BlockAt(lines, size, start) ==> Listed(lines, size, start, out))
  }

  ghost predicate IsBlock(lines: seq<string>, size: int, n: int, b: Block) {
    && 1 <= b.startLine <= n && BlockAt(lines, size, b.startLine - 1)
    && b.text == TextAt(lines, size, b.startLine - 1) && b.endLine == b.startLine - 1 + size
  }

  ghost predicate Listed(lines: seq<string>, size: int, start: int, out: seq<Block>)
    requires BlockAt(lines, size, start)
  {
    Block(TextAt(lines, size, start), start + 1, start + size) in out
  }

  method Blocks(lines: seq<string>, size: int) returns (out: seq<Block>)
    ensures BlocksUpTo(lines, size, |lines|, out)
  {
    hide Join, NonBlank, BlockAt, BlocksUpTo;
    out := [];
    BlocksStart(lines, size);
    if size <= 0 || |lines| < size {
      return;
    }
    var start := 0;
    while start <= |lines| - size
      invariant 0 <= start <= |lines| - size + 1
      invariant BlocksUpTo(lines, size, start, out)
    {
      var slice := lines[start..start + size];
      NonBlankSlice(lines, size, start);
      if exists i :: 0 <= i < |slice| && NonBlank(slice[i]) {
        BlocksStep(lines, size, start, out);
        out := out + [Block(Join(slice), start + 1, start + size)];
      } else {
        BlocksSkip(lines, size, start, start + 1, out);
      }
      start := start + 1;
    }
    forall i | start <= i < |lines| ensures !BlockAt(lines, size, i) {
      NoRoom(lines, size, i);
    }
    BlocksSkip(lines, size, start, |lines|, out);
  }

  lemma BlocksStart(lines: seq<string>, size: int)
    ensures BlocksUpTo(lines, size, 0, [])
    ensures size <= 0 || |lines| < size ==> BlocksUpTo(lines, size, |lines|, [])
  {
    hide NonBlank, Join;
  }

  lemma NoRoom(lines: seq<string>, size: int, start: int)
    requires start > |lines| - size
    ensures !BlockAt(lines, size, start)
  {
  }

  lemma NonBlankSlice(lines: seq<string>, size: int, start: int)
    requires size > 0 && 0 <= start && start + size <= |lines|
    ensures var slice := lines[start..start + size];
            (exists i :: 0 <= i < |slice| && NonBlank(slice[i])) <==> BlockAt(lines, size, start)
  {
    hide NonBlank;
    var slice := lines[start..start + size];
    if i :| 0 <= i < |slice| && NonBlank(slice[i]) {
      assert NonBlank(lines[start + i]);
    }
    if i :| start <= i < start + size && NonBlank(lines[i]) {
      assert slice[i - start] == lines[i];
    }
  }

  lemma BlocksStep(lines: seq<string>, size: int, start: int, out: seq<Block>)
    requires 0 <= start < |lines| && BlockAt(lines, size, start) && BlocksUpTo(lines, size, start, out)
    ensures BlocksUpTo(lines, size, start + 1, out + [Block(TextAt(lines, size, start), start + 1, start + size)])
  {
    var b := Block(TextAt(lines, size, start), start + 1, start + size);
    assert IsBlock(lines, size, start + 1, b);
    hide BlockAt, TextAt, IsBlock;
    var next := out + [b];
    assert forall k :: 0 <= k < |out| ==> next[k] == out[k];
    assert next[|out|] == b;
    forall i | 0 <= i < start + 1 && BlockAt(lines, size, i) ensures Listed(lines, size, i, next) {
      assert i < start ==> Listed(lines, size, i, out);
    }
  }

  lemma BlocksSkip(lines: seq<string>, size: int, start: int, n: int, out: seq<Block>)
    requires start <= n && BlocksUpTo(lines, size, start, out) && forall i :: start <= i < n ==> !BlockAt(lines, size, i)
    ensures BlocksUpTo(lines, size, n, out)
  {
    hide BlockAt, TextAt, Listed;
    forall k | 0 <= k < |out| ensures IsBlock(lines, size, n, out[k]) {
      assert IsBlock(lines, size, start, out[k]);
    }
  }

  // ----- the index -----

  function At(index: Index, text: string): multiset<Location> {
    if text in index then multiset(index[text]) else multiset{}
  }

  /** A file's places added: everywhere for a seed, only to texts already there otherwise. */
  ghost predicate FileAdded(index: Index, f: File, size: int, seeding: bool, next: Index) {
    forall text ::
      && (text in next <==> text in index || (seeding && Places(f, size, text) != {}))
      && (text in next ==> At(next, text) == At(index, text) + multiset(Places(f, size, text)))
  }

  ghost function BlockPlaces(path: string, blocks: seq<Block>, text: string): set<Location> {
    set k | 0 <= k < |blocks| && blocks[k].text == text :: Location(path, blocks[k].startLine, blocks[k].endLine)
  }

  lemma BlocksArePlaces(f: File, size: int, blocks: seq<Block>, text: string)
    requires BlocksUpTo(f.lines, size, |f.lines|, blocks)
    ensures BlockPlaces(f.path, blocks, text) == Places(f, size, text)
  {
    hide BlockAt, TextAt, IsBlock, Listed, BlocksUpTo, Places;
    forall l | l in BlockPlaces(f.path, blocks, text) ensures l in Places(f, size, text) {
      var k :| 0 <= k < |blocks| && blocks[k].text == text && l == Location(f.path, blocks[k].startLine, blocks[k].endLine);
      BlockIsPlace(f, size, blocks, k);
    }
    forall l | l in Places(f, size, text) ensures l in BlockPlaces(f.path, blocks, text) {
      var k := PlaceIsBlock(f, size, blocks, text, l);
    }
  }

  lemma BlockIsPlace(f: File, size: int, blocks: seq<Block>, k: nat)
    requires BlocksUpTo(f.lines, size, |f.lines|, blocks) && k < |blocks|
    ensures Location(f.path, blocks[k].startLine, blocks[k].endLine) in Places(f, size, blocks[k].text)
  {
    hide BlockAt, TextAt;
    assert IsBlock(f.lines, size, |f.lines|, blocks[k]);
    assert Location(f.path, blocks[k].startLine, blocks[k].endLine) == PlaceOf(f.path, size, blocks[k].startLine - 1);
  }

  lemma PlaceIsBlock(f: File, size: int, blocks: seq<Block>, text: string, l: Location) returns (k: nat)
    requires BlocksUpTo(f.lines, size, |f.lines|, blocks) && l in Places(f, size, text)
    ensures k < |blocks| && blocks[k].text == text && l == Location(f.path, blocks[k].startLine, blocks[k].endLine)
  {
    hide BlockAt, TextAt, IsBlock;
    var start :| 0 <= start < |f.lines| && BlockAt(f.lines, size, start) && TextAt(f.lines, size, start) == text
                 && l == PlaceOf(f.path, size, start);
    assert Listed(f.lines, size, start, blocks);
    k :| k < |blocks| && blocks[k] == Block(text, start + 1, start + size);
  }

  ghost predicate Increasing(blocks: seq<Block>) {
    forall j, k :: 0 <= j < k < |blocks| ==> blocks[j].startLine < blocks[k].startLine
  }

  /** The same for the first `n` blocks of a file. */
  ghost predicate BlocksAdded(index: Index, path: string, blocks: seq<Block>, n: nat, seeding: bool, next: Index)
    requires n <= |blocks|
  {
    forall text {:trigger text in next} {:trigger At(next, text)} ::
      && (text in next <==> text in index || (seeding && BlockPlaces(path, blocks[..n], text) != {}))
      && (text in next ==> At(next, text) == At(index, text) + multiset(BlockPlaces(path, blocks[..n], text)))
  }

  method AddFile(index: Index, f: File, size: int, seeding: bool) returns (next: Index)
    ensures FileAdded(index, f, size, seeding, next)
  {
    hide BlocksUpTo, BlocksAdded, FileAdded;
    var blocks := Blocks(f.lines, size);
    IncreasingBlocks(f.lines, size, blocks);
    next := index;
    var n := 0;
    NoBlocksAdded(index, f.path, blocks, seeding);
    while n < |blocks|
      invariant 0 <= n <= |blocks|
      invariant BlocksAdded(index, f.path, blocks, n, seeding, next)
    {
      var b := blocks[n];
      var place := Location(f.path, b.startLine, b.endLine);
      ghost var before := next;
      if seeding || b.text in next {
        next := next[b.text := (if b.text in next then next[b.text] else []) + [place]];
      }
      BlockAdded(index, f.path, blocks, n, seeding, before, next);
      n := n + 1;
    }
    AllBlocksAdded(index, f, size, blocks, seeding, next);
  }

  lemma IncreasingBlocks(lines: seq<string>, size: int, blocks: seq<Block>)
    requires BlocksUpTo(lines, size, |lines|, blocks)
    ensures Increasing(blocks)
  {
  }

  lemma NoBlocksAdded(index: Index, path: string, blocks: seq<Block>, seeding: bool)
    ensures BlocksAdded(index, path, blocks, 0, seeding, index)
  {
    assert blocks[..0] == [];
    assert forall text :: BlockPlaces(path, [], text) == {};
  }

  lemma AllBlocksAdded(index: Index, f: File, size: int, blocks: seq<Block>, seeding: bool, next: Index)
    requires BlocksUpTo(f.lines, size, |f.lines|, blocks) && BlocksAdded(index, f.path, blocks, |blocks|, seeding, next)
    ensures FileAdded(index, f, size, seeding, next)
  {
    hide BlocksUpTo;
    assert blocks[..|blocks|] == blocks;
    forall text ensures BlockPlaces(f.path, blocks, text) == Places(f, size, text) {
      BlocksArePlaces(f, size, blocks, text);
    }
  }

  lemma BlockAdded(
    index: Index, path: string, blocks: seq<Block>, n: nat, seeding: bool, before: Index, next: Index)
    requires n < |blocks| && Increasing(blocks) && BlocksAdded(index, path, blocks, n, seeding, before)
    requires var b := blocks[n];
             next == if seeding || b.text in before
                     then before[b.text := (if b.text in before then before[b.text] else [])
                                           + [Location(path, b.startLine, b.endLine)]]
                     else before
    ensures BlocksAdded(index, path, blocks, n + 1, seeding, next)
  {
    forall text
      ensures text in next <==> text in index || (seeding && BlockPlaces(path, blocks[..n + 1], text) != {})
      ensures text in next ==> At(next, text) == At(index, text) + multiset(BlockPlaces(path, blocks[..n + 1], text))
    {
      BlockAddedAt(index, path, blocks, n, seeding, before, next, text);
    }
  }

  lemma BlockAddedAt(
    index: Index, path: string, blocks: seq<Block>, n: nat, seeding: bool, before: Index, next: Index, text: string)
    requires n < |blocks| && Increasing(blocks) && BlocksAdded(index, path, blocks, n, seeding, before)
    requires var b := blocks[n];
             next == if seeding || b.text in before
                     then before[b.text := (if b.text in before then before[b.text] else [])
                                           + [Location(path, b.startLine, b.endLine)]]
                     else before
    ensures text in next <==> text in index || (seeding && BlockPlaces(path, blocks[..n + 1], text) != {})
    ensures text in next ==> At(next, text) == At(index, text) + multiset(BlockPlaces(path, blocks[..n + 1], text))
  {
    hide BlockPlaces, BlocksAdded, Increasing;
    var b := blocks[n];
    var places := BlockPlaces(path, blocks[..n], text);
    AddedSoFar(index, path, blocks, n, seeding, before, text);
    OneMoreBlock(path, blocks, n, text);
    if text == b.text {
      FreshPlace(path, blocks, n, text);
    } else {
      assert places + {} == places;
    }
  }

  lemma AddedSoFar(index: Index, path: string, blocks: seq<Block>, n: nat, seeding: bool, next: Index, text: string)
    requires n <= |blocks| && BlocksAdded(index, path, blocks, n, seeding, next)
    ensures text in next <==> text in index || (seeding && BlockPlaces(path, blocks[..n], text) != {})
    ensures text in next ==> At(next, text) == At(index, text) + multiset(BlockPlaces(path, blocks[..n], text))
  {
    hide BlockPlaces;
  }

  lemma OneMoreBlock(path: string, blocks: seq<Block>, n: nat, text: string)
    requires n < |blocks|
    ensures BlockPlaces(path, blocks[..n + 1], text) ==
            BlockPlaces(path, blocks[..n], text)
            + (if text == blocks[n].text then {Location(path, blocks[n].startLine, blocks[n].endLine)} else {})
  {
    var more := blocks[..n + 1];
    assert more[n] == blocks[n] && forall k :: 0 <= k < n ==> more[k] == blocks[..n][k];
  }

  lemma FreshPlace(path: string, blocks: seq<Block>, n: nat, text: string)
    requires n < |blocks| && Increasing(blocks)
    ensures Location(path, blocks[n].startLine, blocks[n].endLine) !in BlockPlaces(path, blocks[..n], text)
  {
  }

  // ----- the two passes -----

  /** The files that seed the index: the introduced ones, or all of them when none is. */
  predicate SeedFile(input: Input, i: int)
    requires 0 <= i < |input.files|
  {
    !RequireIntroduced(input) || Introduced(input, input.files[i].path)
  }

  ghost function Seeds(input: Input, n: nat): set<int>
    requires n <= |input.files|
  {
    set i | 0 <= i < n && SeedFile(input, i)
  }

  ghost function Others(input: Input, n: nat): set<int>
    requires n <= |input.files|
  {
    set i | 0 <= i < n && !SeedFile(input, i)
  }

  ghost function Everywhere(input: Input): set<int> {
    Seeds(input, |input.files|) + Others(input, |input.files|)
  }

  /** An entry for each text of the seeds, with its places in the files of `among`. */
  ghost predicate Indexed(input: Input, seeds: set<int>, among: set<int>, index: Index) {
    forall text {:trigger text in index} {:trigger At(index, text)} :: IndexedAt(input, seeds, among, index, text)
  }

  ghost predicate IndexedAt(input: Input, seeds: set<int>, among: set<int>, index: Index, text: string) {
    && (text in index <==> PlacesAmong(input, seeds, text) != {})
    && (text in index ==> At(index, text) == multiset(PlacesAmong(input, among, text)))
  }

  lemma OneMoreFile(input: Input, among: set<int>, i: int, text: string)
    requires Distinct(input) && 0 <= i < |input.files| && i !in among
    ensures var places := Places(input.files[i], input.size, text);
            && PlacesAmong(input, among + {i}, text) == PlacesAmong(input, among, text) + places
            && PlacesAmong(input, among, text) !! places
  {
    hide BlockAt, TextAt;
    forall l | l in PlacesAmong(input, among, text) ensures l !in Places(input.files[i], input.size, text) {
      var j :| j in among && 0 <= j < |input.files| && l in Places(input.files[j], input.size, text);
      assert l.file == input.files[j].path;
      assert input.files[j].path != input.files[i].path;
    }
  }

  lemma DisjointSum<T>(a: set<T>, b: set<T>)
    requires a !! b
    ensures multiset(a + b) == multiset(a) + multiset(b)
  {
  }

  lemma IndexStepAt(input: Input, seeds: set<int>, among: set<int>, i: int, index: Index, seeding: bool, next: Index, text: string)
    requires Distinct(input) && 0 <= i < |input.files| && i !in among && seeds <= among && (seeding ==> seeds == among)
    requires IndexedAt(input, seeds, among, index, text)
    requires var places := Places(input.files[i], input.size, text);
             && (text in next <==> text in index || (seeding && places != {}))
             && (text in next ==> At(next, text) == At(index, text) + multiset(places))
    ensures IndexedAt(input, if seeding then seeds + {i} else seeds, among + {i}, next, text)
  {
    OneMoreFile(input, among, i, text);
    hide Places, PlacesAmong;
    DisjointSum(PlacesAmong(input, among, text), Places(input.files[i], input.size, text));
  }

  lemma IndexStep(input: Input, seeds: set<int>, among: set<int>, i: int, index: Index, seeding: bool, next: Index)
    requires Distinct(input) && 0 <= i < |input.files| && i !in among && seeds <= among && (seeding ==> seeds == among)
    requires Indexed(input, seeds, among, index)
    requires FileAdded(index, input.files[i], input.size, seeding, next)
    ensures Indexed(input, if seeding then seeds + {i} else seeds, among + {i}, next)
  {
    hide IndexedAt, Places;
    var grown, wider := if seeding then seeds + {i} else seeds, among + {i};
    forall text ensures IndexedAt(input, grown, wider, next, text) {
      assert text in index || text !in index;
      IndexStepAt(input, seeds, among, i, index, seeding, next, text);
    }
  }

  lemma NothingIndexed(input: Input)
    ensures Indexed(input, {}, {}, map[])
  {
    forall text ensures IndexedAt(input, {}, {}, map[], text) {
      assert PlacesAmong(input, {}, text) == {};
    }
  }

  /** First the seeds fill the index, then the other files are looked up in it. */
  method BuildIndex(input: Input) returns (index: Index)
    requires Distinct(input)
    ensures Indexed(input, Seeds(input, |input.files|), Everywhere(input), index)
  {
    hide Indexed, FileAdded, SeedFile, Distinct;
    index := map[];
    var n := 0;
    NothingIndexed(input);
    assert Seeds(input, 0) == {};
    while n < |input.files|
      invariant 0 <= n <= |input.files| && Indexed(input, Seeds(input, n), Seeds(input, n), index)
    {
      ghost var before := index;
      if SeedFile(input, n) {
        index := AddFile(index, input.files[n], input.size, true);
        IndexStep(input, Seeds(input, n), Seeds(input, n), n, before, true, index);
        assert Seeds(input, n + 1) == Seeds(input, n) + {n};
      } else {
        assert Seeds(input, n + 1) == Seeds(input, n);
      }
      n := n + 1;
    }
    ghost var seeds := Seeds(input, n);
    assert Others(input, 0) == {} && seeds + {} == seeds;
    if RequireIntroduced(input) && |index| > 0 {
      index := LookUpOthers(input, index);
    } else {
      NothingToLookUp(input, index);
    }
  }

  method LookUpOthers(input: Input, seeded: Index) returns (index: Index)
    requires Distinct(input)
    requires var seeds := Seeds(input, |input.files|); Indexed(input, seeds, seeds, seeded)
    ensures var seeds := Seeds(input, |input.files|); Indexed(input, seeds, seeds + Others(input, |input.files|), index)
  {
    hide Indexed, FileAdded, SeedFile, Distinct;
    index := seeded;
    ghost var seeds := Seeds(input, |input.files|);
    var n := 0;
    assert Others(input, 0) == {} && seeds + {} == seeds;
    while n < |input.files|
      invariant 0 <= n <= |input.files| && Indexed(input, seeds, seeds + Others(input, n), index)
    {
      ghost var before := index;
      if !SeedFile(input, n) {
        index := AddFile(index, input.files[n], input.size, false);
        IndexStep(input, seeds, seeds + Others(input, n), n, before, false, index);
        assert seeds + Others(input, n + 1) == seeds + Others(input, n) + {n};
      } else {
        assert Others(input, n + 1) == Others(input, n);
      }
      n := n + 1;
    }
  }

  /** Without seed texts, or with every file a seed, the second pass has nothing to add. */
  lemma NothingToLookUp(input: Input, index: Index)
    requires var seeds := Seeds(input, |input.files|); Indexed(input, seeds, seeds, index)
    requires !RequireIntroduced(input) || |index| == 0
    ensures var seeds := Seeds(input, |input.files|); Indexed(input, seeds, seeds + Others(input, |input.files|), index)
  {
    hide PlacesAmong;
    var seeds := Seeds(input, |input.files|);
    if !RequireIntroduced(input) {
      assert Others(input, |input.files|) == {} && seeds + {} == seeds;
    } else {
      assert index == map[];
      forall text ensures IndexedAt(input, seeds, seeds + Others(input, |input.files|), index, text) {
        assert text !in index;
        assert IndexedAt(input, seeds, seeds, index, text);
      }
    }
  }

  // ----- what the index says about one text -----

  /** A text without an entry is not reported: it is nowhere, or in no introduced file. */
  lemma UnindexedIsUnreported(input: Input, index: Index, text: string)
    requires Indexed(input, Seeds(input, |input.files|), Everywhere(input), index)
    requires text !in index
    ensures !Reported(input, text)
  {
    hide Places, Novel, Introduced;
    assert IndexedAt(input, Seeds(input, |input.files|), Everywhere(input), index, text);
    forall i | 0 <= i < |input.files| && SeedFile(input, i) ensures Places(input.files[i], input.size, text) == {} {
      PlacesWithin(input, Seeds(input, |input.files|), i, text);
    }
    var files := FilesOf(AllPlaces(input, text));
    if RequireIntroduced(input) {
      forall path | path in files ensures !Introduced(input, path) {
        var l :| l in AllPlaces(input, text) && l.file == path;
        var i :| 0 <= i < |input.files| && l in Places(input.files[i], input.size, text);
        PlaceIsIn(input.files[i], input.size, text, l);
      }
    } else {
      assert AllPlaces(input, text) == {};
      assert files == {};
    }
  }

  lemma PlacesWithin(input: Input, among: set<int>, i: int, text: string)
    requires i in among && 0 <= i < |input.files|
    ensures Places(input.files[i], input.size, text) <= PlacesAmong(input, among, text)
  {
    hide Places;
  }

  lemma PlaceIsIn(f: File, size: int, text: string, l: Location)
    requires l in Places(f, size, text)
    ensures l.file == f.path
  {
    hide BlockAt, TextAt;
  }

  /** An entry lists every place of its text in any file, each once. */
  lemma EntryIsAllPlaces(input: Input, index: Index, text: string)
    requires Indexed(input, Seeds(input, |input.files|), Everywhere(input), index)
    requires text in index
    ensures multiset(index[text]) == multiset(AllPlaces(input, text))
    ensures (set l | l in index[text] :: l.file) == FilesOf(AllPlaces(input, text))
  {
    var all := Everywhere(input);
    assert IndexedAt(input, Seeds(input, |input.files|), all, index, text);
    assert PlacesAmong(input, all, text) == AllPlaces(input, text);
    hide Places, PlacesAmong, AllPlaces;
    var places := AllPlaces(input, text);
    assert forall l :: l in index[text] <==> l in multiset(index[text]);
    assert forall l :: l in multiset(places) <==> l in places;
  }

  // ----- novelty -----

  type Cache = map<string, set<string>>

  ghost predicate CacheHolds(input: Input, cache: Cache) {
    forall path, text :: path in cache ==> (text in cache[path] <==> HasText(input.base(path), input.size, text))
  }

  lemma BlocksHaveText(lines: seq<string>, size: int, blocks: seq<Block>, text: string)
    requires BlocksUpTo(lines, size, |lines|, blocks)
    ensures (exists k :: 0 <= k < |blocks| && blocks[k].text == text) <==> HasText(lines, size, text)
  {
    hide TextAt;
    if k :| 0 <= k < |blocks| && blocks[k].text == text {
      assert IsBlock(lines, size, |lines|, blocks[k]);
    }
    if start :| BlockAt(lines, size, start) && TextAt(lines, size, start) == text {
      assert Listed(lines, size, start, blocks);
    }
  }

  /** Whether the text is new at a path; what a base file held is remembered, an absent one is asked for again. */
  method NovelAtPath(input: Input, path: string, text: string, cache: Cache) returns (novel: bool, next: Cache)
    requires CacheHolds(input, cache)
    ensures novel <==> Novel(input, path, text)
    ensures CacheHolds(input, next)
  {
    hide BlocksUpTo, HasText;
    next := cache;
    if !input.hasBase {
      return true, next;
    }
    var earlier := OldPath(input, path);
    if earlier !in next {
      var lines := input.base(earlier);
      if |lines| == 0 {
        NoLines(input.size, text);
        return true, next;
      }
      var blocks := Blocks(lines, input.size);
      var texts := set k | 0 <= k < |blocks| :: blocks[k].text;
      forall t ensures t in texts <==> HasText(lines, input.size, t) {
        BlocksHaveText(lines, input.size, blocks, t);
      }
      next := next[earlier := texts];
    }
    novel := text !in next[earlier];
  }

  lemma NoLines(size: int, text: string)
    ensures !HasText([], size, text)
  {
    hide TextAt;
  }

  /** Whether any of the paths has the text newly. */
  method AnyNovel(input: Input, paths: set<string>, text: string, cache: Cache) returns (novel: bool, next: Cache)
    requires CacheHolds(input, cache)
    ensures novel <==> exists path :: path in paths && Novel(input, path, text)
    ensures CacheHolds(input, next)
  {
    hide CacheHolds, Novel;
    next := cache;
    var rest := paths;
    while rest != {}
      invariant rest <= paths && CacheHolds(input, next)
      invariant forall path :: path in paths - rest ==> !Novel(input, path, text)
    {
      var path :| path in rest;
      novel, next := NovelAtPath(input, path, text, next);
      if novel {
        return;
      }
      rest := rest - {path};
    }
    novel := false;
  }

  // ----- the findings -----

  /** Of the texts looked at, exactly the reported ones are found, each once and with all its places. */
  ghost predicate Found(input: Input, looked: set<string>, findings: seq<Finding>) {
    && (forall k :: 0 <= k < |findings| ==>
                      && findings[k].text in looked && Reported(input, findings[k].text)
                      && multiset(findings[k].locations) == multiset(AllPlaces(input, findings[k].text)))
    && (forall j, k :: 0 <= j < k < |findings| ==> findings[j].text != findings[k].text)
    && (forall text :: text in looked && Reported(input, text) ==> exists k :: 0 <= k < |findings| && findings[k].text == text)
  }

  /** The fast index reports what the plain one does: exactly the reported texts, with all their places. */
  method DuplicateFindings(input: Input) returns (findings: seq<Finding>)
    requires Distinct(input)
    ensures forall k :: 0 <= k < |findings| ==> multiset(findings[k].locations) == multiset(AllPlaces(input, findings[k].text))
    ensures forall j, k :: 0 <= j < k < |findings| ==> findings[j].text != findings[k].text
    ensures forall text :: Reported(input, text) <==> exists k :: 0 <= k < |findings| && findings[k].text == text
  {
    hide Indexed, Reported, CacheHolds, AllPlaces, Found;
    var index := BuildIndex(input);
    var cache: Cache := EmptyCache(input);
    var rest := index.Keys;
    findings := [];
    FoundNothing(input, index.Keys - rest);
    while rest != {}
      invariant rest <= index.Keys && CacheHolds(input, cache)
      invariant Found(input, index.Keys - rest, findings)
    {
      var text :| text in rest;
      var reported;
      EntryIsAllPlaces(input, index, text);
      reported, cache := Judge(input, text, index[text], cache);
      FoundStep(input, index.Keys - rest, findings, text, index[text], reported);
      if reported {
        findings := findings + [Finding(text, index[text])];
      }
      assert index.Keys - (rest - {text}) == (index.Keys - rest) + {text};
      rest := rest - {text};
    }
    assert index.Keys - {} == index.Keys;
    FoundAll(input, index, findings);
  }

  method EmptyCache(input: Input) returns (cache: Cache)
    ensures CacheHolds(input, cache)
  {
    cache := map[];
  }

  /** The filters on one entry of the index. */
  method Judge(input: Input, text: string, locations: seq<Location>, cache: Cache) returns (reported: bool, next: Cache)
    requires CacheHolds(input, cache)
    requires (set l | l in locations :: l.file) == FilesOf(AllPlaces(input, text))
    ensures reported <==> Reported(input, text)
    ensures CacheHolds(input, next)
  {
    hide CacheHolds, AllPlaces, Novel, Suppressed, Introduced;
    next := cache;
    var files := set l | l in locations :: l.file;
    if |files| < 2 {
      return false, next;
    }
    if Suppressed(input, files) {
      return false, next;
    }
    if RequireIntroduced(input) {
      var touched := set path | path in files && Introduced(input, path);
      if |touched| == 0 {
        assert touched == {};
        assert forall path :: path in files && Introduced(input, path) ==> path in touched;
        return false, next;
      }
      assert exists path :: path in touched;
      if input.hasBase {
        var novel;
        novel, next := AnyNovel(input, touched, text, next);
        if !novel {
          assert forall path :: path in files && Introduced(input, path) ==> path in touched;
          return false, next;
        }
      }
    }
    reported := true;
  }

  lemma FoundNothing(input: Input, looked: set<string>)
    requires looked == {}
    ensures Found(input, looked, [])
  {
  }

  lemma FoundStep(input: Input, looked: set<string>, findings: seq<Finding>, text: string, locations: seq<Location>, reported: bool)
    requires Found(input, looked, findings) && text !in looked
    requires reported <==> Reported(input, text)
    requires multiset(locations) == multiset(AllPlaces(input, text))
    ensures Found(input, looked + {text}, if reported then findings + [Finding(text, locations)] else findings)
  {
    hide Reported, AllPlaces;
    var next := if reported then findings + [Finding(text, locations)] else findings;
    forall t | t in looked + {text} && Reported(input, t) ensures exists k :: 0 <= k < |next| && next[k].text == t {
      if t in looked {
        var k :| 0 <= k < |findings| && findings[k].text == t;
        assert next[k] == findings[k];
      } else {
        assert next[|findings|].text == t;
      }
    }
  }

  lemma FoundAll(input: Input, index: Index, findings: seq<Finding>)
    requires Indexed(input, Seeds(input, |input.files|), Everywhere(input), index)
    requires Found(input, index.Keys, findings)
    ensures forall k :: 0 <= k < |findings| ==> multiset(findings[k].locations) == multiset(AllPlaces(input, findings[k].text))
    ensures forall j, k :: 0 <= j < k < |findings| ==> findings[j].text != findings[k].text
    ensures forall text :: Reported(input, text) <==> exists k :: 0 <= k < |findings| && findings[k].text == text
  {
    hide Reported, AllPlaces, Indexed;
    forall text ensures Reported(input, text) <==> exists k :: 0 <= k < |findings| && findings[k].text == text {
      if text !in index {
        UnindexedIsUnreported(input, index, text);
      }
    }
  }
}
