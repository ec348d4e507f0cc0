/**
 The static import closure of a set of entrypoints: a worklist over the repository's files that also takes in
 `package.json` once a reached source uses a `#` import.
 */
module ImportClosure {
  import opened Basics

  const PACKAGE := "package.json"

  /** The files there are, with the import specifiers found in each, and what a specifier resolves to. */
  datatype Repo = Repo(files: map<string, seq<string>>, resolve: (string, string) -> Option<string>)

  predicate EndsWith(s: string, t: string) {
    |t| <= |s| && s[|s| - |t|..] == t
  }

  /** Sources are scanned for imports, other files are not. */
  predicate Scannable(path: string) {
    EndsWith(path, ".ts") || EndsWith(path, ".cts") || EndsWith(path, ".mts") || EndsWith(path, ".mjs") || EndsWith(path, ".js")
  }

  predicate Scanned(repo: Repo, path: string) {
    path in repo.files && Scannable(path)
  }

  predicate HashImport(specifier: string) {
    specifier != "" && specifier[0] == '#'
  }

  /** Resolution ends at files that are there. */
  ghost predicate Resolves(repo: Repo) {
    forall importer, specifier :: repo.resolve(importer, specifier).Some? ==> repo.resolve(importer, specifier).value in repo.files
  }

  predicate Imports(repo: Repo, importer: string, target: string) {
    Scanned(repo, importer)
    && exists i :: 0 <= i < |repo.files[importer]| && repo.files[importer][i] != ""
                   && repo.resolve(importer, repo.files[importer][i]) == Some(target)
  }

  predicate UsesHash(repo: Repo, path: string) {
    Scanned(repo, path) && exists i :: 0 <= i < |repo.files[path]| && HashImport(repo.files[path][i])
  }

  /** Closed under resolved imports. */
  ghost predicate Closed(repo: Repo, s: set<string>) {
    forall f, t :: f in s && Imports(repo, f, t) ==> t in s
  }

  ghost predicate HasPackage(repo: Repo, s: set<string>) {
    (exists f :: f in s && UsesHash(repo, f)) ==> PACKAGE in s
  }

  ghost predicate Sufficient(repo: Repo, entrypoints: seq<string>, s: set<string>) {
    && (forall e :: e in entrypoints ==> e in s)
    && Closed(repo, s) && HasPackage(repo, s)
  }

  /** The least sufficient set. */
  ghost predicate IsClosure(repo: Repo, entrypoints: seq<string>, s: set<string>) {
    && Sufficient(repo, entrypoints, s)
    && forall t :: Sufficient(repo, entrypoints, t) ==> s <= t
  }

  /** Everything visited has its imports visited or still pending. */
  ghost predicate Covered(repo: Repo, visited: set<string>, pending: seq<string>) {
    forall f, t :: f in visited && Imports(repo, f, t) ==> t in visited || t in pending
  }

  /** What holds between two rounds of the worklist. */
  ghost predicate Working(repo: Repo, entrypoints: seq<string>, universe: set<string>, visited: set<string>, pending: seq<string>) {
    && visited <= universe && (forall p :: p in pending ==> p in universe)
    && (forall e :: e in entrypoints ==> e in visited || e in pending)
    && Covered(repo, visited, pending) && HasPackage(repo, visited)
    && forall s :: Sufficient(repo, entrypoints, s) ==> visited <= s && forall p :: p in pending ==> p in s
  }

  method StaticDependencyClosure(repo: Repo, entrypoints: seq<string>) returns (visited: set<string>)
    requires Resolves(repo)
    ensures IsClosure(repo, entrypoints, visited)
  {
    hide Working, Scanned, IsClosure, Covered, HasPackage, Sufficient, Resolves;
    var pending := entrypoints;
    visited := {};
    ghost var universe := repo.files.Keys + (set e | e in entrypoints) + {PACKAGE};
    WorkingAtFirst(repo, entrypoints, universe);
    while |pending| > 0
      invariant repo.files.Keys + {PACKAGE} <= universe
      invariant Working(repo, entrypoints, universe, visited, pending)
      decreases |universe - visited|, |pending|
    {
      var current := pending[|pending| - 1];
      LastSplit(pending);
      pending := pending[..|pending| - 1];
      if current in visited {
        WorkingOnVisited(repo, entrypoints, universe, visited, pending, current);
        continue;
      }
      Shrinks(repo, entrypoints, universe, visited, pending, current);
      if !Scanned(repo, current) {
        WorkingOnOther(repo, entrypoints, universe, visited, pending, current);
        visited := visited + {current};
        continue;
      }
      visited, pending := ScanSource(repo, entrypoints, universe, visited, current, pending);
    }
    WorkingAtLast(repo, entrypoints, universe, visited);
  }

  lemma WorkingAtFirst(repo: Repo, entrypoints: seq<string>, universe: set<string>)
    requires forall e :: e in entrypoints ==> e in universe
    ensures Working(repo, entrypoints, universe, {}, entrypoints)
  {
  }

  lemma WorkingAtLast(repo: Repo, entrypoints: seq<string>, universe: set<string>, visited: set<string>)
    requires Working(repo, entrypoints, universe, visited, [])
    ensures IsClosure(repo, entrypoints, visited)
  {
  }

  lemma WorkingOnVisited(
    repo: Repo, entrypoints: seq<string>, universe: set<string>, visited: set<string>, pending: seq<string>, current: string)
    requires Working(repo, entrypoints, universe, visited, pending + [current]) && current in visited
    ensures Working(repo, entrypoints, universe, visited, pending)
  {
    hide Scanned, Sufficient, HasPackage;
  }

  lemma WorkingOnOther(
    repo: Repo, entrypoints: seq<string>, universe: set<string>, visited: set<string>, pending: seq<string>, current: string)
    requires Working(repo, entrypoints, universe, visited, pending + [current]) && !Scanned(repo, current)
    ensures Working(repo, entrypoints, universe, visited + {current}, pending)
  {
    hide Scanned, Sufficient;
  }

  lemma WorkingOnSource(
    repo: Repo, entrypoints: seq<string>, universe: set<string>, visited: set<string>, pending: seq<string>, current: string)
    requires Working(repo, entrypoints, universe, visited, pending + [current])
    ensures visited + {current} <= universe && forall p :: p in pending ==> p in universe
    ensures Covered(repo, visited, pending + [current]) && HasPackage(repo, visited)
    ensures forall s :: Sufficient(repo, entrypoints, s) ==> visited + {current} <= s && forall p :: p in pending ==> p in s
  {
    hide Scanned, Sufficient, HasPackage, Covered;
    assert current in pending + [current];
  }

  lemma WorkingAgain(
    repo: Repo, entrypoints: seq<string>, universe: set<string>, before: set<string>, all: seq<string>,
    visited: set<string>, pending: seq<string>)
    requires |all| > 0 && Working(repo, entrypoints, universe, before, all)
    requires before + {all[|all| - 1]} <= visited <= universe && forall p :: p in pending ==> p in universe
    requires forall p :: p in all[..|all| - 1] ==> p in pending
    requires Covered(repo, visited, pending) && HasPackage(repo, visited)
    requires forall s :: Sufficient(repo, entrypoints, s) ==> visited <= s && forall p :: p in pending ==> p in s
    ensures Working(repo, entrypoints, universe, visited, pending)
  {
    hide Scanned, Sufficient, HasPackage, Covered;
    assert all == all[..|all| - 1] + [all[|all| - 1]];
  }

  lemma Shrinks(
    repo: Repo, entrypoints: seq<string>, universe: set<string>, visited: set<string>, pending: seq<string>, current: string)
    requires Working(repo, entrypoints, universe, visited, pending + [current]) && current !in visited
    ensures |universe - (visited + {current})| < |universe - visited|
  {
    hide Scanned, Sufficient, HasPackage, Covered;
    assert current in pending + [current];
    assert universe - (visited + {current}) < universe - visited;
    SubsetSize(universe - (visited + {current}), universe - visited);
  }

  /** Scans one source: a `#` import marks `package.json` at once, a resolved import waits its turn. */
  method ScanSource(
    repo: Repo, ghost entrypoints: seq<string>, ghost universe: set<string>,
    before: set<string>, current: string, start: seq<string>) returns (visited: set<string>, pending: seq<string>)
    requires Resolves(repo) && Scanned(repo, current) && repo.files.Keys + {PACKAGE} <= universe
    requires Working(repo, entrypoints, universe, before, start + [current])
    ensures Working(repo, entrypoints, universe, visited, pending)
    ensures |universe - visited| <= |universe - (before + {current})|
  {
    hide Working, Covered;
    WorkingOnSource(repo, entrypoints, universe, before, start, current);
    visited, pending := before + {current}, start;
    var found := repo.files[current];
    var n := 0;
    while n < |found|
      invariant 0 <= n <= |found|
      invariant before + {current} <= visited <= before + {current, PACKAGE}
      invariant forall p :: p in start ==> p in pending
      invariant forall p :: p in pending ==> p in universe
      invariant forall i :: 0 <= i < n && HashImport(found[i]) ==> PACKAGE in visited
      invariant forall i :: 0 <= i < n && found[i] != "" && repo.resolve(current, found[i]).Some? ==>
                              repo.resolve(current, found[i]).value in visited || repo.resolve(current, found[i]).value in pending
      invariant forall s :: Sufficient(repo, entrypoints, s) ==> visited <= s && forall p :: p in pending ==> p in s
    {
      var specifier := found[n];
      if specifier != "" {
        if HashImport(specifier) {
          assert UsesHash(repo, current);
          visited := visited + {PACKAGE};
        }
        var resolved := repo.resolve(current, specifier);
        if resolved.Some? && resolved.value !in visited {
          assert Imports(repo, current, resolved.value);
          pending := pending + [resolved.value];
        }
      }
      n := n + 1;
    }
    SourceScanned(repo, before, current, start, visited, pending);
    WorkingAgain(repo, entrypoints, universe, before, start + [current], visited, pending);
    SubsetSize(universe - visited, universe - (before + {current}));
  }

  lemma SourceScanned(
    repo: Repo, before: set<string>, current: string, start: seq<string>, visited: set<string>, pending: seq<string>)
    requires Scanned(repo, current) && Covered(repo, before, start + [current]) && HasPackage(repo, before)
    requires before + {current} <= visited <= before + {current, PACKAGE} && forall p :: p in start ==> p in pending
    requires var found := repo.files[current];
             && (forall i :: 0 <= i < |found| && HashImport(found[i]) ==> PACKAGE in visited)
             && (forall i :: 0 <= i < |found| && found[i] != "" && repo.resolve(current, found[i]).Some? ==>
                               repo.resolve(current, found[i]).value in visited || repo.resolve(current, found[i]).value in pending)
    ensures Covered(repo, visited, pending) && HasPackage(repo, visited)
  {
    NotScanned(repo);
    hide Scannable;
    forall f, t | f in visited && Imports(repo, f, t) ensures t in visited || t in pending {
      if f != current && f != PACKAGE {
        assert t in before || t in start + [current];
      }
    }
  }

  lemma LastSplit<T>(s: seq<T>)
    requires s != []
    ensures s == s[..|s| - 1] + [s[|s| - 1]]
  {
  }

  lemma SubsetSize<T>(a: set<T>, b: set<T>)
    requires a <= b
    ensures |a| <= |b| && (a < b ==> |a| < |b|)
  {
    var rest := b - a;
    assert b == a + rest;
    assert rest == {} ==> b == a;
  }

  lemma NotScanned(repo: Repo)
    ensures !Scanned(repo, PACKAGE)
  {
    assert PACKAGE[11] == 'n';
    assert ".ts"[2] == 's' && ".cts"[3] == 's' && ".mts"[3] == 's' && ".mjs"[3] == 's' && ".js"[2] == 's';
    assert forall t :: EndsWith(PACKAGE, t) && t != "" ==> t[|t| - 1] == PACKAGE[11] by {
      forall t | EndsWith(PACKAGE, t) && t != "" ensures t[|t| - 1] == PACKAGE[11] {
        assert PACKAGE[|PACKAGE| - |t|..][|t| - 1] == t[|t| - 1];
      }
    }
  }

  lemma PackageIsLeaf(repo: Repo)
    ensures !UsesHash(repo, PACKAGE) && forall t :: !Imports(repo, PACKAGE, t)
  {
    NotScanned(repo);
    hide Scanned;
  }

  ghost predicate Reaching(repo: Repo, entrypoints: seq<string>, s: set<string>) {
    (forall e :: e in entrypoints ==> e in s) && Closed(repo, s)
  }

  /** The files that imports alone reach: the least set holding the entrypoints and closed under imports. */
  ghost predicate IsReached(repo: Repo, entrypoints: seq<string>, s: set<string>) {
    Reaching(repo, entrypoints, s) && forall t :: Reaching(repo, entrypoints, t) ==> s <= t
  }

  /** Marking `package.json` never loses a file: the closure is what imports reach, plus it when a reached source uses `#`. */
  lemma ClosureIsReachedPlusPackage(repo: Repo, entrypoints: seq<string>, closure: set<string>) returns (reached: set<string>)
    requires IsClosure(repo, entrypoints, closure)
    ensures IsReached(repo, entrypoints, reached)
    ensures closure == reached + if exists f :: f in reached && UsesHash(repo, f) then {PACKAGE} else {}
  {
    PackageIsLeaf(repo);
    hide Imports, UsesHash, Scanned;
    reached := set f | f in closure && forall t :: Reaching(repo, entrypoints, t) ==> f in t;
    assert Reaching(repo, entrypoints, reached);
    assert Reaching(repo, entrypoints, closure);
    var all := reached + if exists f :: f in reached && UsesHash(repo, f) then {PACKAGE} else {};
    assert Sufficient(repo, entrypoints, all);
  }

  // ----- what an import is -----

  /** A path that is scanned: a name and one of the five endings. */
  ghost predicate IsSource(path: string) {
    exists stem, ending :: ending in {".ts", ".cts", ".mts", ".mjs", ".js"} && path == stem + ending
  }

  lemma EndsExactly(s: string, t: string)
    ensures EndsWith(s, t) <==> exists stem :: s == stem + t
  {
    if EndsWith(s, t) {
      assert s == s[..|s| - |t|] + t;
    }
    if stem :| s == stem + t {
      assert s[|s| - |t|..] == t;
    }
  }

  lemma SourceExactly(path: string)
    ensures Scannable(path) <==> IsSource(path)
  {
    hide EndsWith;
    forall ending ensures EndsWith(path, ending) <==> exists stem :: path == stem + ending {
      EndsExactly(path, ending);
    }
    if IsSource(path) {
      var stem, ending :| ending in {".ts", ".cts", ".mts", ".mjs", ".js"} && path == stem + ending;
      assert EndsWith(path, ending);
    }
    if Scannable(path) {
      var ending :| ending in {".ts", ".cts", ".mts", ".mjs", ".js"} && EndsWith(path, ending);
      var stem :| path == stem + ending;
    }
  }

  /** A source imports what a nonempty specifier in it resolves to, and asks for the package file by one that begins with `#`. */
  lemma ImportsExactly(repo: Repo, importer: string, target: string)
    ensures Imports(repo, importer, target) <==>
            && importer in repo.files && IsSource(importer)
            && exists s :: s in repo.files[importer] && s != "" && repo.resolve(importer, s) == Some(target)
    ensures UsesHash(repo, importer) <==>
            importer in repo.files && IsSource(importer) && exists s :: s in repo.files[importer] && "#" <= s
  {
    hide Scannable, IsSource;
    SourceExactly(importer);
    if importer in repo.files {
      var specifiers := repo.files[importer];
      forall s ensures HashImport(s) <==> "#" <= s {
        assert "#" <= s <==> s != "" && s[..1] == "#";
        assert s != "" ==> s[..1] == [s[0]];
      }
      assert forall i :: 0 <= i < |specifiers| ==> specifiers[i] in specifiers;
    }
  }
}
