/**
  The bootstrap's recursive downloader. What a path resolves to, whether its
  download succeeds and which dependencies the local copy names are parameters.
 */
module Downloader {
  import opened Basics

  type Path = string

  const LIBRARY_BASE_DIRS: seq<Path> := ["/lib", "/usr/lib"]

  /** The ISO image and the dependency scanner, as far as the downloader sees them. */
  datatype World = World(
    clean: Path -> Path,            // the local copy's path: many spellings, one file
    image: set<Path>,               // clean paths of the files of the image
    resolves: Path -> bool,         // this spelling leads to a file
    downloadable: Path -> bool,
    imports: Path -> seq<string>,   // what the local copy at a clean path names
    join: (Path, string) -> Path)   // filepath.Join
  {
    predicate Findable(p: Path) { resolves(p) && clean(p) in image }

    function Dependencies(p: Path): seq<string> { imports(clean(p)) }
  }

  predicate IsAbsolute(d: string) { d != [] && d[0] == '/' }

  function FindFiles(world: World, paths: seq<Path>): (r: seq<Path>)
    ensures forall p :: p in r <==> p in paths && world.Findable(p)
  {
    if paths == [] then []
    else
      var init := FindFiles(world, paths[..|paths| - 1]);
      assert paths == paths[..|paths| - 1] + [paths[|paths| - 1]];
      if world.Findable(paths[|paths| - 1]) then init + [paths[|paths| - 1]] else init
  }

  /** Where a dependency may live: as it is, or under one of the library directories. */
  ghost predicate MayLiveAt(world: World, d: string, p: Path) {
    if IsAbsolute(d) then p == d
    else exists i :: 0 <= i < |LIBRARY_BASE_DIRS| && p == world.join(LIBRARY_BASE_DIRS[i], d)
  }

  ghost predicate Obtainable(world: World, p: Path) { world.Findable(p) && world.downloadable(p) }

  /** `q` is a downloadable dependency of `p`. */
  ghost predicate DependsOn(world: World, p: Path, q: Path) {
    Obtainable(world, q) && exists d :: d in world.Dependencies(p) && MayLiveAt(world, d, q)
  }

  ghost predicate Closed(world: World, s: set<Path>) {
    forall p, q :: p in s && DependsOn(world, p, q) ==> q in s
  }

  ghost predicate HasStart(world: World, start: seq<Path>, s: set<Path>) {
    forall p :: p in start && Obtainable(world, p) ==> p in s
  }

  ghost predicate NamedBy(world: World, files: set<Path>, d: string) {
    exists p :: p in files && d in world.Dependencies(p)
  }

  ghost predicate Distinct(s: seq<Path>) { forall i, j :: 0 <= i < j < |s| ==> s[i] != s[j] }

  /** Whatever a file of the image names is looked up at a path of this set. */
  ghost predicate LooksOnlyIn(world: World, universe: set<Path>) {
    forall c, d, q :: c in world.image && d in world.imports(c) && MayLiveAt(world, d, q) ==> q in universe
  }

  ghost function AllImports(world: World): set<string> {
    set c, i | c in world.image && 0 <= i < |world.imports(c)| :: world.imports(c)[i]
  }

  /** All paths ever looked up: the image has finitely many files, so they are finitely many, however often paths are respelled. */
  ghost function Universe(world: World, start: seq<Path>): set<Path> {
    (set p | p in start) + AllImports(world) +
    (set d, i | d in AllImports(world) && 0 <= i < |LIBRARY_BASE_DIRS| :: world.join(LIBRARY_BASE_DIRS[i], d))
  }

  lemma UniverseIsEnough(world: World, start: seq<Path>)
    ensures LooksOnlyIn(world, Universe(world, start))
    ensures forall p :: p in start ==> p in Universe(world, start)
  {
    forall c, d, q | c in world.image && d in world.imports(c) && MayLiveAt(world, d, q) ensures q in Universe(world, start) {
      var i :| 0 <= i < |world.imports(c)| && world.imports(c)[i] == d;
      assert d in AllImports(world);
    }
  }

  class Downloader {
    const world: World
    var finishedFiles: set<Path>
    var downloads: seq<Path>        // successful downloads, in order

    ghost predicate Valid()
      reads this
    {
      && (forall p :: p in finishedFiles ==> world.Findable(p))
      && Distinct(downloads)
      && forall p :: p in downloads <==> p in finishedFiles
    }

    constructor (world: World)
      ensures Valid() && this.world == world && finishedFiles == {} && downloads == []
    {
      this.world := world;
      finishedFiles, downloads := {}, [];
    }

    /** The entries not finished yet, and the dependencies their copies name. */
    method DownloadEntries(remoteFiles: seq<Path>) returns (libraryDeps: set<string>, pathDeps: set<string>, ghost added: set<Path>)
      requires Valid() && forall p :: p in remoteFiles ==> world.Findable(p)
      modifies this
      ensures Valid() && finishedFiles == old(finishedFiles) + added && added !! old(finishedFiles)
      ensures old(downloads) <= downloads
      ensures HasStart(world, remoteFiles, finishedFiles)
      ensures forall p :: p in added ==> p in remoteFiles && Obtainable(world, p)
      ensures forall d :: d in libraryDeps + pathDeps <==> NamedBy(world, added, d)
      ensures forall d :: d in libraryDeps ==> !IsAbsolute(d)
      ensures forall d :: d in pathDeps ==> IsAbsolute(d)
    {
      libraryDeps, pathDeps, added := {}, {}, {};
      for i := 0 to |remoteFiles|
        invariant Valid() && finishedFiles == old(finishedFiles) + added && added !! old(finishedFiles)
        invariant old(downloads) <= downloads
        invariant HasStart(world, remoteFiles[..i], finishedFiles)
        invariant forall p :: p in added ==> p in remoteFiles && Obtainable(world, p)
        invariant forall d :: d in libraryDeps + pathDeps <==> NamedBy(world, added, d)
        invariant forall d :: d in libraryDeps ==> !IsAbsolute(d)
        invariant forall d :: d in pathDeps ==> IsAbsolute(d)
      {
        var path := remoteFiles[i];
        assert remoteFiles[..i + 1] == remoteFiles[..i] + [path];
        if path in finishedFiles {
          continue;
        }
        if !world.downloadable(path) {
          continue;
        }
        finishedFiles := finishedFiles + {path};
        downloads := downloads + [path];
        var libs, paths := SortDependencies(world.Dependencies(path));
        assert forall d :: NamedBy(world, added + {path}, d) <==> NamedBy(world, added, d) || d in world.Dependencies(path) by {
          assert forall d :: d in world.Dependencies(path) ==> path in added + {path} && d in world.Dependencies(path);
        }
        libraryDeps, pathDeps, added := libraryDeps + libs, pathDeps + paths, added + {path};
      }
      assert remoteFiles[..|remoteFiles|] == remoteFiles;
    }

    /**
      Downloads the files and, recursively, everything they depend on. A call
      recurses only after finishing a file, so the unfinished files shrink.
     */
    method DownloadWithDependencies(remoteFiles: seq<Path>, ghost universe: set<Path>)
      requires finishedFiles <= universe && LooksOnlyIn(world, universe) && forall p :: p in remoteFiles ==> p in universe
      requires Valid() && forall p :: p in remoteFiles ==> world.Findable(p)
      modifies this
      ensures Valid() && old(finishedFiles) <= finishedFiles && old(downloads) <= downloads
      ensures HasStart(world, remoteFiles, finishedFiles)
      ensures forall p :: p in finishedFiles - old(finishedFiles) ==> Obtainable(world, p)
      ensures forall p, q :: p in finishedFiles - old(finishedFiles) && DependsOn(world, p, q) ==> q in finishedFiles
      ensures forall s :: Closed(world, s) && HasStart(world, remoteFiles, s) ==> finishedFiles - old(finishedFiles) <= s
      decreases |universe - finishedFiles|
    {
      var libraryDeps, pathDeps;
      ghost var added;
      libraryDeps, pathDeps, added := DownloadEntries(remoteFiles);
      var possiblePaths := PossiblePaths(world, libraryDeps, pathDeps);
      var foundLibraries := FindFiles(world, possiblePaths);
      ghost var between := finishedFiles;
      FoundAreDependencies(world, added, libraryDeps, pathDeps, possiblePaths, foundLibraries);
      if |foundLibraries| > 0 {
        NothingFoundWithoutFiles(world, added, libraryDeps, pathDeps, possiblePaths, foundLibraries);
        SubsetSize(universe - between, universe - old(finishedFiles));
        FoundInUniverse(world, added, libraryDeps, pathDeps, possiblePaths, foundLibraries, universe);
        DownloadWithDependencies(foundLibraries, universe);
      }
      forall s | Closed(world, s) && HasStart(world, remoteFiles, s) ensures finishedFiles - old(finishedFiles) <= s {
        assert added <= s;
        assert HasStart(world, foundLibraries, s);
      }
    }
  }

  /** What the lookups find: every downloadable dependency of the new files, and nothing else. */
  lemma FoundAreDependencies(world: World, added: set<Path>, libraryDeps: set<string>, pathDeps: set<string>, paths: seq<Path>, found: seq<Path>)
    requires forall d :: d in libraryDeps + pathDeps <==> NamedBy(world, added, d)
    requires forall d :: d in libraryDeps ==> !IsAbsolute(d)
    requires forall d :: d in pathDeps ==> IsAbsolute(d)
    requires LooksUp(world, libraryDeps, pathDeps, paths) && found == FindFiles(world, paths)
    ensures forall q :: q in found && world.downloadable(q) ==> exists p :: p in added && DependsOn(world, p, q)
    ensures forall p, q :: p in added && DependsOn(world, p, q) ==> q in found
  {
    forall q | q in found && world.downloadable(q) ensures exists p :: p in added && DependsOn(world, p, q) {
      var d :| d in libraryDeps + pathDeps && MayLiveAt(world, d, q);
      assert NamedBy(world, added, d);
      var p :| p in added && d in world.Dependencies(p);
      assert DependsOn(world, p, q);
    }
    forall p, q | p in added && DependsOn(world, p, q) ensures q in found {
      var d :| d in world.Dependencies(p) && MayLiveAt(world, d, q);
      assert NamedBy(world, added, d);
    }
  }

  lemma FoundInUniverse(world: World, added: set<Path>, libraryDeps: set<string>, pathDeps: set<string>, paths: seq<Path>, found: seq<Path>, universe: set<Path>)
    requires forall d :: d in libraryDeps + pathDeps <==> NamedBy(world, added, d)
    requires forall p :: p in added ==> world.Findable(p)
    requires LooksUp(world, libraryDeps, pathDeps, paths) && found == FindFiles(world, paths) && LooksOnlyIn(world, universe)
    ensures forall p :: p in found ==> p in universe
  {
    forall p | p in found ensures p in universe {
      var d :| d in libraryDeps + pathDeps && MayLiveAt(world, d, p);
      assert NamedBy(world, added, d);
      var f :| f in added && d in world.Dependencies(f);
      assert world.clean(f) in world.image && d in world.imports(world.clean(f));
    }
  }

  lemma NothingFoundWithoutFiles(world: World, added: set<Path>, libraryDeps: set<string>, pathDeps: set<string>, paths: seq<Path>, found: seq<Path>)
    requires forall d :: d in libraryDeps + pathDeps <==> NamedBy(world, added, d)
    requires LooksUp(world, libraryDeps, pathDeps, paths) && found == FindFiles(world, paths) && found != []
    ensures added != {}
  {
    assert found[0] in paths;
    var d :| d in libraryDeps + pathDeps && MayLiveAt(world, d, found[0]);
    assert NamedBy(world, added, d);
  }

  /** A name that starts with a slash is looked up as it is. */
  lemma AbsoluteIsAPath(world: World, rest: string, p: Path)
    ensures MayLiveAt(world, "/" + rest, p) <==> p == "/" + rest
  {}

  /** Any other name is looked up in the two library directories. */
  lemma LibraryIsInTwoPlaces(world: World, d: string, p: Path)
    requires !("/" <= d)
    ensures MayLiveAt(world, d, p) <==> p == world.join("/lib", d) || p == world.join("/usr/lib", d)
  {
    assert LIBRARY_BASE_DIRS[0] == "/lib" && LIBRARY_BASE_DIRS[1] == "/usr/lib";
  }

  /** So a file depends on exactly the obtainable files at the places of the names it imports. */
  lemma DependsOnMeans(world: World, p: Path, q: Path)
    ensures DependsOn(world, p, q) <==>
      && world.resolves(q) && world.clean(q) in world.image && world.downloadable(q)
      && exists d :: d in world.imports(world.clean(p)) &&
           if "/" <= d then q == d else q == world.join("/lib", d) || q == world.join("/usr/lib", d)
  {
    forall d | d in world.Dependencies(p)
      ensures MayLiveAt(world, d, q) <==> if "/" <= d then q == d else q == world.join("/lib", d) || q == world.join("/usr/lib", d)
    {
      if "/" <= d {
        assert d == "/" + d[1..];
        AbsoluteIsAPath(world, d[1..], q);
      } else {
        LibraryIsInTwoPlaces(world, d, q);
      }
    }
    hide MayLiveAt;
    assert world.Dependencies(p) == world.imports(world.clean(p));
  }

  /** The paths tried for a set of dependencies, in whatever order. */
  ghost predicate LooksUp(world: World, libraryDeps: set<string>, pathDeps: set<string>, paths: seq<Path>) {
    forall p :: p in paths <==> exists d :: d in libraryDeps + pathDeps && MayLiveAt(world, d, p)
  }

  method SortDependencies(deps: seq<string>) returns (libs: set<string>, paths: set<string>)
    ensures forall d :: d in libs <==> d in deps && !("/" <= d)
    ensures forall d :: d in paths <==> d in deps && "/" <= d
  {
    libs, paths := {}, {};
    for i := 0 to |deps|
      invariant forall d :: d in libs <==> d in deps[..i] && !IsAbsolute(d)
      invariant forall d :: d in paths <==> d in deps[..i] && IsAbsolute(d)
    {
      if IsAbsolute(deps[i]) {
        paths := paths + {deps[i]};
      } else {
        libs := libs + {deps[i]};
      }
    }
  }

  /** Every way to look the dependencies up; a Go map is walked in any order. */
  method PossiblePaths(world: World, libraryDeps: set<string>, pathDeps: set<string>) returns (paths: seq<Path>)
    requires forall d :: d in libraryDeps ==> !IsAbsolute(d)
    requires forall d :: d in pathDeps ==> IsAbsolute(d)
    ensures LooksUp(world, libraryDeps, pathDeps, paths)
  {
    paths := [];
    for i := 0 to |LIBRARY_BASE_DIRS|
      invariant forall p :: p in paths <==> InLibraries(world, libraryDeps, i, p)
    {
      ghost var before := paths;
      var rest := libraryDeps;
      while rest != {}
        invariant rest <= libraryDeps
        invariant forall p :: p in paths <==> p in before || exists d :: d in libraryDeps - rest && p == world.join(LIBRARY_BASE_DIRS[i], d)
        decreases rest
      {
        var lib :| lib in rest;
        paths := paths + [world.join(LIBRARY_BASE_DIRS[i], lib)];
        assert libraryDeps - (rest - {lib}) == libraryDeps - rest + {lib};
        rest := rest - {lib};
      }
      assert libraryDeps - rest == libraryDeps;
    }
    ghost var libraries := paths;
    var rest := pathDeps;
    while rest != {}
      invariant rest <= pathDeps
      invariant forall p :: p in paths <==> p in libraries || p in pathDeps - rest
      decreases rest
    {
      var d :| d in rest;
      paths := paths + [d];
      rest := rest - {d};
    }
    assert pathDeps - rest == pathDeps;
    forall p ensures p in paths <==> exists d :: d in libraryDeps + pathDeps && MayLiveAt(world, d, p) {
      if p in pathDeps {
        assert MayLiveAt(world, p, p);
      }
      if InLibraries(world, libraryDeps, |LIBRARY_BASE_DIRS|, p) {
        var j, d :| 0 <= j < |LIBRARY_BASE_DIRS| && d in libraryDeps && p == world.join(LIBRARY_BASE_DIRS[j], d);
        assert MayLiveAt(world, d, p);
      }
    }
  }

  ghost predicate InLibraries(world: World, libraryDeps: set<string>, n: nat, p: Path)
    requires n <= |LIBRARY_BASE_DIRS|
  {
    exists j, d :: 0 <= j < n && d in libraryDeps && p == world.join(LIBRARY_BASE_DIRS[j], d)
  }

  /** The bootstrap's use: the finished files are the least closed set above the required ones. */
  method DownloadAll(world: World, requiredFiles: seq<Path>) returns (finished: set<Path>, downloads: seq<Path>)
    ensures Closed(world, finished) && HasStart(world, requiredFiles, finished)
    ensures forall s :: Closed(world, s) && HasStart(world, requiredFiles, s) ==> finished <= s
    ensures Distinct(downloads) && forall p :: p in downloads <==> p in finished
  {
    var d := new Downloader(world);
    var foundFiles := FindFiles(world, requiredFiles);
    UniverseIsEnough(world, requiredFiles);
    d.DownloadWithDependencies(foundFiles, Universe(world, requiredFiles));
    finished, downloads := d.finishedFiles, d.downloads;
    forall s | Closed(world, s) && HasStart(world, requiredFiles, s) ensures finished <= s {
      assert HasStart(world, foundFiles, s);
    }
  }

  // ----- the least set, described by chains of dependencies

  ghost predicate Chain(world: World, start: seq<Path>, chain: seq<Path>) {
    && chain != [] && chain[0] in start && Obtainable(world, chain[0])
    && forall i :: 0 <= i < |chain| - 1 ==> DependsOn(world, chain[i], chain[i + 1])
  }

  ghost predicate Reachable(world: World, start: seq<Path>, p: Path) {
    exists chain :: Chain(world, start, chain) && chain[|chain| - 1] == p
  }

  lemma {:induction false} ChainStaysInside(world: World, start: seq<Path>, chain: seq<Path>, s: set<Path>)
    requires Chain(world, start, chain) && Closed(world, s) && HasStart(world, start, s)
    ensures chain[|chain| - 1] in s
  {
    if |chain| > 1 {
      var shorter := chain[..|chain| - 1];
      assert Chain(world, start, shorter);
      ChainStaysInside(world, start, shorter, s);
      assert DependsOn(world, shorter[|shorter| - 1], chain[|chain| - 1]);
    }
  }

  /** The least closed set is what dependency chains from the downloadable start files reach. */
  lemma LeastIsReachable(world: World, start: seq<Path>, finished: set<Path>)
    requires Closed(world, finished) && HasStart(world, start, finished)
    requires forall s :: Closed(world, s) && HasStart(world, start, s) ==> finished <= s
    ensures forall p :: p in finished <==> Reachable(world, start, p)
  {
    forall p | Reachable(world, start, p) ensures p in finished {
      var chain :| Chain(world, start, chain) && chain[|chain| - 1] == p;
      ChainStaysInside(world, start, chain, finished);
    }
    var reached := set p | p in finished && Reachable(world, start, p);
    forall p, q | p in reached && DependsOn(world, p, q) ensures q in reached {
      var chain :| Chain(world, start, chain) && chain[|chain| - 1] == p;
      assert Chain(world, start, chain + [q]) && (chain + [q])[|chain|] == q;
    }
    forall p | p in start && Obtainable(world, p) ensures p in reached {
      assert Chain(world, start, [p]) && [p][0] == p;
    }
    assert Closed(world, reached) && HasStart(world, start, reached);
  }
}
