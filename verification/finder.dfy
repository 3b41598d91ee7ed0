/** `ClassFinder`: the places to search, keyed by absolute path in the
    order they were added; the map of classes loaded by the current search;
    and whether an empty result is an error.

    What the environment decides is a parameter (`Env`): the working
    directory, which absolute paths name a jar, zip or directory that can
    hold classes, the manifest of each jar, the file system and the
    class-file reader. */
module Finder {
  import opened Optional
  import opened Classes
  import opened Hierarchy
  import opened Filters
  import opened Registries
  import opened Paths
  import opened Manifests
  import opened Loading
  import opened Seqs

  /** `placesToSearch`: pairs (absolute path, file as given), in insertion order. */
  type Places = seq<(Path, Path)>

  /** The absolute paths already present. */
  function Placed(places: Places): set<Path> {
    set i | 0 <= i < |places| :: places[i].0
  }

  /** Each absolute path occurs once, as in a map. */
  predicate DistinctPlaces(places: Places) {
    forall i, j | 0 <= i < j < |places| :: places[i].0 != places[j].0
  }

  /** The files as given, in insertion order: `placesToSearch.values()`. */
  function Roots(places: Places): (roots: seq<Path>)
    ensures |roots| == |places|
    ensures forall i | 0 <= i < |places| :: roots[i] == places[i].1
  {
    if places == [] then [] else [places[0].1] + Roots(places[1..])
  }

  datatype Finder = Finder(places: Places, found: Registry, errorIfResultEmpty: bool)

  /** `new ClassFinder()`. */
  const NewFinder: Finder := Finder([], Empty, false)

  datatype Env = Env(
    cwd: Path,
    containers: set<Path>,                 // `ClassUtil.fileCanContainClasses`, by absolute path
    manifests: map<Path, JarManifest>,     // by absolute path; a missing jar does not open
    fs: FileSystem,
    read: ClassReader)

  function ManifestOf(env: Env, abs: Path): JarManifest {
    if abs in env.manifests then env.manifests[abs] else Unreadable
  }

  // ---------------------------------------------------------------------
  // Adding places to search

  /** `add(File)`: a file that can hold classes is recorded under its
      absolute path unless that path is already there; a jar recorded for
      the first time has its manifest expanded after it by
      `loadJarClassPathEntries`, which adds one path per `Class-Path` key
      (see `ExpansionAsWritten`). The answer is whether the file can hold classes. */
  function Add(env: Env, f: Finder, file: Path): (r: (Finder, bool))
    ensures r.1 <==> Absolute(env.cwd, file) in env.containers
    ensures !r.1 || Absolute(env.cwd, file) in Placed(f.places) ==> r.0 == f
    ensures r.1 ==> Absolute(env.cwd, file) in Placed(r.0.places)
    ensures r.1 && Absolute(env.cwd, file) !in Placed(f.places) ==>
      |f.places| < |r.0.places| && r.0.places[|f.places|] == (Absolute(env.cwd, file), file)
    ensures r.1 && Absolute(env.cwd, file) !in Placed(f.places) && !IsJar(Absolute(env.cwd, file)) ==>
      r.0.places == f.places + [(Absolute(env.cwd, file), file)]
    ensures r.1 && Absolute(env.cwd, file) !in Placed(f.places) && IsJar(Absolute(env.cwd, file)) ==>
      forall p | p in ExpansionAsWritten(file, ManifestOf(env, Absolute(env.cwd, file)))
                 && Absolute(env.cwd, p) in env.containers :: Absolute(env.cwd, p) in Placed(r.0.places)
    ensures f.places <= r.0.places
    ensures Placed(f.places) <= Placed(r.0.places) <= Placed(f.places) + env.containers
    ensures DistinctPlaces(f.places) ==> DistinctPlaces(r.0.places)
    ensures r.0.found == f.found && r.0.errorIfResultEmpty == f.errorIfResultEmpty
    decreases env.containers - Placed(f.places), 1
  {
    var abs := Absolute(env.cwd, file);
    if abs !in env.containers || abs in Placed(f.places) then (f, abs in env.containers)
    else
      var f1 := f.(places := f.places + [(abs, file)]);
      PlaceNew(f.places, abs, file);
      if IsJar(abs) then
        var more := AddEach(env, f1, ExpansionAsWritten(file, ManifestOf(env, abs)));
        assert more.0.places[..|f1.places|] == f1.places;
        (more.0, true)
      else (f1, true)
  }

  /** Recording a path not yet present adds exactly that path and keeps
      the paths distinct. */
  lemma PlaceNew(places: Places, abs: Path, file: Path)
    requires abs !in Placed(places)
    ensures Placed(places + [(abs, file)]) == Placed(places) + {abs}
    ensures DistinctPlaces(places) ==> DistinctPlaces(places + [(abs, file)])
  {
    var ps := places + [(abs, file)];
    assert forall i | 0 <= i < |places| :: ps[i] == places[i];
    assert ps[|places|].0 == abs;
    assert forall i | 0 <= i < |places| :: places[i].0 in Placed(places);
  }

  /** The loop of `add(File[])` and `add(Collection)`: each file in turn;
      the count is how many of the calls answered true. */
  function AddEach(env: Env, f: Finder, files: seq<Path>): (r: (Finder, nat))
    ensures r.1 == CanHoldCount(env, files)
    ensures forall i | 0 <= i < |files| && Absolute(env.cwd, files[i]) in env.containers ::
      Absolute(env.cwd, files[i]) in Placed(r.0.places)
    ensures f.places <= r.0.places
    ensures Placed(f.places) <= Placed(r.0.places) <= Placed(f.places) + env.containers
    ensures DistinctPlaces(f.places) ==> DistinctPlaces(r.0.places)
    ensures r.0.found == f.found && r.0.errorIfResultEmpty == f.errorIfResultEmpty
    decreases env.containers - Placed(f.places), 2, |files|
  {
    if files == [] then (f, 0)
    else
      var first := Add(env, f, files[0]);
      var rest := AddEach(env, first.0, files[1..]);
      (rest.0, (if first.1 then 1 else 0) + rest.1)
  }

  /** How many of `files` name, by absolute path, something that can hold classes. */
  function CanHoldCount(env: Env, files: seq<Path>): (n: nat)
    ensures n <= |files|
  {
    |Keep(p => Absolute(env.cwd, p) in env.containers, files)|
  }

  /** `add(File[])` and `add(Collection)`. */
  function AddAll(env: Env, f: Finder, files: seq<Path>): (r: (Finder, nat))
    ensures r.1 == CanHoldCount(env, files)
    ensures r.1 <= |files|
    ensures forall i | 0 <= i < |files| && Absolute(env.cwd, files[i]) in env.containers ::
      Absolute(env.cwd, files[i]) in Placed(r.0.places)
  {
    AddEach(env, f, files)
  }

  /** Adding the same file again changes nothing and gives the same answer. */
  lemma AddTwice(env: Env, f: Finder, file: Path)
    ensures var once := Add(env, f, file);
      Add(env, once.0, file) == once
  {}

  /** Re-adding every file already added counts each of them again. */
  lemma ReAddCounts(env: Env, f: Finder, files: seq<Path>)
    requires forall i | 0 <= i < |files| :: Absolute(env.cwd, files[i]) in Placed(f.places)
    requires Placed(f.places) <= env.containers
    ensures AddAll(env, f, files) == (f, |files|)
  {
    ReAddUnchanged(env, f, files);
  }

  lemma {:induction false} ReAddUnchanged(env: Env, f: Finder, files: seq<Path>)
    requires forall i | 0 <= i < |files| :: Absolute(env.cwd, files[i]) in Placed(f.places)
    requires Placed(f.places) <= env.containers
    ensures AddEach(env, f, files) == (f, |files|)
  {
    if files != [] {
      ReAddUnchanged(env, f, files[1..]);
    }
  }

  /** `clear()`: no places and no loaded classes; the error flag stays. */
  function Clear(f: Finder): (r: Finder)
    ensures Roots(r.places) == [] && r.found.records == map[]
    ensures r.errorIfResultEmpty == f.errorIfResultEmpty
  {
    Finder([], Empty, f.errorIfResultEmpty)
  }

  /** `setErrorIfResultEmpty(b)`. */
  function SetErrorIfResultEmpty(f: Finder, b: bool): (r: Finder)
    ensures r.errorIfResultEmpty == b
    ensures r.places == f.places && r.found == f.found
  {
    f.(errorIfResultEmpty := b)
  }

  // ---------------------------------------------------------------------
  // Filtering and finding

  /** A missing (null) filter accepts everything. */
  predicate Passes(filter: Option<Filter>, leaf: LeafOracle, c: ClassInfo, classes: ClassMap) {
    filter.None? || Accepts(filter.value, leaf, c, classes)
  }

  /** The values that pass, in their order. */
  function Select(filter: Option<Filter>, leaf: LeafOracle, classes: ClassMap, values: seq<ClassInfo>): (r: seq<ClassInfo>)
    ensures |r| <= |values|
  {
    Keep(c => Passes(filter, leaf, c, classes), values)
  }

  lemma SelectSnoc(filter: Option<Filter>, leaf: LeafOracle, classes: ClassMap, values: seq<ClassInfo>, c: ClassInfo)
    ensures Select(filter, leaf, classes, values + [c])
         == Select(filter, leaf, classes, values) + (if Passes(filter, leaf, c, classes) then [c] else [])
  {
    KeepAppend(c => Passes(filter, leaf, c, classes), values, [c]);
    assert |[c][1..]| == 0;
  }

  /** A value is selected exactly when it is among the values and passes. */
  lemma SelectMember(filter: Option<Filter>, leaf: LeafOracle, classes: ClassMap, values: seq<ClassInfo>, c: ClassInfo)
    ensures c in Select(filter, leaf, classes, values) <==> c in values && Passes(filter, leaf, c, classes)
  {
    KeepMember(c => Passes(filter, leaf, c, classes), values, c);
  }

  /** Without a filter every value is selected, in order. */
  lemma SelectAll(leaf: LeafOracle, classes: ClassMap, values: seq<ClassInfo>)
    ensures Select(None, leaf, classes, values) == values
  {
    KeepAll(c => Passes(None, leaf, c, classes), values);
  }

  /** `filterClasses`: visit the values in order, keep and count those the
      filter accepts. */
  method FilterClasses(filter: Option<Filter>, leaf: LeafOracle, classes: ClassMap, values: seq<ClassInfo>)
    returns (total: nat, accepted: seq<ClassInfo>)
    ensures accepted == Select(filter, leaf, classes, values)
    ensures total == |accepted|
  {
    total, accepted := 0, [];
    var i := 0;
    while i < |values|
      invariant 0 <= i <= |values|
      invariant accepted == Select(filter, leaf, classes, values[..i])
      invariant total == |accepted|
    {
      var c := values[i];
      assert values[..i + 1] == values[..i] + [c];
      SelectSnoc(filter, leaf, classes, values[..i], c);
      if filter.None? || Accepts(filter.value, leaf, c, classes) {
        total := total + 1;
        accepted := accepted + [c];
      }
      i := i + 1;
    }
    assert values[..|values|] == values;
  }

  /** A search's answer and the finder's state after it. */
  datatype Outcome = Outcome(finder: Finder, result: Result<seq<ClassInfo>, string>)

  const NoClassesFound: string := "Didn't find any classes"

  /** The classes a search loads: every root, in insertion order, into an
      empty map. */
  function Loaded(env: Env, f: Finder): (r: Registry)
    ensures Valid(r)
  {
    LoadRegistry(env.fs, env.read, Roots(f.places))
  }

  /** `findClasses(filter)`: clear the map, load, filter in the map's
      iteration order; fail when nothing was accepted and the flag is set,
      otherwise clear the map again and answer. The filter sees the map of
      loaded classes as the hierarchy. */
  function FindClasses(env: Env, f: Finder, filter: Option<Filter>, leaf: LeafOracle): (o: Outcome)
    ensures o.finder.places == f.places && o.finder.errorIfResultEmpty == f.errorIfResultEmpty
    ensures o.result.Success? ==> o.finder.found == Empty
    ensures o.result.Failure? ==> o.result.error == NoClassesFound && o.finder.found == Loaded(env, f)
  {
    var loaded := Loaded(env, f);
    var accepted := Select(filter, leaf, loaded.records, Values(loaded));
    if |accepted| == 0 && f.errorIfResultEmpty then
      Outcome(f.(found := loaded), Failure(NoClassesFound))
    else
      Outcome(f.(found := Empty), Success(accepted))
  }

  /** `findClasses()`: no filter. */
  function FindAllClasses(env: Env, f: Finder): (o: Outcome)
    ensures o.result.Success? ==> o.result.value == Values(Loaded(env, f))
  {
    SelectAll(leaf0, Loaded(env, f).records, Values(Loaded(env, f)));
    FindClasses(env, f, None, leaf0)
  }

  /** A leaf oracle for searches without a filter, which never consult it. */
  const leaf0: LeafOracle := (id: nat, c: ClassInfo, classes: ClassMap) => false

  /** The search fails exactly when the flag is set and no loaded class
      passes the filter; otherwise it answers precisely the loaded classes
      that pass. */
  lemma FindFailsExactly(env: Env, f: Finder, filter: Option<Filter>, leaf: LeafOracle)
    ensures var loaded := Loaded(env, f);
      var o := FindClasses(env, f, filter, leaf);
      && (o.result.Failure? <==>
            f.errorIfResultEmpty && forall c | c in Values(loaded) :: !Passes(filter, leaf, c, loaded.records))
      && (o.result.Success? ==> forall c ::
            c in o.result.value <==> c in Values(loaded) && Passes(filter, leaf, c, loaded.records))
  {
    var loaded := Loaded(env, f);
    var values := Values(loaded);
    var accepted := Select(filter, leaf, loaded.records, values);
    forall c ensures c in accepted <==> c in values && Passes(filter, leaf, c, loaded.records) {
      SelectMember(filter, leaf, loaded.records, values, c);
    }
    if |accepted| > 0 {
      assert accepted[0] in accepted;
    }
  }

  /** A search does not depend on what a previous search left in the map,
      so repeating it gives the same outcome. */
  lemma NothingPersists(env: Env, f: Finder, filter: Option<Filter>, leaf: LeafOracle, stale: Registry)
    ensures FindClasses(env, f.(found := stale), filter, leaf) == FindClasses(env, f, filter, leaf)
    ensures var o := FindClasses(env, f, filter, leaf);
      FindClasses(env, o.finder, filter, leaf) == o
  {
    assert Roots(f.(found := stale).places) == Roots(f.places);
  }

  /** After `clear()`, a search answers nothing: an empty result, or the
      error when the flag is set. */
  lemma ClearThenFind(env: Env, f: Finder, filter: Option<Filter>, leaf: LeafOracle)
    ensures var o := FindClasses(env, Clear(f), filter, leaf);
      if f.errorIfResultEmpty then o.result == Failure(NoClassesFound) else o.result == Success([])
  {
    assert Roots([]) == [];
    assert RootsWrites(env.fs, env.read, []) == [];
    assert Values(Empty) == [];
  }

  /** A fresh finder told to fail on an empty result fails. */
  lemma EmptyFinderFails(env: Env, filter: Option<Filter>, leaf: LeafOracle)
    ensures FindClasses(env, SetErrorIfResultEmpty(NewFinder, true), filter, leaf).result == Failure(NoClassesFound)
  {
    ClearThenFind(env, SetErrorIfResultEmpty(NewFinder, true), filter, leaf);
  }
}
