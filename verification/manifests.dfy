/** Manifest `Class-Path` expansion (the "Class-Path Attribute" of the JAR
    File Specification): every whitespace-separated entry of the attribute
    names another archive, relative to the directory of the jar that holds
    the manifest, and is added to the places to search.

    Two versions exist. `JarClassPathentriesLoader` adds one path per
    entry. `ClassFinder.loadJarClassPathEntries` resets its buffer for every
    entry but calls `add` only after the loop, so it adds one path per
    `Class-Path` key: the last entry, or the empty path when there is none.
    `Finder.Add` uses the second behaviour (`ExpansionAsWritten`), as
    `ClassFinder.add` does; `LoadAdditional` is the first. */
module Manifests {
  import opened Optional
  import opened Text
  import opened Classes
  import opened Paths

  /** The main attributes of a manifest, in the iteration order of their key set. */
  datatype Manifest = Manifest(mainAttributes: seq<(string, string)>)

  /** What opening a jar and asking for its manifest gives. */
  datatype JarManifest =
    | Unreadable            // `new JarFile(...)` throws an `IOException`
    | NoManifest            // `getManifest()` returns null
    | Present(manifest: Manifest)

  const ClassPathKey: string := "Class-Path"

  /** `getManifestClasspathEntry`: the value of the first main attribute
      whose key is exactly "Class-Path", or `None`. */
  function ClassPathEntry(m: Manifest): (r: Option<string>)
    ensures r.None? <==> forall i | 0 <= i < |m.mainAttributes| :: m.mainAttributes[i].0 != ClassPathKey
    ensures r.Some? ==> exists i | 0 <= i < |m.mainAttributes| ::
      m.mainAttributes[i] == (ClassPathKey, r.value)
      && forall j | 0 <= j < i :: m.mainAttributes[j].0 != ClassPathKey
    decreases |m.mainAttributes|
  {
    var attrs := m.mainAttributes;
    if attrs == [] then None
    else if attrs[0].0 == ClassPathKey then
      assert attrs[0] == (ClassPathKey, attrs[0].1);
      Some(attrs[0].1)
    else
      var r := ClassPathEntry(Manifest(attrs[1..]));
      if r.Some? then
        var i :| 0 <= i < |attrs[1..]| && attrs[1..][i] == (ClassPathKey, r.value)
          && forall j | 0 <= j < i :: attrs[1..][j].0 != ClassPathKey;
        assert attrs[i + 1] == (ClassPathKey, r.value);
        assert forall j | 0 <= j < i + 1 :: attrs[j].0 != ClassPathKey by {
          forall j | 0 <= j < i + 1 ensures attrs[j].0 != ClassPathKey {
            if j > 0 {
              assert attrs[j] == attrs[1..][j - 1];
            }
          }
        }
        r
      else
        assert forall j | 0 <= j < |attrs| :: attrs[j].0 != ClassPathKey by {
          forall j | 0 <= j < |attrs| ensures attrs[j].0 != ClassPathKey {
            if j > 0 {
              assert attrs[j] == attrs[1..][j - 1];
            }
          }
        }
        r
  }

  /** The paths added for the entries of a `Class-Path` value, in order. */
  function ExpansionPaths(jar: Path, value: string): (ps: seq<Path>)
    ensures |ps| == |Tokens(value)|
    ensures forall i | 0 <= i < |ps| :: ps[i] == Join(Parent(jar), Tokens(value)[i])
  {
    JoinEach(Parent(jar), Tokens(value))
  }

  function JoinEach(parent: Option<Path>, elements: seq<string>): (ps: seq<Path>)
    ensures |ps| == |elements|
    ensures forall i | 0 <= i < |ps| :: ps[i] == Join(parent, elements[i])
  {
    if elements == [] then [] else [Join(parent, elements[0])] + JoinEach(parent, elements[1..])
  }

  /** `JarClassPathentriesLoader.loadAdditional`: the paths handed to
      `add`, in order. An unreadable jar (the `IOException` is caught), a jar
      without a manifest and a manifest without "Class-Path" add nothing. */
  function LoadAdditional(jar: Path, jm: JarManifest): (ps: seq<Path>)
    ensures jm.Unreadable? || jm.NoManifest? ==> ps == []
    ensures jm.Present? && ClassPathEntry(jm.manifest).None? ==> ps == []
    ensures jm.Present? && ClassPathEntry(jm.manifest).Some? ==>
      |ps| == |Tokens(ClassPathEntry(jm.manifest).value)|
  {
    match jm
    case Present(m) =>
      (match ClassPathEntry(m)
       case Some(value) => ExpansionPaths(jar, value)
       case None => [])
    case _ => []
  }

  /** `canLoadAdditional`: only the jar test of the absolute path counts. */
  predicate CanLoadAdditional(cwd: Path, file: Path) {
    IsJar(Absolute(cwd, file))
  }

  /** A space-separated list of entries expands to one path per entry,
      each relative to the jar's directory. */
  lemma ExpansionOfEntries(jar: Path, entries: seq<string>)
    requires forall i | 0 <= i < |entries| :: IsToken(entries[i])
    ensures LoadAdditional(jar, Present(Manifest([(ClassPathKey, JoinWords(entries))])))
         == JoinEach(Parent(jar), entries)
  {
    TokensOfJoinWords(entries);
  }

  // ---------------------------------------------------------------------
  // ClassFinder.loadJarClassPathEntries, as written

  /** The loop over the entries: the buffer is cleared, then the parent and
      the entry are appended; what is left after the loop is returned. */
  function BufferAfter(parent: Option<Path>, elements: seq<string>, buf: string): (r: string)
    ensures elements == [] ==> r == buf
    ensures elements != [] ==> r == Join(parent, elements[|elements| - 1])
  {
    if elements == [] then buf else BufferAfter(parent, elements[1..], Join(parent, elements[0]))
  }

  /** The paths `ClassFinder.loadJarClassPathEntries` hands to `add`: one per
      main attribute whose key is "Class-Path". */
  function ExpansionAsWritten(jar: Path, jm: JarManifest): (ps: seq<Path>)
    ensures !jm.Present? ==> ps == []
  {
    match jm
    case Present(m) => AsWrittenOver(jar, m.mainAttributes)
    case _ => []
  }

  function AsWrittenOver(jar: Path, attrs: seq<(string, string)>): (ps: seq<Path>)
    ensures |ps| <= |attrs|
  {
    if attrs == [] then []
    else
      var here := if attrs[0].0 == ClassPathKey then [BufferAfter(Parent(jar), Tokens(attrs[0].1), "")] else [];
      here + AsWrittenOver(jar, attrs[1..])
  }

  /** With two entries, the as-written expansion adds only the second,
      where the loader adds both. */
  lemma AsWrittenKeepsOnlyLastEntry(jar: Path, first: string, second: string)
    requires IsToken(first) && IsToken(second)
    ensures var jm := Present(Manifest([(ClassPathKey, first + " " + second)]));
      ExpansionAsWritten(jar, jm) == [Join(Parent(jar), second)]
      && LoadAdditional(jar, jm) == [Join(Parent(jar), first), Join(Parent(jar), second)]
  {
    var entries := [first, second];
    assert JoinWords(entries[1..]) == second;
    assert JoinWords(entries) == first + " " + second;
    TokensOfJoinWords(entries);
  }

  /** With an empty `Class-Path` value, the as-written expansion calls `add`
      with the empty path; the loader adds nothing. */
  lemma AsWrittenAddsEmptyPath(jar: Path)
    ensures var jm := Present(Manifest([(ClassPathKey, "")]));
      ExpansionAsWritten(jar, jm) == [""] && LoadAdditional(jar, jm) == []
  {}

  /** The two versions agree exactly on a single-entry `Class-Path`. */
  lemma AsWrittenAgreesOnOneEntry(jar: Path, entry: string)
    requires IsToken(entry)
    ensures var jm := Present(Manifest([(ClassPathKey, entry)]));
      ExpansionAsWritten(jar, jm) == LoadAdditional(jar, jm) == [Join(Parent(jar), entry)]
  {
    TokensOfJoinWords([entry]);
  }
}
