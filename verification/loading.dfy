/** Loading classes from the places to search. A root whose path ends with
    ".jar" or ".zip" (ignoring case) is opened as an archive and every entry
    that is a class file is read; any other root is a directory, searched
    recursively for class files, then for jars, then for zips, each nested
    archive being loaded like a root. Every record read is written into
    one map under its class name, in the order the roots are given.

    The file system is a value, and the class-file reader is a parameter. */
module Loading {
  import opened Optional
  import opened Text
  import opened Classes
  import opened Paths
  import opened SuffixVisitor
  import opened Registries

  type Blob = seq<bv8>

  /** One entry of an open archive, in enumeration order. `content` is
      `None` when `getInputStream` fails with an `IOException`. */
  datatype ArchiveEntry = ArchiveEntry(name: string, isDirectory: bool, content: Option<Blob>)

  /** What the loader can see of the file system.
      `archives`: the archives that open, with their entries; a path missing
      here fails to open as a jar or zip.
      `files`: the regular files that open for reading, with their bytes.
      `found`: for each directory, the regular files the recursive file
      finder reports below it, in its order. */
  datatype FileSystem = FileSystem(
    archives: map<Path, seq<ArchiveEntry>>,
    files: map<Path, Blob>,
    found: map<Path, seq<Path>>)

  /** The class-file reader together with the visitor that builds the
      record: the record for the bytes of one class found at `location`, or
      `None` when reading fails. */
  type ClassReader = (Blob, Path) -> Option<ClassInfo>

  const UnableToLoad: string := "Unable to load class from open input stream"

  /** `loadClassData`: any failure of the reader leaves as a
      `ClassFinderException` with a fixed message. */
  function LoadClassData(read: ClassReader, bytes: Blob, location: Path): (r: Result<ClassInfo, string>)
    ensures r.Success? <==> read(bytes, location).Some?
    ensures r.Success? ==> r.value == read(bytes, location).value
    ensures r.Failure? ==> r.error == UnableToLoad
  {
    match read(bytes, location)
    case Some(c) => Success(c)
    case None => Failure(UnableToLoad)
  }

  // ---------------------------------------------------------------------
  // Reading a sequence of class files

  /** The records read from a sequence of class files in order; a file that
      cannot be opened (`None`) or read is logged and skipped, and the loop
      goes on with the next one. */
  function ReadEach(read: ClassReader, location: Path, contents: seq<Option<Blob>>): (ws: seq<ClassInfo>)
    ensures |ws| <= |contents|
  {
    if contents == [] then []
    else
      var first :=
        match contents[0]
        case None => []
        case Some(bytes) =>
          (match LoadClassData(read, bytes, location)
           case Success(c) => [c]
           case Failure(_) => []);
      first + ReadEach(read, location, contents[1..])
  }

  /** Reading two batches is reading the first, then the second: a failure
      in the first batch does not stop the second. */
  lemma {:induction false} ReadEachAppend(read: ClassReader, location: Path, a: seq<Option<Blob>>, b: seq<Option<Blob>>)
    ensures ReadEach(read, location, a + b) == ReadEach(read, location, a) + ReadEach(read, location, b)
  {
    if a == [] {
      assert a + b == b;
    } else {
      assert (a + b)[1..] == a[1..] + b;
      ReadEachAppend(read, location, a[1..], b);
    }
  }

  /** A record is read exactly when some file opens and the reader yields
      that record for its bytes. */
  lemma {:induction false} ReadEachMember(read: ClassReader, location: Path, contents: seq<Option<Blob>>, c: ClassInfo)
    ensures c in ReadEach(read, location, contents)
        <==> exists i | 0 <= i < |contents| :: contents[i].Some? && read(contents[i].value, location) == Some(c)
  {
    if contents != [] {
      ReadEachMember(read, location, contents[1..], c);
      if exists i | 0 <= i < |contents[1..]| :: contents[1..][i].Some? && read(contents[1..][i].value, location) == Some(c) {
        var i :| 0 <= i < |contents[1..]| && contents[1..][i].Some? && read(contents[1..][i].value, location) == Some(c);
        assert contents[i + 1] == contents[1..][i];
      }
      if exists i | 0 <= i < |contents| :: contents[i].Some? && read(contents[i].value, location) == Some(c) {
        var i :| 0 <= i < |contents| && contents[i].Some? && read(contents[i].value, location) == Some(c);
        if i > 0 {
          assert contents[1..][i - 1] == contents[i];
        }
      }
    }
  }

  // ---------------------------------------------------------------------
  // Archives

  /** `processOpenZip`'s entry test: not a directory, and the lower-cased
      name ends with ".class". */
  predicate IsClassEntry(e: ArchiveEntry) {
    !e.isDirectory && EndsWith(ToLower(e.name), ".class")
  }

  /** The contents of the class entries, in enumeration order. */
  function ClassEntryContents(entries: seq<ArchiveEntry>): (cs: seq<Option<Blob>>)
    ensures |cs| <= |entries|
  {
    if entries == [] then []
    else (if IsClassEntry(entries[0]) then [entries[0].content] else []) + ClassEntryContents(entries[1..])
  }

  lemma {:induction false} ClassEntryContentsAppend(a: seq<ArchiveEntry>, b: seq<ArchiveEntry>)
    ensures ClassEntryContents(a + b) == ClassEntryContents(a) + ClassEntryContents(b)
  {
    if a == [] {
      assert a + b == b;
    } else {
      var ab := a + b;
      var head := if IsClassEntry(a[0]) then [a[0].content] else [];
      assert ab[0] == a[0];
      assert ab[1..] == a[1..] + b;
      assert ClassEntryContents(ab) == head + ClassEntryContents(ab[1..]);
      ClassEntryContentsAppend(a[1..], b);
    }
  }

  /** Only class entries are read: every content taken belongs to a class
      entry, and every class entry's content is taken. */
  lemma {:induction false} ClassEntryContentsMember(entries: seq<ArchiveEntry>, o: Option<Blob>)
    ensures o in ClassEntryContents(entries)
        <==> exists i | 0 <= i < |entries| :: IsClassEntry(entries[i]) && entries[i].content == o
  {
    if entries != [] {
      ClassEntryContentsMember(entries[1..], o);
      if exists i | 0 <= i < |entries[1..]| :: IsClassEntry(entries[1..][i]) && entries[1..][i].content == o {
        var i :| 0 <= i < |entries[1..]| && IsClassEntry(entries[1..][i]) && entries[1..][i].content == o;
        assert entries[i + 1] == entries[1..][i];
      }
      if exists i | 0 <= i < |entries| :: IsClassEntry(entries[i]) && entries[i].content == o {
        var i :| 0 <= i < |entries| && IsClassEntry(entries[i]) && entries[i].content == o;
        if i > 0 {
          assert entries[1..][i - 1] == entries[i];
        }
      }
    }
  }

  /** `processOpenZip`: walk the entries, read the class entries, log and
      skip each failure. The records go to the archive's own path. */
  method ProcessOpenZip(read: ClassReader, zipPath: Path, entries: seq<ArchiveEntry>) returns (writes: seq<ClassInfo>)
    ensures writes == ReadEach(read, zipPath, ClassEntryContents(entries))
  {
    writes := [];
    var i := 0;
    while i < |entries|
      invariant 0 <= i <= |entries|
      invariant writes == ReadEach(read, zipPath, ClassEntryContents(entries[..i]))
    {
      var e := entries[i];
      var more: seq<ClassInfo> := [];
      if !e.isDirectory && EndsWith(ToLower(e.name), ".class") {
        match e.content {
          case Some(bytes) =>
            var r := LoadClassData(read, bytes, zipPath);
            if r.Success? {
              more := [r.value];
            }
          case None =>
        }
      }
      assert entries[..i + 1] == entries[..i] + [e];
      OneEntry(read, zipPath, entries[..i], e);
      writes := writes + more;
      i := i + 1;
    }
    assert entries[..|entries|] == entries;
  }

  /** One more entry adds what that entry alone yields. */
  lemma OneEntry(read: ClassReader, zipPath: Path, entries: seq<ArchiveEntry>, e: ArchiveEntry)
    ensures ReadEach(read, zipPath, ClassEntryContents(entries + [e]))
         == ReadEach(read, zipPath, ClassEntryContents(entries))
          + (if IsClassEntry(e) && e.content.Some? && read(e.content.value, zipPath).Some?
             then [read(e.content.value, zipPath).value] else [])
  {
    ClassEntryContentsAppend(entries, [e]);
    assert |[e][1..]| == 0;
    ReadEachAppend(read, zipPath, ClassEntryContents(entries), ClassEntryContents([e]));
  }

  /** `processJar` / `processZip`: an archive that does not open yields
      nothing (the `IOException` is caught); otherwise its entries are
      processed. */
  function ArchiveWrites(fs: FileSystem, read: ClassReader, name: Path): (ws: seq<ClassInfo>)
    ensures name !in fs.archives ==> ws == []
  {
    if name in fs.archives then ReadEach(read, name, ClassEntryContents(fs.archives[name])) else []
  }

  /** An archive yields exactly the records of its readable class entries,
      each located at the archive. */
  lemma ArchiveWritesMember(fs: FileSystem, read: ClassReader, name: Path, c: ClassInfo)
    ensures c in ArchiveWrites(fs, read, name)
        <==> name in fs.archives
             && exists i | 0 <= i < |fs.archives[name]| ::
                  var e := fs.archives[name][i];
                  IsClassEntry(e) && e.content.Some? && read(e.content.value, name) == Some(c)
  {
    if name in fs.archives {
      var es := fs.archives[name];
      var cs := ClassEntryContents(es);
      ReadEachMember(read, name, cs, c);
      if c in ArchiveWrites(fs, read, name) {
        var j :| 0 <= j < |cs| && cs[j].Some? && read(cs[j].value, name) == Some(c);
        ClassEntryContentsMember(es, cs[j]);
      }
      if exists i | 0 <= i < |es| :: IsClassEntry(es[i]) && es[i].content.Some? && read(es[i].content.value, name) == Some(c) {
        var i :| 0 <= i < |es| && IsClassEntry(es[i]) && es[i].content.Some? && read(es[i].content.value, name) == Some(c);
        ClassEntryContentsMember(es, es[i].content);
      }
    }
  }

  // ---------------------------------------------------------------------
  // Directories and roots

  /** The regular files below a directory; none for a path the finder
      cannot list. */
  function Found(fs: FileSystem, dir: Path): seq<Path> {
    if dir in fs.found then fs.found[dir] else []
  }

  /** The bytes of each file, or `None` where `FileInputStream` fails. */
  function FileContents(fs: FileSystem, paths: seq<Path>): (cs: seq<Option<Blob>>)
    ensures |cs| == |paths|
    ensures forall i | 0 <= i < |paths| ::
      cs[i] == if paths[i] in fs.files then Some(fs.files[paths[i]]) else None
  {
    if paths == [] then []
    else [if paths[0] in fs.files then Some(fs.files[paths[0]]) else None] + FileContents(fs, paths[1..])
  }

  /** The nested archives of a directory, each processed as an archive. */
  function NestedArchiveWrites(fs: FileSystem, read: ClassReader, paths: seq<Path>): (ws: seq<ClassInfo>)
  {
    if paths == [] then [] else ArchiveWrites(fs, read, paths[0]) + NestedArchiveWrites(fs, read, paths[1..])
  }

  /** `processDirectory`: the class files below the directory, all located
      at the directory itself; then the jars; then the zips. */
  function DirectoryWrites(fs: FileSystem, read: ClassReader, dir: Path): seq<ClassInfo> {
    var found := Found(fs, dir);
    ReadEach(read, dir, FileContents(fs, Collected(".class", found)))
      + NestedArchiveWrites(fs, read, Collected(".jar", found))
      + NestedArchiveWrites(fs, read, Collected(".zip", found))
  }

  /** `loadClassesIn`: a jar, else a zip, else a directory. */
  function RootWrites(fs: FileSystem, read: ClassReader, root: Path): seq<ClassInfo> {
    if IsJar(root) then ArchiveWrites(fs, read, root)
    else if IsZip(root) then ArchiveWrites(fs, read, root)
    else DirectoryWrites(fs, read, root)
  }

  /** The writes of all roots, root after root. */
  function RootsWrites(fs: FileSystem, read: ClassReader, roots: seq<Path>): (ws: seq<ClassInfo>)
  {
    if roots == [] then [] else RootWrites(fs, read, roots[0]) + RootsWrites(fs, read, roots[1..])
  }

  lemma {:induction false} RootsWritesAppend(fs: FileSystem, read: ClassReader, a: seq<Path>, b: seq<Path>)
    ensures RootsWrites(fs, read, a + b) == RootsWrites(fs, read, a) + RootsWrites(fs, read, b)
  {
    if a == [] {
      assert a + b == b;
    } else {
      assert (a + b)[1..] == a[1..] + b;
      RootsWritesAppend(fs, read, a[1..], b);
    }
  }

  /** Archives found in a directory are loaded exactly as if they had been
      given as roots. */
  lemma {:induction false} NestedAsRoots(fs: FileSystem, read: ClassReader, paths: seq<Path>)
    requires forall i | 0 <= i < |paths| :: IsJar(paths[i]) || IsZip(paths[i])
    ensures NestedArchiveWrites(fs, read, paths) == RootsWrites(fs, read, paths)
  {
    if paths != [] {
      NestedAsRoots(fs, read, paths[1..]);
    }
  }

  /** Every path the suffix walk collects ends with the suffix. */
  lemma CollectedEndsWith(suffix: string, paths: seq<Path>, p: Path)
    requires p in Collected(suffix, paths)
    ensures EndsWith(p, suffix)
  {
    CollectedExactly(suffix, paths, p);
    EndsWithTransitive(p, FileName(p), suffix);
  }

  lemma CollectedJars(paths: seq<Path>)
    ensures forall i | 0 <= i < |Collected(".jar", paths)| :: IsJar(Collected(".jar", paths)[i])
  {
    var js := Collected(".jar", paths);
    forall i | 0 <= i < |js| ensures IsJar(js[i]) {
      CollectedEndsWith(".jar", paths, js[i]);
      JarSuffixIsJar(js[i]);
    }
  }

  lemma CollectedZips(paths: seq<Path>)
    ensures forall i | 0 <= i < |Collected(".zip", paths)| :: IsZip(Collected(".zip", paths)[i])
  {
    var zs := Collected(".zip", paths);
    forall i | 0 <= i < |zs| ensures IsZip(zs[i]) {
      CollectedEndsWith(".zip", paths, zs[i]);
      ZipSuffixIsZip(zs[i]);
    }
  }

  /** A root that is neither a jar nor a zip is a directory: first its class
      files, then its jars as roots, then its zips as roots. */
  lemma DirectoryOrder(fs: FileSystem, read: ClassReader, dir: Path)
    requires !IsJar(dir) && !IsZip(dir)
    ensures var found := Found(fs, dir);
      RootWrites(fs, read, dir)
        == ReadEach(read, dir, FileContents(fs, Collected(".class", found)))
         + RootsWrites(fs, read, Collected(".jar", found))
         + RootsWrites(fs, read, Collected(".zip", found))
  {
    var found := Found(fs, dir);
    CollectedJars(found);
    CollectedZips(found);
    NestedAsRoots(fs, read, Collected(".jar", found));
    NestedAsRoots(fs, read, Collected(".zip", found));
  }

  /** A root that is a jar or a zip is read as an archive, whatever the file
      system says about directories. */
  lemma ArchiveRoot(fs: FileSystem, read: ClassReader, root: Path)
    requires IsJar(root) || IsZip(root)
    ensures RootWrites(fs, read, root) == ArchiveWrites(fs, read, root)
    ensures RootWrites(fs, read, root) == RootWrites(fs.(found := map[]), read, root)
  {}

  // ---------------------------------------------------------------------
  // The map of loaded classes

  /** Every root, in order, writes into one registry that starts empty. */
  function LoadRegistry(fs: FileSystem, read: ClassReader, roots: seq<Path>): (r: Registry)
    ensures Valid(r)
  {
    PutAll(Empty, RootsWrites(fs, read, roots))
  }

  /** `loadClassesFrom`: a fresh map on every call. */
  function LoadClassesFrom(fs: FileSystem, read: ClassReader, roots: seq<Path>): map<string, ClassInfo> {
    LoadRegistry(fs, read, roots).records
  }

  /** A name is loaded exactly when some record with that name was read; it
      holds the record read last. */
  lemma LoadedIsLastRead(fs: FileSystem, read: ClassReader, roots: seq<Path>, k: string)
    ensures var ws := RootsWrites(fs, read, roots);
      && (k in LoadClassesFrom(fs, read, roots) <==> LastNamed(ws, k).Some?)
      && (LastNamed(ws, k).Some? ==> LoadClassesFrom(fs, read, roots)[k] == LastNamed(ws, k).value)
  {
    PutAllLastWriteWins(Empty, RootsWrites(fs, read, roots), k);
  }

  /** Every loaded record is stored under its own class name. */
  lemma LoadedKeyedByName(fs: FileSystem, read: ClassReader, roots: seq<Path>)
    ensures forall k | k in LoadClassesFrom(fs, read, roots) :: LoadClassesFrom(fs, read, roots)[k].className == k
  {
    PutAllKeyedByName(Empty, RootsWrites(fs, read, roots));
  }

  /** Later roots write over earlier ones in the same map: loading `a + b`
      is loading `a`, then writing the records of `b` on top. */
  lemma LoadRootsInOrder(fs: FileSystem, read: ClassReader, a: seq<Path>, b: seq<Path>)
    ensures LoadRegistry(fs, read, a + b) == PutAll(LoadRegistry(fs, read, a), RootsWrites(fs, read, b))
  {
    RootsWritesAppend(fs, read, a, b);
    PutAllAppend(Empty, RootsWrites(fs, read, a), RootsWrites(fs, read, b));
  }
}
