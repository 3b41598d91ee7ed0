/** `SuffixFileVisitor`: a file-tree visitor that collects, in visit order,
    every visited file whose name ends with a given suffix. */
module SuffixVisitor {
  import opened Text
  import opened Classes
  import opened Seqs

  /** `FileVisitResult`: this visitor only ever answers `CONTINUE`. */
  datatype VisitResult = Continue | Terminate | SkipSubtree | SkipSiblings

  datatype Visitor = Visitor(suffix: string, files: seq<Path>)

  /** `Path.getFileName()`: the last name element, after the final '/'. */
  function FileName(p: Path): (n: string)
    ensures '/' !in n && EndsWith(p, n)
  {
    var i := LastIndexOf(p, '/');
    var n := p[i + 1..];
    assert |p| - |n| == i + 1;
    assert p[|p| - |n|..] == n;
    forall j | 0 <= j < |n| ensures n[j] != '/' {
      assert n[j] == p[i + 1 + j];
    }
    n
  }

  /** The file is collected: its name ends with the suffix, case-sensitively. */
  predicate Matches(suffix: string, p: Path) {
    EndsWith(FileName(p), suffix)
  }

  /** `new SuffixFileVisitor(suffix)`. */
  function NewVisitor(suffix: string): (v: Visitor)
    ensures v.suffix == suffix && v.files == []
  {
    Visitor(suffix, [])
  }

  /** `getFiles`. */
  function GetFiles(v: Visitor): seq<Path> {
    v.files
  }

  /** `visitFile`: collect the file if it matches, and continue the walk. */
  function VisitFile(v: Visitor, p: Path): (r: (Visitor, VisitResult))
    ensures r.1 == Continue
    ensures r.0.suffix == v.suffix
    ensures Matches(v.suffix, p) ==> r.0.files == v.files + [p]
    ensures !Matches(v.suffix, p) ==> r.0.files == v.files
  {
    if Matches(v.suffix, p) then (v.(files := v.files + [p]), Continue) else (v, Continue)
  }

  /** The matching paths of `paths`, in order: what a fresh visitor holds
      after a walk that visits `paths`. */
  function Collected(suffix: string, paths: seq<Path>): (r: seq<Path>)
    ensures |r| <= |paths|
  {
    if paths == [] then []
    else
      var init := Collected(suffix, paths[..|paths| - 1]);
      if Matches(suffix, paths[|paths| - 1]) then init + [paths[|paths| - 1]] else init
  }

  /** A path is collected exactly when it was visited and matches. */
  lemma {:induction false} CollectedExactly(suffix: string, paths: seq<Path>, p: Path)
    ensures p in Collected(suffix, paths) <==> p in paths && Matches(suffix, p)
  {
    if paths != [] {
      var init, last := paths[..|paths| - 1], paths[|paths| - 1];
      CollectedExactly(suffix, init, p);
      SplitLast(paths);
      var before := Collected(suffix, init);
      assert Collected(suffix, paths) == if Matches(suffix, last) then before + [last] else before;
      InSnoc(before, last, p);
      InSnoc(init, last, p);
    }
  }

  /** The walk: every visited path goes through `visitFile`, in order; the
      collection only ever grows at its end. */
  method Walk(suffix: string, paths: seq<Path>) returns (files: seq<Path>)
    ensures files == Collected(suffix, paths)
  {
    var v := NewVisitor(suffix);
    var i := 0;
    while i < |paths|
      invariant 0 <= i <= |paths|
      invariant v.suffix == suffix
      invariant v.files == Collected(suffix, paths[..i])
    {
      var before := v.files;
      var r := VisitFile(v, paths[i]);
      v := r.0;
      assert paths[..i + 1][..i] == paths[..i];
      assert before <= v.files;
      i := i + 1;
    }
    assert paths[..|paths|] == paths;
    files := GetFiles(v);
  }
}
