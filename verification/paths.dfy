/** The little path arithmetic of `java.io.File` that the finder relies on,
    for Unix-style paths with separator '/'. `File` also normalises a path
    when it is built (duplicate and trailing separators are dropped); that
    normalisation is not modelled, so paths here are taken as written. */
module Paths {
  import opened Optional
  import opened Text
  import opened Classes

  /** `isJar`: the lower-cased name ends with ".jar". */
  predicate IsJar(name: Path) {
    EndsWith(ToLower(name), ".jar")
  }

  /** `isZip`: the lower-cased name ends with ".zip". */
  predicate IsZip(name: Path) {
    EndsWith(ToLower(name), ".zip")
  }

  /** A name cannot end with both suffixes. */
  lemma JarIsNotZip(name: Path)
    ensures !(IsJar(name) && IsZip(name))
  {}

  /** Lower-casing commutes with taking a suffix. */
  lemma EndsWithLower(s: string, t: string)
    requires EndsWith(s, t)
    ensures EndsWith(ToLower(s), ToLower(t))
  {
    var ls, lt := ToLower(s), ToLower(t);
    forall i | 0 <= i < |t| ensures ls[|s| - |t| + i] == lt[i] {
      assert s[|s| - |t| + i] == t[i];
    }
    assert ls[|ls| - |lt|..] == lt;
  }

  /** A name ending in ".jar" exactly as written is a jar for `isJar`. */
  lemma JarSuffixIsJar(name: Path)
    requires EndsWith(name, ".jar")
    ensures IsJar(name)
  {
    EndsWithLower(name, ".jar");
    assert ToLower(".jar") == ".jar";
  }

  /** A name ending in ".zip" exactly as written is a zip and not a jar. */
  lemma ZipSuffixIsZip(name: Path)
    requires EndsWith(name, ".zip")
    ensures IsZip(name) && !IsJar(name)
  {
    EndsWithLower(name, ".zip");
    assert ToLower(".zip") == ".zip";
    JarIsNotZip(name);
  }

  /** `File.getAbsolutePath` against the working directory `cwd`. */
  function Absolute(cwd: Path, p: Path): (a: Path)
    ensures StartsWith(p, "/") ==> a == p
  {
    if StartsWith(p, "/") then p
    else if p == [] then cwd
    else cwd + "/" + p
  }

  /** `File.getParent`: everything before the last separator; the root
      "/" for a name directly under it; `None` when there is no separator. */
  function Parent(p: Path): (r: Option<Path>)
    ensures r.Some? ==> |r.value| < |p| && StartsWith(p, r.value)
    ensures r.None? <==> '/' !in p || p == "/"
    ensures r.Some? && LastIndexOf(p, '/') > 0 ==> r.value == p[..LastIndexOf(p, '/')]
    ensures r.Some? && LastIndexOf(p, '/') <= 0 ==> r.value == "/"
  {
    var i := LastIndexOf(p, '/');
    var prefix := if |p| > 0 && p[0] == '/' then 1 else 0;
    if i < prefix then
      if prefix > 0 && |p| > prefix then
        assert p[..1] == "/";
        Some(p[..prefix])
      else
        assert '/' in p ==> p == "/" by {
          if '/' in p {
            var j :| 0 <= j < |p| && p[j] == '/';
            assert j <= i;
          }
        }
        None
    else
      assert p[..i][..|p[..i]|] == p[..i];
      Some(p[..i])
  }

  /** The buffer `addJarFileParent` and `append(element)` build: the parent,
      a separator and the element, or the element alone. */
  function Join(parent: Option<Path>, element: string): (r: Path)
    ensures parent.None? ==> r == element
    ensures parent.Some? ==> r == parent.value + "/" + element
  {
    match parent
    case Some(q) => q + "/" + element
    case None => element
  }
}
