/** `ClassHierarchyResolver` and the older counting walks of `ClassFinder`:
    the transitive superclasses and interfaces of a class, looked up by
    name in the map of loaded classes.

    The source recursion keeps no visited set, so on a cyclic set of
    declarations it does not terminate. The model keeps the recursion as
    written and asks instead that the map be acyclic: some ranking of the
    loaded names decreases from every class to each of its direct parents
    that is loaded. */
module Hierarchy {
  import opened Optional
  import opened Classes

  /** Loaded classes by binary name. */
  type ClassMap = map<string, ClassInfo>

  /** The declared interface names; an absent array counts as empty. */
  function DeclaredInterfaces(c: ClassInfo): seq<string> {
    c.interfaces.GetOr([])
  }

  /** `p` is the direct superclass or a directly declared interface of `c`. */
  predicate IsParentName(c: ClassInfo, p: string) {
    c.superClassName == Some(p) || p in DeclaredInterfaces(c)
  }

  /** `rank` decreases along every parent link between loaded classes. */
  predicate RankedBy(classes: ClassMap, rank: map<string, nat>) {
    && classes.Keys <= rank.Keys
    && forall n, p | n in classes && p in classes && IsParentName(classes[n], p) :: rank[p] < rank[n]
  }

  /** No class is, through loaded classes, its own ancestor. */
  ghost predicate Acyclic(classes: ClassMap) {
    exists rank :: RankedBy(classes, rank)
  }

  ghost function TheRank(classes: ClassMap): (rank: map<string, nat>)
    requires Acyclic(classes)
    ensures RankedBy(classes, rank)
  {
    var rank :| RankedBy(classes, rank); rank
  }

  /** Every entry of `m` is the entry `classes` has under the same name. */
  predicate IsSubmap(m: ClassMap, classes: ClassMap) {
    forall k | k in m :: k in classes && m[k] == classes[k]
  }

  // ---------------------------------------------------------------------
  // Termination measure: one more than the highest rank among the loaded
  // direct parents.

  function NamesBound(classes: ClassMap, rank: map<string, nat>, names: seq<string>): nat
    requires classes.Keys <= rank.Keys
  {
    if names == [] then 0
    else
      var rest := NamesBound(classes, rank, names[1..]);
      if names[0] in classes && rank[names[0]] + 1 > rest then rank[names[0]] + 1 else rest
  }

  function SuperBound(classes: ClassMap, rank: map<string, nat>, c: ClassInfo): nat
    requires classes.Keys <= rank.Keys
  {
    match c.superClassName
    case Some(s) => if s in classes then rank[s] + 1 else 0
    case None => 0
  }

  function Height(classes: ClassMap, rank: map<string, nat>, c: ClassInfo): nat
    requires classes.Keys <= rank.Keys
  {
    var a := SuperBound(classes, rank, c);
    var b := NamesBound(classes, rank, DeclaredInterfaces(c));
    if a > b then a else b
  }

  lemma {:induction false} NamesBoundAbove(classes: ClassMap, rank: map<string, nat>, names: seq<string>, i: nat)
    requires classes.Keys <= rank.Keys
    requires i < |names| && names[i] in classes
    ensures rank[names[i]] < NamesBound(classes, rank, names)
  {
    if i > 0 {
      NamesBoundAbove(classes, rank, names[1..], i - 1);
    }
  }

  lemma {:induction false} NamesBoundBelow(classes: ClassMap, rank: map<string, nat>, names: seq<string>, bound: nat)
    requires classes.Keys <= rank.Keys
    requires forall i | 0 <= i < |names| && names[i] in classes :: rank[names[i]] < bound
    ensures NamesBound(classes, rank, names) <= bound
  {
    if names != [] {
      NamesBoundBelow(classes, rank, names[1..], bound);
    }
  }

  /** A loaded class's height never exceeds its own rank. */
  lemma HeightBelowRank(classes: ClassMap, rank: map<string, nat>, n: string)
    requires RankedBy(classes, rank) && n in classes
    ensures Height(classes, rank, classes[n]) <= rank[n]
  {
    var names := DeclaredInterfaces(classes[n]);
    forall i | 0 <= i < |names| && names[i] in classes ensures rank[names[i]] < rank[n] {
      assert IsParentName(classes[n], names[i]);
    }
    NamesBoundBelow(classes, rank, names, rank[n]);
  }

  // ---------------------------------------------------------------------
  // ClassHierarchyResolver

  /** `findAllSuperClasses`: the direct superclass, when it is loaded, and
      everything above it; unloaded names end the walk. */
  function AllSuperClasses(classes: ClassMap, c: ClassInfo): (r: ClassMap)
    requires Acyclic(classes)
    ensures IsSubmap(r, classes)
    decreases Height(classes, TheRank(classes), c)
  {
    match c.superClassName
    case None => map[]
    case Some(s) =>
      if s in classes then
        HeightBelowRank(classes, TheRank(classes), s);
        map[s := classes[s]] + AllSuperClasses(classes, classes[s])
      else map[]
  }

  /** `findAllInterfaces`: the interfaces of the superclass chain, then each
      loaded declared interface followed by its own interfaces, in
      declaration order. */
  function AllInterfaces(classes: ClassMap, c: ClassInfo): (r: ClassMap)
    requires Acyclic(classes)
    ensures IsSubmap(r, classes)
    decreases Height(classes, TheRank(classes), c), 2, 0
  {
    DeclaredClosure(classes, DeclaredInterfaces(c), InterfacesOfSuper(classes, c))
  }

  /** `recursivelyLoadnterfacesOfSuperclass`. */
  function InterfacesOfSuper(classes: ClassMap, c: ClassInfo): (r: ClassMap)
    requires Acyclic(classes)
    ensures IsSubmap(r, classes)
    decreases Height(classes, TheRank(classes), c), 1, 0
  {
    match c.superClassName
    case None => map[]
    case Some(s) =>
      if s in classes then
        HeightBelowRank(classes, TheRank(classes), s);
        AllInterfaces(classes, classes[s])
      else map[]
  }

  /** The loop of `findAllInterfaces` over the declared names, on the map
      `acc` built so far. */
  function DeclaredClosure(classes: ClassMap, names: seq<string>, acc: ClassMap): (r: ClassMap)
    requires Acyclic(classes) && IsSubmap(acc, classes)
    ensures IsSubmap(r, classes) && acc.Keys <= r.Keys
    decreases NamesBound(classes, TheRank(classes), names), 1, |names|
  {
    if names == [] then acc
    else
      var n := names[0];
      var acc' :=
        if n in classes then
          NamesBoundAbove(classes, TheRank(classes), names, 0);
          HeightBelowRank(classes, TheRank(classes), n);
          acc[n := classes[n]] + AllInterfaces(classes, classes[n])
        else acc;
      DeclaredClosure(classes, names[1..], acc')
  }

  // ---------------------------------------------------------------------
  // Properties of the superclass walk

  /** No superclass, or one that is not loaded: nothing is found. */
  lemma SuperClassesOfRoot(classes: ClassMap, c: ClassInfo)
    requires Acyclic(classes)
    requires c.superClassName.None? || c.superClassName.value !in classes
    ensures AllSuperClasses(classes, c) == map[]
    ensures InterfacesOfSuper(classes, c) == map[]
  {}

  /** A loaded direct superclass S is found under its name, with all of
      S's own superclasses. */
  lemma SuperClassesStep(classes: ClassMap, c: ClassInfo, s: string)
    requires Acyclic(classes) && c.superClassName == Some(s) && s in classes
    ensures s in AllSuperClasses(classes, c) && AllSuperClasses(classes, c)[s] == classes[s]
    ensures IsSubmap(AllSuperClasses(classes, classes[s]), AllSuperClasses(classes, c))
  {
    var rest := AllSuperClasses(classes, classes[s]);
    var r := AllSuperClasses(classes, c);
    assert r == map[s := classes[s]] + rest;
    assert r.Keys == {s} + rest.Keys;
  }

  /** Everything the superclass walk finds ranks strictly below the class. */
  lemma {:induction false} SuperClassesRankBelow(classes: ClassMap, c: ClassInfo)
    requires Acyclic(classes)
    ensures forall k | k in AllSuperClasses(classes, c) :: TheRank(classes)[k] < Height(classes, TheRank(classes), c)
    decreases Height(classes, TheRank(classes), c)
  {
    var rank := TheRank(classes);
    if c.superClassName.Some? && c.superClassName.value in classes {
      var s := c.superClassName.value;
      HeightBelowRank(classes, rank, s);
      SuperClassesRankBelow(classes, classes[s]);
    }
  }

  /** A loaded class is never among its own superclasses. */
  lemma NotOwnSuperClass(classes: ClassMap, n: string)
    requires Acyclic(classes) && n in classes
    ensures n !in AllSuperClasses(classes, classes[n])
  {
    SuperClassesRankBelow(classes, classes[n]);
    HeightBelowRank(classes, TheRank(classes), n);
  }

  // ---------------------------------------------------------------------
  // Properties of the interface walk

  /** Some loaded declared name among `names` is `k` or has `k` among its
      interfaces. */
  ghost predicate ReachedFrom(classes: ClassMap, names: seq<string>, k: string)
    requires Acyclic(classes)
  {
    exists i | 0 <= i < |names| && names[i] in classes ::
      k == names[i] || k in AllInterfaces(classes, classes[names[i]])
  }

  /** Exactly the names already collected, and those reached from the
      declared list, come out of the loop. */
  lemma {:induction false} DeclaredClosureKeys(classes: ClassMap, names: seq<string>, acc: ClassMap, k: string)
    requires Acyclic(classes) && IsSubmap(acc, classes)
    ensures k in DeclaredClosure(classes, names, acc) <==> k in acc || ReachedFrom(classes, names, k)
    decreases |names|
  {
    if names != [] {
      var n := names[0];
      ReachedFromCons(classes, names, k);
      if n in classes {
        DeclaredClosureStep(classes, names, acc);
        var found := AllInterfaces(classes, classes[n]);
        var acc' := acc[n := classes[n]] + found;
        DeclaredClosureKeys(classes, names[1..], acc', k);
        assert k in acc' <==> k in acc || k == n || k in found;
      } else {
        DeclaredClosureSkip(classes, names, acc);
        DeclaredClosureKeys(classes, names[1..], acc, k);
      }
    }
  }

  /** A name is reached from a list when the first name reaches it or the
      rest of the list does. */
  lemma ReachedFromCons(classes: ClassMap, names: seq<string>, k: string)
    requires Acyclic(classes) && names != []
    ensures ReachedFrom(classes, names, k)
        <==> (names[0] in classes && (k == names[0] || k in AllInterfaces(classes, classes[names[0]])))
             || ReachedFrom(classes, names[1..], k)
  {
    if ReachedFrom(classes, names[1..], k) {
      var i :| 0 <= i < |names[1..]| && names[1..][i] in classes
        && (k == names[1..][i] || k in AllInterfaces(classes, classes[names[1..][i]]));
      assert names[i + 1] == names[1..][i];
    }
    if ReachedFrom(classes, names, k) {
      var i :| 0 <= i < |names| && names[i] in classes
        && (k == names[i] || k in AllInterfaces(classes, classes[names[i]]));
      if i > 0 {
        assert names[1..][i - 1] == names[i];
      }
    }
  }

  /** The exact contents of the interface walk: the interfaces of the
      superclass, plus every loaded declared interface with its own
      interfaces; declared names that are not loaded are skipped. */
  lemma AllInterfacesKeys(classes: ClassMap, c: ClassInfo, k: string)
    requires Acyclic(classes)
    ensures k in AllInterfaces(classes, c)
        <==> k in InterfacesOfSuper(classes, c) || ReachedFrom(classes, DeclaredInterfaces(c), k)
  {
    DeclaredClosureKeys(classes, DeclaredInterfaces(c), InterfacesOfSuper(classes, c), k);
  }

  /** The interface walk includes that of a loaded superclass. */
  lemma InterfacesIncludeSuper(classes: ClassMap, c: ClassInfo, s: string)
    requires Acyclic(classes) && c.superClassName == Some(s) && s in classes
    ensures IsSubmap(AllInterfaces(classes, classes[s]), AllInterfaces(classes, c))
  {}

  /** Each loaded declared interface is found under its name, together with
      its own interfaces. */
  lemma InterfacesIncludeDeclared(classes: ClassMap, c: ClassInfo, i: nat)
    requires Acyclic(classes)
    requires i < |DeclaredInterfaces(c)| && DeclaredInterfaces(c)[i] in classes
    ensures var n := DeclaredInterfaces(c)[i];
      n in AllInterfaces(classes, c) && AllInterfaces(classes, c)[n] == classes[n]
      && IsSubmap(AllInterfaces(classes, classes[n]), AllInterfaces(classes, c))
  {
    var n := DeclaredInterfaces(c)[i];
    AllInterfacesKeys(classes, c, n);
    forall k | k in AllInterfaces(classes, classes[n]) ensures k in AllInterfaces(classes, c) {
      AllInterfacesKeys(classes, c, k);
    }
  }

  /** Everything the interface walk finds ranks strictly below the class. */
  lemma {:induction false} InterfacesRankBelow(classes: ClassMap, c: ClassInfo)
    requires Acyclic(classes)
    ensures forall k | k in AllInterfaces(classes, c) :: TheRank(classes)[k] < Height(classes, TheRank(classes), c)
    decreases Height(classes, TheRank(classes), c), 2
  {
    var rank := TheRank(classes);
    var names := DeclaredInterfaces(c);
    forall k | k in AllInterfaces(classes, c) ensures rank[k] < Height(classes, rank, c) {
      AllInterfacesKeys(classes, c, k);
      if k in InterfacesOfSuper(classes, c) {
        var s := c.superClassName.value;
        HeightBelowRank(classes, rank, s);
        InterfacesRankBelow(classes, classes[s]);
      } else {
        var i :| 0 <= i < |names| && names[i] in classes
          && (k == names[i] || k in AllInterfaces(classes, classes[names[i]]));
        NamesBoundAbove(classes, rank, names, i);
        if k != names[i] {
          HeightBelowRank(classes, rank, names[i]);
          InterfacesRankBelow(classes, classes[names[i]]);
        }
      }
    }
  }

  /** A loaded class is never among its own interfaces. */
  lemma NotOwnInterface(classes: ClassMap, n: string)
    requires Acyclic(classes) && n in classes
    ensures n !in AllInterfaces(classes, classes[n])
  {
    InterfacesRankBelow(classes, classes[n]);
    HeightBelowRank(classes, TheRank(classes), n);
  }

  // ---------------------------------------------------------------------
  // The counting walks of ClassFinder: they write into the caller's map and
  // return how many `put`s they made.

  lemma DiffChain(a: set<string>, b: set<string>, c: set<string>)
    requires a <= b <= c
    ensures |c - a| == |c - b| + |b - a|
  {
    assert c - a == (c - b) + (b - a);
    assert (c - b) * (b - a) == {};
  }

  /** Putting a fresh name and then all of `rest` adds one entry more than `rest` has. */
  lemma PutThenUnion(acc: ClassMap, s: string, v: ClassInfo, rest: ClassMap)
    ensures acc[s := v] + rest == acc + (map[s := v] + rest)
  {}

  lemma PutFresh(s: string, v: ClassInfo, rest: ClassMap)
    requires s !in rest
    ensures |map[s := v] + rest| == |rest| + 1
  {
    assert map[s := v] + rest == rest[s := v];
  }

  /** `ClassFinder.findAllSuperClasses(classInfo, superClasses)`: the map
      receives exactly what the resolver finds, and the count is the number
      of superclasses found, each once. */
  function CountSuperClasses(classes: ClassMap, c: ClassInfo, acc: ClassMap): (res: (ClassMap, nat))
    requires Acyclic(classes)
    ensures res.0 == acc + AllSuperClasses(classes, c)
    ensures res.1 == |AllSuperClasses(classes, c)|
    decreases Height(classes, TheRank(classes), c)
  {
    match c.superClassName
    case None => (acc, 0)
    case Some(s) =>
      if s in classes then
        HeightBelowRank(classes, TheRank(classes), s);
        var res' := CountSuperClasses(classes, classes[s], acc[s := classes[s]]);
        NotOwnSuperClass(classes, s);
        PutThenUnion(acc, s, classes[s], AllSuperClasses(classes, classes[s]));
        PutFresh(s, classes[s], AllSuperClasses(classes, classes[s]));
        (res'.0, res'.1 + 1)
      else (acc, 0)
  }

  /** The loop over the declared names depends only on which names the map
      already holds: extra names in the starting map are extra names at the end. */
  lemma DeclaredClosureShift(classes: ClassMap, names: seq<string>, a: ClassMap, b: ClassMap, extra: set<string>)
    requires Acyclic(classes) && IsSubmap(a, classes) && IsSubmap(b, classes)
    requires a.Keys == extra + b.Keys
    ensures DeclaredClosure(classes, names, a).Keys == extra + DeclaredClosure(classes, names, b).Keys
  {
    forall k ensures k in DeclaredClosure(classes, names, a) <==> k in extra || k in DeclaredClosure(classes, names, b) {
      DeclaredClosureKeys(classes, names, a, k);
      DeclaredClosureKeys(classes, names, b, k);
    }
  }

  /** Counting arithmetic of one step of the declared-names loop. */
  lemma CountStep(before: set<string>, withN: set<string>, first: set<string>, after: set<string>, t1: nat, t2: nat)
    requires before <= withN <= first <= after && |withN - before| <= 1
    requires t1 >= |first - withN| && t2 >= |after - first|
    ensures 1 + t1 + t2 >= |after - before|
  {
    DiffChain(withN, first, after);
    DiffChain(before, withN, after);
  }

  /** `ClassFinder.findAllInterfaces(classInfo, interfaces)`: the map receives
      exactly the names the resolver finds, and the count is at least the
      number of names added (an interface reached along two paths is
      counted twice; see `DiamondCountedTwice`). */
  function CountInterfaces(classes: ClassMap, c: ClassInfo, acc: ClassMap): (res: (ClassMap, nat))
    requires Acyclic(classes) && IsSubmap(acc, classes)
    ensures IsSubmap(res.0, classes)
    ensures res.0.Keys == acc.Keys + AllInterfaces(classes, c).Keys
    ensures res.1 >= |res.0.Keys - acc.Keys|
    decreases Height(classes, TheRank(classes), c), 2, 0
  {
    var names := DeclaredInterfaces(c);
    var afterSuper := CountSuperInterfaces(classes, c, acc);
    var afterDeclared := CountDeclared(classes, names, afterSuper.0);
    DeclaredClosureShift(classes, names, afterSuper.0, InterfacesOfSuper(classes, c), acc.Keys);
    DiffChain(acc.Keys, afterSuper.0.Keys, afterDeclared.0.Keys);
    (afterDeclared.0, afterSuper.1 + afterDeclared.1)
  }

  /** The superclass part of the counting `findAllInterfaces`. */
  function CountSuperInterfaces(classes: ClassMap, c: ClassInfo, acc: ClassMap): (res: (ClassMap, nat))
    requires Acyclic(classes) && IsSubmap(acc, classes)
    ensures IsSubmap(res.0, classes)
    ensures res.0.Keys == acc.Keys + InterfacesOfSuper(classes, c).Keys
    ensures res.1 >= |res.0.Keys - acc.Keys|
    decreases Height(classes, TheRank(classes), c), 1, 0
  {
    match c.superClassName
    case None => (acc, 0)
    case Some(s) =>
      if s in classes then
        HeightBelowRank(classes, TheRank(classes), s);
        CountInterfaces(classes, classes[s], acc)
      else (acc, 0)
  }

  /** What one round of the counting loop adds, from what its two calls promise. */
  lemma CountDeclaredStep(classes: ClassMap, names: seq<string>, acc: ClassMap,
                          first: (ClassMap, nat), rest: (ClassMap, nat))
    requires Acyclic(classes) && IsSubmap(acc, classes)
    requires names != [] && names[0] in classes
    requires first.0.Keys == acc[names[0] := classes[names[0]]].Keys + AllInterfaces(classes, classes[names[0]]).Keys
    requires IsSubmap(first.0, classes)
    requires first.1 >= |first.0.Keys - acc[names[0] := classes[names[0]]].Keys|
    requires rest.0.Keys == DeclaredClosure(classes, names[1..], first.0).Keys
    requires rest.1 >= |rest.0.Keys - first.0.Keys|
    ensures rest.0.Keys == DeclaredClosure(classes, names, acc).Keys
    ensures 1 + first.1 + rest.1 >= |rest.0.Keys - acc.Keys|
  {
    var n := names[0];
    var before, withN, firstKeys, after := acc.Keys, acc[n := classes[n]].Keys, first.0.Keys, rest.0.Keys;
    KeysOfPut(acc, n, classes[n]);
    DeclaredClosureFirst(classes, names, acc, first.0);
    DeclaredClosureGrows(classes, names[1..], first.0);
    assert firstKeys <= after;
    assert first.1 >= |firstKeys - withN|;
    assert rest.1 >= |after - firstKeys|;
    CountRound(before, n, withN, firstKeys, after, first.1, rest.1);
    assert after == DeclaredClosure(classes, names, acc).Keys;
    assert 1 + first.1 + rest.1 >= |after - before|;
  }

  /** Writing a key adds exactly that key. */
  lemma KeysOfPut<K, V>(m: map<K, V>, k: K, v: V)
    ensures m[k := v].Keys == m.Keys + {k}
  {}

  /** Counting arithmetic of one round of the declared-names loop: one `put`
      for the declared name, then the counts of the two calls. */
  lemma CountRound(before: set<string>, n: string, withN: set<string>, first: set<string>, after: set<string>,
                   t1: nat, t2: nat)
    requires withN == before + {n} && withN <= first <= after
    requires t1 >= |first - withN| && t2 >= |after - first|
    ensures 1 + t1 + t2 >= |after - before|
  {
    PutCount(before, n, withN);
    CountStep(before, withN, first, after, t1, t2);
  }

  lemma DeclaredClosureGrows(classes: ClassMap, names: seq<string>, acc: ClassMap)
    requires Acyclic(classes) && IsSubmap(acc, classes)
    ensures acc.Keys <= DeclaredClosure(classes, names, acc).Keys
  {}

  lemma PutCount(before: set<string>, n: string, after: set<string>)
    requires after == before + {n}
    ensures before <= after && |after - before| <= 1
  {
    if n in before { assert after - before == {}; } else { assert after - before == {n}; }
  }

  /** Writing a loaded entry into a submap gives a submap. */
  lemma PutSubmap(classes: ClassMap, acc: ClassMap, n: string)
    requires IsSubmap(acc, classes) && n in classes
    ensures IsSubmap(acc[n := classes[n]], classes)
  {}

  /** A loaded entry and a submap, written on top of a submap, give a submap. */
  lemma PutUnionSubmap(classes: ClassMap, acc: ClassMap, n: string, found: ClassMap)
    requires IsSubmap(acc, classes) && IsSubmap(found, classes) && n in classes
    ensures IsSubmap(acc[n := classes[n]] + found, classes)
  {}

  /** One unfolding of the declared-names loop, for any map with the keys
      the first round produces. */
  lemma DeclaredClosureFirst(classes: ClassMap, names: seq<string>, acc: ClassMap, first: ClassMap)
    requires Acyclic(classes) && IsSubmap(acc, classes) && IsSubmap(first, classes)
    requires names != [] && names[0] in classes
    requires first.Keys == acc[names[0] := classes[names[0]]].Keys + AllInterfaces(classes, classes[names[0]]).Keys
    ensures DeclaredClosure(classes, names[1..], first).Keys == DeclaredClosure(classes, names, acc).Keys
  {
    var n := names[0];
    var found := AllInterfaces(classes, classes[n]);
    var next := acc[n := classes[n]] + found;
    PutUnionSubmap(classes, acc, n, found);
    assert DeclaredClosure(classes, names, acc) == DeclaredClosure(classes, names[1..], next);
    var withN := acc[n := classes[n]];
    KeysOfUnion(withN, found);
    var none: set<string> := {};
    assert first.Keys == none + next.Keys;
    DeclaredClosureShift(classes, names[1..], first, next, none);
    var l, r := DeclaredClosure(classes, names[1..], first).Keys, DeclaredClosure(classes, names[1..], next).Keys;
    assert l == none + r;
    assert l == r;
  }

  /** The keys of a union are the union of the keys. */
  lemma KeysOfUnion<K, V>(m1: map<K, V>, m2: map<K, V>)
    ensures (m1 + m2).Keys == m1.Keys + m2.Keys
  {}

  /** The loop of the counting `findAllInterfaces` over the declared names. */
  function CountDeclared(classes: ClassMap, names: seq<string>, acc: ClassMap): (res: (ClassMap, nat))
    requires Acyclic(classes) && IsSubmap(acc, classes)
    ensures IsSubmap(res.0, classes)
    ensures res.0.Keys == DeclaredClosure(classes, names, acc).Keys
    ensures res.1 >= |res.0.Keys - acc.Keys|
    decreases NamesBound(classes, TheRank(classes), names), 1, |names|
  {
    if names == [] then (acc, 0)
    else
      var n := names[0];
      if n in classes then
        NamesBoundAbove(classes, TheRank(classes), names, 0);
        HeightBelowRank(classes, TheRank(classes), n);
        var withN := acc[n := classes[n]];
        PutSubmap(classes, acc, n);
        var first := CountInterfaces(classes, classes[n], withN);
        var rest := CountDeclared(classes, names[1..], first.0);
        CountDeclaredStep(classes, names, acc, first, rest);
        (rest.0, 1 + first.1 + rest.1)
      else
        DeclaredClosureSkip(classes, names, acc);
        CountDeclared(classes, names[1..], acc)
  }

  /** A class with no superclass and no declared interfaces: nothing is
      found and nothing is counted. */
  lemma RootCounts(classes: ClassMap, c: ClassInfo, acc: ClassMap)
    requires Acyclic(classes) && IsSubmap(acc, classes)
    requires c.superClassName.None? && DeclaredInterfaces(c) == []
    ensures AllInterfaces(classes, c) == map[]
    ensures CountInterfaces(classes, c, acc) == (acc, 0)
  {}

  /** A class whose only parent is one loaded root interface `k`: the walk
      finds `k` alone. */
  lemma SingleParentKeys(classes: ClassMap, c: ClassInfo, k: string)
    requires Acyclic(classes)
    requires c.superClassName.None? && DeclaredInterfaces(c) == [k]
    requires k in classes && classes[k].superClassName.None? && DeclaredInterfaces(classes[k]) == []
    ensures AllInterfaces(classes, c) == map[k := classes[k]]
  {
    var names := DeclaredInterfaces(c);
    RootCounts(classes, classes[k], map[]);
    assert |names[1..]| == 0;
    var m: ClassMap := map[];
    assert InterfacesOfSuper(classes, c) == m;
    assert AllInterfaces(classes, c) == DeclaredClosure(classes, names, m);
    var next := m[k := classes[k]] + AllInterfaces(classes, classes[k]);
    assert DeclaredClosure(classes, names, m) == DeclaredClosure(classes, [], next);
    assert next == map[k := classes[k]];
  }

  /** ... and counts one `put`. */
  lemma SingleParentCounts(classes: ClassMap, c: ClassInfo, k: string, acc: ClassMap)
    requires Acyclic(classes) && IsSubmap(acc, classes)
    requires c.superClassName.None? && DeclaredInterfaces(c) == [k]
    requires k in classes && classes[k].superClassName.None? && DeclaredInterfaces(classes[k]) == []
    ensures CountInterfaces(classes, c, acc).1 == 1
  {
    var names := DeclaredInterfaces(c);
    var withK := acc[k := classes[k]];
    RootCounts(classes, classes[k], withK);
    assert |names[1..]| == 0;
    assert CountSuperInterfaces(classes, c, acc) == (acc, 0);
    assert CountDeclared(classes, [], withK) == (withK, 0);
  }

  /** A diamond: `c` implements `i` and `j`, and both extend the root `k`.
      The resolver finds each of the three once. */
  lemma DiamondKeys(classes: ClassMap, c: ClassInfo, i: string, j: string, k: string)
    requires Acyclic(classes)
    requires c.superClassName.None? && DeclaredInterfaces(c) == [i, j]
    requires i in classes && classes[i].superClassName.None? && DeclaredInterfaces(classes[i]) == [k]
    requires j in classes && classes[j].superClassName.None? && DeclaredInterfaces(classes[j]) == [k]
    requires k in classes && classes[k].superClassName.None? && DeclaredInterfaces(classes[k]) == []
    ensures AllInterfaces(classes, c).Keys == {i, j, k}
  {
    var names := DeclaredInterfaces(c);
    assert names[1..] == [j] && |names[1..][1..]| == 0;
    SingleParentKeys(classes, classes[i], k);
    SingleParentKeys(classes, classes[j], k);
    var m: ClassMap := map[];
    assert InterfacesOfSuper(classes, c) == m;
    assert AllInterfaces(classes, c) == DeclaredClosure(classes, names, m);
    var fromI, fromJ := AllInterfaces(classes, classes[i]), AllInterfaces(classes, classes[j]);
    var withI := m[i := classes[i]];
    var afterI := withI + fromI;
    DeclaredClosureStep(classes, names, m);
    KeysOfPut(m, i, classes[i]);
    KeysOfUnion(withI, fromI);
    var withJ := afterI[j := classes[j]];
    var afterJ := withJ + fromJ;
    DeclaredClosureStep(classes, names[1..], afterI);
    KeysOfPut(afterI, j, classes[j]);
    KeysOfUnion(withJ, fromJ);
    assert DeclaredClosure(classes, names[1..][1..], afterJ) == afterJ;
    var none: set<string> := {};
    assert fromI.Keys == {k} && fromJ.Keys == {k} && m.Keys == none;
    DiamondSets(m.Keys, withI.Keys, afterI.Keys, withJ.Keys, afterJ.Keys, fromI.Keys, fromJ.Keys, i, j, k);
  }

  /** The key arithmetic of the diamond: two rounds, each adding a name and `k`. */
  lemma DiamondSets<T>(m: set<T>, withI: set<T>, afterI: set<T>, withJ: set<T>, afterJ: set<T>,
                       fromI: set<T>, fromJ: set<T>, i: T, j: T, k: T)
    requires |m| == 0 && fromI == {k} && fromJ == {k}
    requires withI == m + {i} && afterI == withI + fromI
    requires withJ == afterI + {j} && afterJ == withJ + fromJ
    ensures afterJ == {i, j, k}
  {}

  /** A round of the declared-names loop on a name that is not loaded. */
  lemma DeclaredClosureSkip(classes: ClassMap, names: seq<string>, acc: ClassMap)
    requires Acyclic(classes) && IsSubmap(acc, classes)
    requires names != [] && names[0] !in classes
    ensures DeclaredClosure(classes, names, acc) == DeclaredClosure(classes, names[1..], acc)
  {}

  /** One round of the declared-names loop on a loaded name. */
  lemma DeclaredClosureStep(classes: ClassMap, names: seq<string>, acc: ClassMap)
    requires Acyclic(classes) && IsSubmap(acc, classes)
    requires names != [] && names[0] in classes
    ensures IsSubmap(acc[names[0] := classes[names[0]]] + AllInterfaces(classes, classes[names[0]]), classes)
    ensures DeclaredClosure(classes, names, acc)
         == DeclaredClosure(classes, names[1..], acc[names[0] := classes[names[0]]] + AllInterfaces(classes, classes[names[0]]))
  {
    PutUnionSubmap(classes, acc, names[0], AllInterfaces(classes, classes[names[0]]));
  }

  /** The counting walk on the same diamond puts `k` once along each path. */
  lemma DiamondCounts(classes: ClassMap, c: ClassInfo, i: string, j: string, k: string)
    requires Acyclic(classes)
    requires c.superClassName.None? && DeclaredInterfaces(c) == [i, j]
    requires i in classes && classes[i].superClassName.None? && DeclaredInterfaces(classes[i]) == [k]
    requires j in classes && classes[j].superClassName.None? && DeclaredInterfaces(classes[j]) == [k]
    requires k in classes && classes[k].superClassName.None? && DeclaredInterfaces(classes[k]) == []
    ensures CountInterfaces(classes, c, map[]).1 == 4
  {
    var names := DeclaredInterfaces(c);
    assert names[1..] == [j] && |names[1..][1..]| == 0;
    var m: ClassMap := map[];
    var withI := m[i := classes[i]];
    SingleParentCounts(classes, classes[i], k, withI);
    var first := CountInterfaces(classes, classes[i], withI);
    LastDeclaredCounts(classes, j, k, first.0);
    assert CountSuperInterfaces(classes, c, m) == (m, 0);
    assert CountDeclared(classes, names, m).1 == 1 + first.1 + CountDeclared(classes, names[1..], first.0).1;
  }

  /** The last round of the loop, on a loaded name `j` whose only parent is
      the root `k`: two `put`s. */
  lemma LastDeclaredCounts(classes: ClassMap, j: string, k: string, acc: ClassMap)
    requires Acyclic(classes) && IsSubmap(acc, classes)
    requires j in classes && classes[j].superClassName.None? && DeclaredInterfaces(classes[j]) == [k]
    requires k in classes && classes[k].superClassName.None? && DeclaredInterfaces(classes[k]) == []
    ensures CountDeclared(classes, [j], acc).1 == 2
  {
    var withJ := acc[j := classes[j]];
    SingleParentCounts(classes, classes[j], k, withJ);
    var second := CountInterfaces(classes, classes[j], withJ);
    assert |[j][1..]| == 0;
    assert CountDeclared(classes, [j], acc).1 == 1 + second.1 + CountDeclared(classes, [], second.0).1;
    assert second.1 == 1;
    assert CountDeclared(classes, [], second.0).1 == 0;
  }

  /** The record of an interface with the given direct superinterfaces. */
  function InterfaceRecord(name: string, parents: seq<string>): ClassInfo {
    ClassInfo(0x600, name, None, Some(parents), "", {}, {}, {})
  }

  /** The concrete diamond: `I` and `J` both extend `K`. */
  function DiamondClasses(): ClassMap {
    map["K" := InterfaceRecord("K", []), "I" := InterfaceRecord("I", ["K"]), "J" := InterfaceRecord("J", ["K"])]
  }

  lemma DiamondShape()
    ensures Acyclic(DiamondClasses())
    ensures var classes := DiamondClasses();
      && "I" in classes && classes["I"].superClassName.None? && DeclaredInterfaces(classes["I"]) == ["K"]
      && "J" in classes && classes["J"].superClassName.None? && DeclaredInterfaces(classes["J"]) == ["K"]
      && "K" in classes && classes["K"].superClassName.None? && DeclaredInterfaces(classes["K"]) == []
  {
    var rank: map<string, nat> := map["K" := 0, "I" := 1, "J" := 1];
    assert RankedBy(DiamondClasses(), rank);
  }

  /** On concrete names: `C` implements `I` and `J`. Three interfaces are
      found and four are counted. */
  lemma DiamondCountedTwice()
    ensures Acyclic(DiamondClasses())
    ensures CountInterfaces(DiamondClasses(), InterfaceRecord("C", ["I", "J"]), map[]).1 == 4
    ensures |AllInterfaces(DiamondClasses(), InterfaceRecord("C", ["I", "J"])).Keys| == 3
  {
    DiamondShape();
    var c := InterfaceRecord("C", ["I", "J"]);
    DiamondKeys(DiamondClasses(), c, "I", "J", "K");
    DiamondCounts(DiamondClasses(), c, "I", "J", "K");
    ThreeNames("I", "J", "K");
  }

  /** `findAllInterfaces` as its documentation describes it: the map
      receives the same entries as the counting walk, and the answer is the
      number of interfaces found, each once. */
  function CountInterfacesFound(classes: ClassMap, c: ClassInfo, acc: ClassMap): (res: (ClassMap, nat))
    requires Acyclic(classes) && IsSubmap(acc, classes)
    ensures res.0 == CountInterfaces(classes, c, acc).0
    ensures acc == map[] ==> res.1 == |res.0.Keys| <= CountInterfaces(classes, c, acc).1
  {
    FoundMatchesCounted(classes, c, acc);
    CountedFromEmpty(classes, c, acc);
    (acc + AllInterfaces(classes, c), |AllInterfaces(classes, c).Keys|)
  }

  /** The entries the counting walk leaves are the caller's plus those the
      resolver finds. */
  lemma FoundMatchesCounted(classes: ClassMap, c: ClassInfo, acc: ClassMap)
    requires Acyclic(classes) && IsSubmap(acc, classes)
    ensures acc + AllInterfaces(classes, c) == CountInterfaces(classes, c, acc).0
  {
    var found := AllInterfaces(classes, c);
    var counted := CountInterfaces(classes, c, acc);
    var both := acc + found;
    KeysOfUnion(acc, found);
    UnionSubmap(classes, acc, found);
    assert both.Keys == counted.0.Keys;
    SameKeysSameSubmap(classes, both, counted.0);
  }

  lemma UnionSubmap(classes: ClassMap, a: ClassMap, b: ClassMap)
    requires IsSubmap(a, classes) && IsSubmap(b, classes)
    ensures IsSubmap(a + b, classes)
  {}

  /** Starting from an empty map, the counting walk counts at least the
      interfaces it finds. */
  lemma CountedFromEmpty(classes: ClassMap, c: ClassInfo, acc: ClassMap)
    requires Acyclic(classes) && IsSubmap(acc, classes)
    ensures acc == map[] ==> |AllInterfaces(classes, c).Keys| <= CountInterfaces(classes, c, acc).1
  {
    if acc == map[] {
      var counted := CountInterfaces(classes, c, acc);
      var none: set<string> := {};
      assert acc.Keys == none;
      assert counted.0.Keys - none == counted.0.Keys;
      assert counted.0.Keys == AllInterfaces(classes, c).Keys;
    }
  }

  /** Two submaps of the loaded classes with the same names are equal. */
  lemma SameKeysSameSubmap(classes: ClassMap, a: ClassMap, b: ClassMap)
    requires IsSubmap(a, classes) && IsSubmap(b, classes) && a.Keys == b.Keys
    ensures a == b
  {}

  /** On the diamond the corrected count is three. */
  lemma DiamondCountedOnce()
    ensures Acyclic(DiamondClasses())
    ensures CountInterfacesFound(DiamondClasses(), InterfaceRecord("C", ["I", "J"]), map[]).1 == 3
  {
    DiamondCountedTwice();
  }

  lemma ThreeNames(a: string, b: string, c: string)
    requires |a| == |b| == |c| == 1 && a[0] != b[0] && b[0] != c[0] && a[0] != c[0]
    ensures |{a, b, c}| == 3
  {
    assert a != b && b != c && a != c;
  }
}
