/** Class filters: the short-circuiting disjunction `Or` and the
    annotation filter `Annotated`. The other filters of the library
    (interface, subclass, regular expression, negation, ...) are leaves whose
    verdict an oracle supplies; like every filter they see the record under
    test and the hierarchy resolver, that is, the map of loaded classes. */
module Filters {
  import opened Classes
  import opened Annotations
  import opened Hierarchy
  import opened Text
  import opened Seqs

  /** The verdict of an opaque leaf filter, identified by its reference. */
  type LeafOracle = (nat, ClassInfo, ClassMap) -> bool

  /** A filter object. `ref` is its identity: none of the filter classes
      overrides `equals`, so the filter lists compare filters by reference,
      and two objects built alike are still two filters. Distinct objects are
      taken to have distinct refs; the type does not enforce it. */
  datatype Filter =
    | Leaf(ref: nat)
    | Or(ref: nat, filters: seq<Filter>)
    | Annotated(ref: nat, annotationName: string)

  /** The binary names of a set of annotations. */
  function AnnotationNames(annotations: set<AnnotationInfo>): set<string> {
    set a | a in annotations :: a.name
  }

  /** What `accept` answers: a leaf asks the oracle; an `Or` with no filters
      accepts, otherwise it accepts when one of its filters does; `Annotated`
      accepts when some annotation of the record has the configured name. */
  predicate Accepts(f: Filter, leaf: LeafOracle, c: ClassInfo, classes: ClassMap) {
    match f
    case Leaf(id) => leaf(id, c, classes)
    case Or(_, fs) => |fs| == 0 || exists i | 0 <= i < |fs| :: Accepts(fs[i], leaf, c, classes)
    case Annotated(_, name) => exists a | a in c.annotations :: a.name == name
  }

  // ---------------------------------------------------------------------
  // Or

  /** `Or.accept`: with no filters, true; otherwise the filters are asked in
      list order and the loop stops at the first that accepts. `evaluated`
      is how many filters were asked. */
  method OrAccept(fs: seq<Filter>, leaf: LeafOracle, c: ClassInfo, classes: ClassMap)
    returns (accepted: bool, evaluated: nat)
    ensures accepted == Accepts(Or(0, fs), leaf, c, classes)
    ensures evaluated <= |fs|
    ensures forall j | 0 <= j < evaluated - 1 :: !Accepts(fs[j], leaf, c, classes)
    ensures fs != [] && accepted ==> 0 < evaluated && Accepts(fs[evaluated - 1], leaf, c, classes)
    ensures !accepted ==> evaluated == |fs|
  {
    accepted := false;
    evaluated := 0;
    if |fs| == 0 {
      accepted := true;
    } else {
      while evaluated < |fs| && !accepted
        invariant evaluated <= |fs|
        invariant accepted == (0 < evaluated && Accepts(fs[evaluated - 1], leaf, c, classes))
        invariant forall j | 0 <= j < evaluated - 1 :: !Accepts(fs[j], leaf, c, classes)
        decreases |fs| - evaluated
      {
        accepted := Accepts(fs[evaluated], leaf, c, classes);
        evaluated := evaluated + 1;
      }
    }
  }

  /** `addFilter`: the new filter goes to the end of the list of the same
      `Or` object. */
  function AddFilter(or: Filter, f: Filter): (r: Filter)
    requires or.Or?
    ensures r.Or? && r.ref == or.ref && |r.filters| == |or.filters| + 1
    ensures r.filters[..|or.filters|] == or.filters && r.filters[|or.filters|] == f
  {
    Or(or.ref, or.filters + [f])
  }

  /** `new Or(f1, ..., fn)`: a fresh, empty `Or` object (identity `ref`) to
      which each argument is added in turn. */
  function NewOr(ref: nat, fs: seq<Filter>): (r: Filter)
    ensures r.Or? && r.ref == ref
  {
    if fs == [] then Or(ref, []) else AddFilter(NewOr(ref, fs[..|fs| - 1]), fs[|fs| - 1])
  }

  /** `Or.anyOf(f1, ..., fn)`. */
  function AnyOf(ref: nat, fs: seq<Filter>): (r: Filter)
    ensures r.Or? && r.ref == ref
  {
    NewOr(ref, fs)
  }

  /** The constructor and `anyOf` keep the filters in argument order. */
  lemma {:induction false} NewOrKeepsOrder(ref: nat, fs: seq<Filter>)
    ensures NewOr(ref, fs) == Or(ref, fs)
    ensures AnyOf(ref, fs) == Or(ref, fs)
  {
    if fs != [] {
      NewOrKeepsOrder(ref, fs[..|fs| - 1]);
      SplitLast(fs);
    }
  }

  /** The identities of a list of filters, in order. */
  function Refs(fs: seq<Filter>): (rs: seq<nat>)
    ensures |rs| == |fs|
    ensures forall i | 0 <= i < |fs| :: rs[i] == fs[i].ref
  {
    if fs == [] then [] else [fs[0].ref] + Refs(fs[1..])
  }

  /** `removeFilter`: `List.remove(Object)` drops the first element that is
      the same object as `f` (the default `equals`), if there is one, and
      keeps the others in order. A distinct filter built alike removes
      nothing. */
  function RemoveFilter(or: Filter, f: Filter): (r: Filter)
    requires or.Or?
    ensures r.Or? && r.ref == or.ref
    ensures f.ref !in Refs(or.filters) ==> r == or
    ensures f.ref in Refs(or.filters) ==> |r.filters| == |or.filters| - 1
  {
    Or(or.ref, RemoveFirst(or.filters, f))
  }

  /** Position of the first element that is the same object as `f`, or the
      length of the list. */
  function IndexOf(fs: seq<Filter>, f: Filter): (i: nat)
    ensures i <= |fs| && (i < |fs| <==> f.ref in Refs(fs))
    ensures i < |fs| ==> fs[i].ref == f.ref
    ensures forall j | 0 <= j < i :: fs[j].ref != f.ref
  {
    if fs == [] then 0
    else if fs[0].ref == f.ref then 0
    else
      assert Refs(fs) == [fs[0].ref] + Refs(fs[1..]);
      1 + IndexOf(fs[1..], f)
  }

  /** `List.remove(Object)`: the first element that is the same object as
      `f` is unlinked; a list without one is left as it is. */
  function RemoveFirst(fs: seq<Filter>, f: Filter): (r: seq<Filter>)
    ensures f.ref !in Refs(fs) ==> r == fs
    ensures f.ref in Refs(fs) ==> |r| == |fs| - 1
  {
    var i := IndexOf(fs, f);
    if i < |fs| then fs[..i] + fs[i + 1..] else fs
  }

  /** Exactly the first occurrence goes: whatever precedes it stays, and so
      does whatever follows it. */
  lemma RemoveFirstAt(fs: seq<Filter>, f: Filter, i: nat)
    requires i < |fs| && fs[i].ref == f.ref
    requires forall j | 0 <= j < i :: fs[j].ref != f.ref
    ensures RemoveFirst(fs, f) == fs[..i] + fs[i + 1..]
  {
    assert Refs(fs)[i] == f.ref;
    assert IndexOf(fs, f) == i;
  }

  /** `removeFilter` takes out the first filter that is the same object as
      `f`, at whatever position i that is, and keeps the rest in order. */
  lemma RemoveFilterFirstOccurrence(or: Filter, f: Filter, i: nat)
    requires or.Or? && i < |or.filters| && or.filters[i].ref == f.ref
    requires forall j | 0 <= j < i :: or.filters[j].ref != f.ref
    ensures RemoveFilter(or, f) == Or(or.ref, or.filters[..i] + or.filters[i + 1..])
  {
    RemoveFirstAt(or.filters, f, i);
  }

  /** Removing takes away exactly one reference to a filter that is present. */
  lemma RemoveFilterMultiset(or: Filter, f: Filter)
    requires or.Or?
    ensures multiset(Refs(RemoveFilter(or, f).filters)) == multiset(Refs(or.filters)) - multiset{f.ref}
  {
    var fs := or.filters;
    if f.ref in Refs(fs) {
      var i := IndexOf(fs, f);
      RemoveFirstAt(fs, f, i);
      RefsWithout(fs, i);
      MultisetWithout(Refs(fs), i);
    } else {
      assert multiset(Refs(fs))[f.ref] == 0;
    }
  }

  /** Removing a second `Annotated` filter for the same annotation from an
      `Or` that holds the first leaves the `Or` unchanged: the two are
      different objects. */
  lemma RemoveLookalikeKeeps(orRef: nat, first: nat, second: nat, name: string)
    requires first != second
    ensures var or := NewOr(orRef, [With(first, name)]);
      RemoveFilter(or, With(second, name)) == or
  {
    NewOrKeepsOrder(orRef, [With(first, name)]);
  }

  lemma RefsWithout(fs: seq<Filter>, i: nat)
    requires i < |fs|
    ensures Refs(fs[..i] + fs[i + 1..]) == Refs(fs)[..i] + Refs(fs)[i + 1..]
  {
    var l := Refs(fs[..i] + fs[i + 1..]);
    var r := Refs(fs)[..i] + Refs(fs)[i + 1..];
    assert |l| == |r|;
    forall k | 0 <= k < |l| ensures l[k] == r[k] {
      if k < i {
        assert (fs[..i] + fs[i + 1..])[k] == fs[k];
      } else {
        assert (fs[..i] + fs[i + 1..])[k] == fs[k + 1];
      }
    }
  }

  lemma MultisetWithout<T>(s: seq<T>, i: nat)
    requires i < |s|
    ensures multiset(s[..i] + s[i + 1..]) == multiset(s) - multiset{s[i]}
  {
    assert s == s[..i] + [s[i]] + s[i + 1..];
  }

  /** Adding a filter and then removing it gives the original `Or` back
      when the filter was not there before. */
  lemma AddThenRemove(or: Filter, f: Filter)
    requires or.Or? && f.ref !in Refs(or.filters)
    ensures RemoveFilter(AddFilter(or, f), f) == or
  {
    var fs := or.filters + [f];
    assert fs[..|or.filters|] == or.filters;
    assert forall j | 0 <= j < |or.filters| :: fs[j].ref != f.ref by {
      forall j | 0 <= j < |or.filters| ensures fs[j].ref != f.ref {
        assert fs[j] == or.filters[j];
        assert Refs(or.filters)[j] == or.filters[j].ref;
      }
    }
    RemoveFirstAt(fs, f, |or.filters|);
    assert fs[|or.filters| + 1..] == [];
  }

  /** An `Or` accepts exactly when it has no filters or one of them accepts,
      and the filter added last is consulted like every other one. */
  lemma OrWithAddedFilter(or: Filter, f: Filter, leaf: LeafOracle, c: ClassInfo, classes: ClassMap)
    requires or.Or?
    ensures Accepts(AddFilter(or, f), leaf, c, classes)
        <==> (Accepts(f, leaf, c, classes) || (|or.filters| > 0 && Accepts(or, leaf, c, classes)))
  {
    var fs := AddFilter(or, f).filters;
    if |or.filters| > 0 && Accepts(or, leaf, c, classes) {
      var i :| 0 <= i < |or.filters| && Accepts(or.filters[i], leaf, c, classes);
      assert fs[i] == or.filters[i];
    }
    if Accepts(f, leaf, c, classes) {
      assert fs[|or.filters|] == f;
    }
    if Accepts(AddFilter(or, f), leaf, c, classes) {
      var i :| 0 <= i < |fs| && Accepts(fs[i], leaf, c, classes);
      if i < |or.filters| {
        assert fs[i] == or.filters[i];
      }
    }
  }

  // ---------------------------------------------------------------------
  // Annotated

  /** `Annotated.with(a)`: a fresh object (identity `ref`), as
      `new Annotated(a)` builds. */
  function With(ref: nat, annotationName: string): (f: Filter)
    ensures f.Annotated? && f.ref == ref && f.annotationName == annotationName
  {
    Annotated(ref, annotationName)
  }

  /** `Annotated.accept` answers by name alone: it accepts exactly when the
      configured name is among the record's annotation names, so a record
      without annotations is rejected. */
  lemma AnnotatedAcceptsByName(ref: nat, name: string, leaf: LeafOracle, c: ClassInfo, classes: ClassMap)
    ensures Accepts(Annotated(ref, name), leaf, c, classes) <==> name in AnnotationNames(c.annotations)
    ensures c.annotations == {} ==> !Accepts(Annotated(ref, name), leaf, c, classes)
  {
    if name in AnnotationNames(c.annotations) {
      var a :| a in c.annotations && a.name == name;
    }
  }

  /** The verdict ignores the hierarchy resolver, the leaf oracle, the
      runtime visibility of the annotations and everything else about the
      record except the names of its annotations. */
  lemma AnnotatedSeesOnlyNames(ref: nat, name: string, leaf1: LeafOracle, leaf2: LeafOracle,
                               c1: ClassInfo, c2: ClassInfo, classes1: ClassMap, classes2: ClassMap)
    requires AnnotationNames(c1.annotations) == AnnotationNames(c2.annotations)
    ensures Accepts(Annotated(ref, name), leaf1, c1, classes1) == Accepts(Annotated(ref, name), leaf2, c2, classes2)
  {
    AnnotatedAcceptsByName(ref, name, leaf1, c1, classes1);
    AnnotatedAcceptsByName(ref, name, leaf2, c2, classes2);
  }

  /** Visiting an annotation makes the record acceptable to the filter for
      the name the constructor derives from its descriptor, whether the
      annotation is visible at run time or not. */
  lemma VisitedAnnotationAccepted(ref: nat, c: ClassInfo, desc: string, visible: bool, leaf: LeafOracle, classes: ClassMap)
    ensures Accepts(Annotated(ref, DescriptorToNameAsWritten(desc)), leaf, VisitAnnotation(c, desc, visible), classes)
  {
    var a := NewAnnotationInfo(desc, visible);
    assert a in VisitAnnotation(c, desc, visible).annotations;
  }

  /** For an annotation type whose internal name has no 'L' (and no ';'),
      that name is the type's binary name, so `with` of that name accepts. */
  lemma VisitedPlainAnnotationAccepted(ref: nat, c: ClassInfo, s: string, visible: bool, leaf: LeafOracle, classes: ClassMap)
    requires 'L' !in s && ';' !in s
    ensures Accepts(With(ref, TranslateInternalName(s)), leaf, VisitAnnotation(c, "L" + s + ";", visible), classes)
  {
    AsWrittenOnPlainDescriptor(s);
    VisitedAnnotationAccepted(ref, c, "L" + s + ";", visible, leaf, classes);
  }

  /** A record whose only annotation is of type `p.Log` is not accepted by
      `with("p.Log")`: the stored name has lost its 'L'. */
  lemma VisitedLogRejected(ref: nat, c: ClassInfo, visible: bool, leaf: LeafOracle, classes: ClassMap)
    requires c.annotations == {}
    ensures !Accepts(With(ref, "p.Log"), leaf, VisitAnnotation(c, "Lp/Log;", visible), classes)
  {
    LDroppedFromName();
    var a := NewAnnotationInfo("Lp/Log;", visible);
    var v := VisitAnnotation(c, "Lp/Log;", visible);
    assert v.annotations == {a};
    assert |a.name| == 4;
    assert "p.Log" !in AnnotationNames(v.annotations);
    AnnotatedAcceptsByName(ref, "p.Log", leaf, v, classes);
  }
}
