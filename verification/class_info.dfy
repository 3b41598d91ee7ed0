/** `ClassInfo`: what the finder records about one loaded class: its
    binary name, direct superclass and interfaces, reflection modifiers, the
    place it was found, and the fields, methods and annotations the class
    file reader reports to it. */
module Classes {
  import opened Optional
  import opened Text
  import opened AccessFlags
  import opened Fields
  import opened Methods
  import opened Annotations

  /** A file-system path, as the string `File.getPath` would give. */
  type Path = string

  datatype ClassInfo = ClassInfo(
    modifier: bv32,
    className: string,
    superClassName: Option<string>,
    interfaces: Option<seq<string>>,
    location: Path,
    fields: set<FieldInfo>,
    methods: set<MethodInfo>,
    annotations: set<AnnotationInfo>)

  /** The internal name of the root class, which is never recorded as a superclass. */
  const ObjectInternalName: string := "java/lang/Object"

  /** The binary name `toString` refuses to print as a superclass. */
  const ObjectBinaryName: string := "java.lang.Object"

  /** The interface names, each translated, in the same order. */
  function TranslateAll(names: seq<string>): (r: seq<string>)
    ensures |r| == |names|
    ensures forall i | 0 <= i < |names| :: r[i] == TranslateInternalName(names[i])
  {
    if names == [] then [] else [TranslateInternalName(names[0])] + TranslateAll(names[1..])
  }

  /** `new ClassInfo(name, superClassName, interfaces, asmAccessMask, location)`
      (through `setClassFields`). */
  function NewClassInfo(name: string, superName: Option<string>, interfaces: Option<seq<string>>,
                        asmAccessMask: bv32, location: Path): (c: ClassInfo)
    ensures c.className == TranslateInternalName(name) && '/' !in c.className
    ensures c.superClassName.None? <==> (superName.None? || superName.value == ObjectInternalName)
    ensures c.superClassName.Some? ==> c.superClassName.value == TranslateInternalName(superName.value)
    ensures c.interfaces.None? <==> interfaces.None?
    ensures interfaces.Some? ==>
      |c.interfaces.value| == |interfaces.value|
      && forall i | 0 <= i < |interfaces.value| :: c.interfaces.value[i] == TranslateInternalName(interfaces.value[i])
    ensures c.location == location
    ensures c.fields == {} && c.methods == {} && c.annotations == {}
  {
    var superClassName :=
      if superName.Some? && superName.value != ObjectInternalName
      then Some(TranslateInternalName(superName.value)) else None;
    var translated := match interfaces case Some(ifs) => Some(TranslateAll(ifs)) case None => None;
    ClassInfo(ConvertAccessMask(asmAccessMask), TranslateInternalName(name), superClassName,
              translated, location, {}, {}, {})
  }

  /** The recorded modifiers hold exactly the reflection bits of the flags
      set in the class file's access mask, and nothing else. */
  lemma NewClassInfoModifiers(name: string, superName: Option<string>, interfaces: Option<seq<string>>,
                              asmAccessMask: bv32, location: Path)
    ensures var c := NewClassInfo(name, superName, interfaces, asmAccessMask, location);
      && (forall f: Flag :: Has(c.modifier, f) <==> asmAccessMask & AccBit(f) != 0)
      && c.modifier & !ModifierBits == 0
  {
    ConvertSetsExactlyItsBit(asmAccessMask);
  }

  /** `getClassLocation`. */
  function ClassLocation(c: ClassInfo): Path {
    c.location
  }

  /** The location handed to the constructor is the one reported back. */
  lemma LocationKept(name: string, superName: Option<string>, interfaces: Option<seq<string>>,
                     asmAccessMask: bv32, location: Path)
    ensures ClassLocation(NewClassInfo(name, superName, interfaces, asmAccessMask, location)) == location
  {}

  /** The words `toString` puts before the class name. */
  function KindPrefix(modifier: bv32): string {
    (if Has(modifier, Public) then "public " else "")
    + (if Has(modifier, Abstract) then "abstract " else "")
    + (if Has(modifier, Interface) then "interface " else "class ")
  }

  /** Each interface name preceded by one space. */
  function SpaceEach(names: seq<string>): string {
    if names == [] then "" else " " + names[0] + SpaceEach(names[1..])
  }

  /** " implements I1 I2 …", or nothing for an empty list. */
  function ImplementsClause(names: seq<string>): string {
    if names == [] then "" else " implements" + SpaceEach(names)
  }

  /** " extends S", unless the superclass is absent or `java.lang.Object`. */
  function ExtendsClause(superClassName: Option<string>): string {
    match superClassName
    case Some(s) => if s != ObjectBinaryName then " extends " + s else ""
    case None => ""
  }

  /** `ClassInfo.toString`. A record built with a null interface array makes
      the source dereference null; `None` stands for that exception. */
  function ToString(c: ClassInfo): (r: Option<string>)
    ensures r.None? <==> c.interfaces.None?
    ensures r.Some? ==> (StartsWith(r.value, "public ") <==> Has(c.modifier, Public))
    ensures r.Some? && c.superClassName.Some? && c.superClassName.value != ObjectBinaryName
            ==> EndsWith(r.value, " extends " + c.superClassName.value)
  {
    match c.interfaces
    case None => None
    case Some(ifs) =>
      var front := c.className + ImplementsClause(ifs);
      PublicPrefix(c.modifier, front + ExtendsClause(c.superClassName));
      EndsWithExtends(KindPrefix(c.modifier) + front, c.superClassName);
      Some(KindPrefix(c.modifier) + (front + ExtendsClause(c.superClassName)))
  }

  /** The rendering starts with "public " exactly for a public class. */
  lemma PublicPrefix(modifier: bv32, rest: string)
    ensures StartsWith(KindPrefix(modifier) + rest, "public ") <==> Has(modifier, Public)
  {
    var s := KindPrefix(modifier) + rest;
    if !Has(modifier, Public) {
      assert s[0] == KindPrefix(modifier)[0] != 'p';
    } else {
      assert s[..7] == KindPrefix(modifier)[..7];
    }
  }

  lemma EndsWithExtends(front: string, superClassName: Option<string>)
    ensures superClassName.Some? && superClassName.value != ObjectBinaryName
            ==> EndsWith(front + ExtendsClause(superClassName), " extends " + superClassName.value)
  {
    if superClassName.Some? && superClassName.value != ObjectBinaryName {
      var e := ExtendsClause(superClassName);
      assert (front + e)[|front + e| - |e|..] == e;
    }
  }

  /** The words before the class name, flag by flag: "public " first for a
      public class, then "abstract " for an abstract one, then "interface "
      for an interface and "class " for anything else. */
  lemma KindPrefixWords(modifier: bv32)
    ensures var p := if Has(modifier, Public) then 7 else 0;
      var a := if Has(modifier, Abstract) then 9 else 0;
      var k := KindPrefix(modifier);
      p + a <= |k|
      && (Has(modifier, Public) ==> k[..7] == "public ")
      && (Has(modifier, Abstract) ==> k[p..p + 9] == "abstract ")
      && k[p + a..] == (if Has(modifier, Interface) then "interface " else "class ")
  {
    var pw := if Has(modifier, Public) then "public " else "";
    var aw := if Has(modifier, Abstract) then "abstract " else "";
    var kw := if Has(modifier, Interface) then "interface " else "class ";
    var k := KindPrefix(modifier);
    assert k == pw + aw + kw;
    assert k[..|pw|] == pw;
    assert k[|pw|..|pw| + |aw|] == aw;
    assert k[|pw| + |aw|..] == kw;
  }

  /** For every record with an interface array, the rendering starts with
      those words followed by the class name. */
  lemma ToStringStartsWithName(c: ClassInfo)
    requires c.interfaces.Some?
    ensures StartsWith(ToString(c).value, KindPrefix(c.modifier) + c.className)
  {
    var k := KindPrefix(c.modifier);
    var i := ImplementsClause(c.interfaces.value);
    var e := ExtendsClause(c.superClassName);
    assert ToString(c) == Some(k + (c.className + i + e));
    Regroup(k, c.className, i, e);
    SplitAt(k + c.className, i + e);
  }

  /** After the class name come the implements clause and then the extends
      clause, and nothing else. */
  lemma ToStringAfterName(c: ClassInfo)
    requires c.interfaces.Some?
    ensures var n := |KindPrefix(c.modifier) + c.className|;
      n <= |ToString(c).value|
      && ToString(c).value[n..] == ImplementsClause(c.interfaces.value) + ExtendsClause(c.superClassName)
  {
    var k := KindPrefix(c.modifier);
    var i := ImplementsClause(c.interfaces.value);
    var e := ExtendsClause(c.superClassName);
    assert ToString(c) == Some(k + (c.className + i + e));
    Regroup(k, c.className, i, e);
    SplitAt(k + c.className, i + e);
  }

  lemma Regroup(a: string, b: string, c: string, d: string)
    ensures a + (b + c + d) == (a + b) + (c + d)
  {}

  lemma SplitAt(a: string, b: string)
    ensures StartsWith(a + b, a) && (a + b)[|a|..] == b
  {
    assert (a + b)[..|a|] == a;
  }

  /** The implements clause is empty for no interfaces; otherwise it is
      " implements " and the first interface, followed by the others, each
      after a space. */
  lemma ImplementsClauseFirst(ifs: seq<string>)
    ensures ifs == [] ==> ImplementsClause(ifs) == ""
    ensures ifs != [] ==> ImplementsClause(ifs) == " implements " + ifs[0] + SpaceEach(ifs[1..])
  {
    if ifs != [] {
      assert " implements" + " " == " implements ";
    }
  }

  /** The spaced list is built piecewise: the list of a + b is the list of
      a followed by the list of b. */
  lemma {:induction false} SpaceEachAppend(a: seq<string>, b: seq<string>)
    ensures SpaceEach(a + b) == SpaceEach(a) + SpaceEach(b)
  {
    if a == [] {
      assert a + b == b;
    } else {
      assert (a + b)[1..] == a[1..] + b;
      SpaceEachAppend(a[1..], b);
    }
  }

  /** Each interface follows all those before it, after one space. */
  lemma SpaceEachInOrder(names: seq<string>, i: nat)
    requires i < |names|
    ensures SpaceEach(names[..i + 1]) == SpaceEach(names[..i]) + " " + names[i]
  {
    assert names[..i + 1] == names[..i] + [names[i]];
    SpaceEachAppend(names[..i], [names[i]]);
    assert SpaceEach([names[i]]) == " " + names[i] + SpaceEach([]);
  }

  /** `ACC_PUBLIC | ACC_SUPER`, the flags `javac` gives a plain public class. */
  const PublicClassFlags: bv32 := 0x21

  lemma PublicClassPrefix()
    ensures KindPrefix(ConvertAccessMask(PublicClassFlags)) == "public class "
  {
    var m := ConvertAccessMask(PublicClassFlags);
    assert m == 0x21;
    assert Has(m, Public);
    assert !Has(m, Abstract);
    assert !Has(m, Interface);
    var k := KindPrefix(m);
    assert k == "public " + "class ";
    PublicClassLiteral();
  }

  lemma PublicClassLiteral()
    ensures "public " + "class " == "public class "
  {
    var s := "public " + "class ";
    assert |s| == 13;
    forall i | 0 <= i < 13 ensures s[i] == "public class "[i] {
      if i < 7 { assert s[i] == "public "[i]; } else { assert s[i] == "class "[i - 7]; }
    }
  }

  /** How a public class with a superclass and no interfaces renders. */
  lemma RenderPublicSubclass(c: ClassInfo, sup: string)
    requires c.interfaces == Some([]) && c.superClassName == Some(sup) && sup != ObjectBinaryName
    requires KindPrefix(c.modifier) == "public class "
    ensures ToString(c) == Some("public class " + c.className + " extends " + sup)
  {
    var e := ExtendsClause(c.superClassName);
    assert e == " extends " + sup;
    assert ImplementsClause([]) == "";
    var s := KindPrefix(c.modifier) + (c.className + ImplementsClause([]) + e);
    assert ToString(c) == Some(s);
    assert c.className + "" == c.className;
    assert s == "public class " + c.className + " extends " + sup;
  }

  /** How a public class without a superclass and with one interface renders. */
  lemma RenderPublicImplementer(c: ClassInfo, t: string)
    requires c.interfaces == Some([t]) && c.superClassName.None?
    requires KindPrefix(c.modifier) == "public class "
    ensures ToString(c) == Some("public class " + c.className + " implements " + t)
  {
    assert SpaceEach([t]) == " " + t + "";
    var i := ImplementsClause([t]);
    assert i == " implements" + (" " + t + "");
    assert ExtendsClause(None) == "";
    var s := KindPrefix(c.modifier) + (c.className + i + "");
    assert ToString(c) == Some(s);
    assert s == "public class " + c.className + " implements " + t;
  }

  /** The rendering the test suite expects for a public class with a
      superclass and no interfaces, for any class name and any superclass
      other than `java.lang.Object` (whether written in internal or in
      binary form). */
  lemma ToStringOfPublicSubclass(name: string, superName: string, location: Path)
    requires superName != ObjectInternalName && TranslateInternalName(superName) != ObjectBinaryName
    ensures ToString(NewClassInfo(name, Some(superName), Some([]), PublicClassFlags, location))
         == Some("public class " + TranslateInternalName(name) + " extends " + TranslateInternalName(superName))
  {
    var c := NewClassInfo(name, Some(superName), Some([]), PublicClassFlags, location);
    PublicClassPrefix();
    RenderPublicSubclass(c, TranslateInternalName(superName));
  }

  /** The rendering the test suite expects for a public class that directly
      extends `java.lang.Object` and implements one interface. */
  lemma ToStringOfPublicImplementer(name: string, interface: string, location: Path)
    ensures ToString(NewClassInfo(name, Some(ObjectInternalName), Some([interface]), PublicClassFlags, location))
         == Some("public class " + TranslateInternalName(name) + " implements " + TranslateInternalName(interface))
  {
    var c := NewClassInfo(name, Some(ObjectInternalName), Some([interface]), PublicClassFlags, location);
    var t := TranslateInternalName(interface);
    PublicClassPrefix();
    assert c.interfaces.value == [t];
    RenderPublicImplementer(c, t);
  }

  /** Some field of `fields` equals `f` in the sense of `FieldInfo.equals`. */
  predicate HasEqualField(fields: set<FieldInfo>, f: FieldInfo) {
    exists g | g in fields :: FieldEquals(g, f)
  }

  /** The `HashSet` invariant: no two distinct members are `equals`. */
  predicate DistinctFields(fields: set<FieldInfo>) {
    forall a, b | a in fields && b in fields && FieldEquals(a, b) :: a == b
  }

  /** `visitField`: `HashSet.add` of the new field, which keeps the set
      unchanged when an equal field (same name, descriptor and signature,
      whatever the access flags) is already there. */
  function VisitField(c: ClassInfo, f: FieldInfo): (c': ClassInfo)
    ensures c'.(fields := c.fields) == c
    ensures c.fields <= c'.fields && HasEqualField(c'.fields, f)
    ensures HasEqualField(c.fields, f) ==> c' == c
    ensures !HasEqualField(c.fields, f) ==> c'.fields == c.fields + {f}
  {
    if HasEqualField(c.fields, f) then c else c.(fields := c.fields + {f})
  }

  /** Visiting keeps the `HashSet` invariant. */
  lemma VisitFieldKeepsDistinct(c: ClassInfo, f: FieldInfo)
    requires DistinctFields(c.fields)
    ensures DistinctFields(VisitField(c, f).fields)
  {
  }

  /** `visitMethod`: `HashSet.add` of the new method, which first hashes it
      with `MethodInfo.hashCode` as written. A method without a generic
      signature makes that hash dereference null; `None` stands for the
      `NullPointerException` that escapes the visit. Otherwise the method is
      added, method equality being value equality. */
  function VisitMethod(c: ClassInfo, m: MethodInfo): (r: Option<ClassInfo>)
    ensures r.None? <==> MethodHashAsWritten(m).None?
    ensures r.None? <==> m.signature.None?
    ensures r.Some? ==> r.value.(methods := c.methods) == c
    ensures r.Some? ==> m in r.value.methods && r.value.methods - {m} == c.methods - {m}
    ensures r.Some? && m in c.methods ==> r.value == c
  {
    match MethodHashAsWritten(m)
    case None => None
    case Some(_) => Some(c.(methods := c.methods + {m}))
  }

  /** `visitMethod` with the corrected `MethodInfo.hashCode`: every method is
      added, and the visit agrees with the code whenever the code's hash is
      defined. */
  function VisitMethodCorrected(c: ClassInfo, m: MethodInfo): (c': ClassInfo)
    ensures c'.(methods := c.methods) == c
    ensures m in c'.methods && c'.methods - {m} == c.methods - {m}
    ensures m in c.methods ==> c' == c
    ensures m.signature.Some? ==> VisitMethod(c, m) == Some(c')
  {
    c.(methods := c.methods + {m})
  }

  /** `visitAnnotation`: `HashSet.add` of the annotation the constructor
      builds from the descriptor (with the name as the code converts it);
      annotation equality is value equality. */
  function VisitAnnotation(c: ClassInfo, desc: string, visible: bool): (c': ClassInfo)
    ensures c'.(annotations := c.annotations) == c
    ensures NewAnnotationInfo(desc, visible) in c'.annotations
    ensures c'.annotations - {NewAnnotationInfo(desc, visible)} == c.annotations - {NewAnnotationInfo(desc, visible)}
    ensures NewAnnotationInfo(desc, visible) in c.annotations ==> c' == c
  {
    c.(annotations := c.annotations + {NewAnnotationInfo(desc, visible)})
  }

  /** Visiting the same member twice has the effect of visiting it once. */
  lemma VisitsIdempotent(c: ClassInfo, f: FieldInfo, m: MethodInfo, desc: string, visible: bool)
    ensures VisitField(VisitField(c, f), f) == VisitField(c, f)
    ensures VisitMethod(c, m).Some? ==> VisitMethod(VisitMethod(c, m).value, m) == VisitMethod(c, m)
    ensures VisitMethodCorrected(VisitMethodCorrected(c, m), m) == VisitMethodCorrected(c, m)
    ensures VisitAnnotation(VisitAnnotation(c, desc, visible), desc, visible) == VisitAnnotation(c, desc, visible)
  {}
}
