/** `AnnotationInfo`: an annotation found on a class, identified by the
    binary name of its type and by whether it is retained at run time. */
module Annotations {
  import opened Text

  datatype AnnotationInfo = AnnotationInfo(name: string, visibleAtRuntime: bool)

  /** The conversion as the source writes it: every 'L' is dropped, then
      every ';', then '/' becomes '.'. For a descriptor `L…;` whose class
      name itself contains an upper-case L, letters of the name are lost
      (see `LDroppedFromName`). */
  function DescriptorToNameAsWritten(desc: string): (r: string)
    ensures 'L' !in r && ';' !in r && '/' !in r
    ensures |r| <= |desc|
  {
    var noL := RemoveChar(desc, 'L');
    var noSemi := RemoveChar(noL, ';');
    assert multiset(noSemi)['L'] == multiset(noL)['L'] == 0;
    ReplaceCharKeepsAbsent(noSemi, '/', '.', 'L');
    ReplaceCharKeepsAbsent(noSemi, '/', '.', ';');
    ReplaceCharRemoves(noSemi, '/', '.');
    ReplaceChar(noSemi, '/', '.')
  }

  /** On a descriptor `L` + s + `;` (section 4.3.2 of the Java Virtual
      Machine Specification) whose internal name s holds no ';', the
      conversion as written translates s with every 'L' of s removed. */
  lemma AsWrittenStripsEveryL(s: string)
    requires ';' !in s
    ensures DescriptorToNameAsWritten("L" + s + ";") == TranslateInternalName(RemoveChar(s, 'L'))
  {
    var s' := RemoveChar(s, 'L');
    RemoveCharAppend("L" + s, ";", 'L');
    RemoveCharAppend("L", s, 'L');
    assert RemoveChar(";", 'L') == ";";
    assert RemoveChar("L", 'L') == [];
    assert RemoveChar("L" + s + ";", 'L') == s' + ";";
    assert multiset(s')[';'] == multiset(s)[';'] == 0;
    RemoveCharAppend(s', ";", ';');
    RemoveCharAbsent(s', ';');
    assert RemoveChar(";", ';') == [];
    assert s' + [] == s';
  }

  /** Whose internal name s holds no 'L' and no ';' either, the conversion
      as written gives the binary name of s. */
  lemma AsWrittenOnPlainDescriptor(s: string)
    requires 'L' !in s && ';' !in s
    ensures DescriptorToNameAsWritten("L" + s + ";") == TranslateInternalName(s)
  {
    AsWrittenStripsEveryL(s);
    RemoveCharAbsent(s, 'L');
  }

  /** An annotation type whose simple name starts with L loses that letter:
      the descriptor of `p.Log` converts to "p.og", one character short of
      the name the corrected conversion gives. */
  lemma LDroppedFromName()
    ensures DescriptorToNameAsWritten("Lp/Log;") == TranslateInternalName("p/og")
    ensures DescriptorToName("Lp/Log;") == TranslateInternalName("p/Log")
    ensures |DescriptorToNameAsWritten("Lp/Log;")| < |DescriptorToName("Lp/Log;")|
  {
    assert "Lp/Log;" == "L" + "p/Log" + ";";
    AsWrittenStripsEveryL("p/Log");
    assert RemoveChar("p/Log", 'L') == "p/og";
    DescriptorToNameOfDescriptor("p/Log");
  }

  /** The evidently intended conversion: strip the leading `L` and the
      trailing `;` of the descriptor and translate the internal name in
      between. A descriptor of any other shape is converted as written. */
  function DescriptorToName(desc: string): (r: string)
    ensures '/' !in r
  {
    if 2 <= |desc| && desc[0] == 'L' && desc[|desc| - 1] == ';' then
      TranslateInternalName(desc[1..|desc| - 1])
    else
      DescriptorToNameAsWritten(desc)
  }

  /** The descriptor of an annotation type with binary name `name`. */
  function NameToDescriptor(name: string): (d: string)
    ensures |d| == |name| + 2 && d[0] == 'L' && d[|d| - 1] == ';'
  {
    "L" + ReplaceChar(name, '.', '/') + ";"
  }

  /** The corrected conversion recovers the internal name of every
      descriptor `L` + s + `;`, whatever letters s contains. */
  lemma DescriptorToNameOfDescriptor(s: string)
    ensures DescriptorToName("L" + s + ";") == TranslateInternalName(s)
  {
    var d := "L" + s + ";";
    assert d[1..|d| - 1] == s;
  }

  /** Round trip: a binary name (no '/') survives descriptor encoding and
      the corrected decoding. */
  lemma {:induction false} NameDescriptorRoundTrip(name: string)
    requires '/' !in name
    ensures DescriptorToName(NameToDescriptor(name)) == name
  {
    var internal := ReplaceChar(name, '.', '/');
    DescriptorToNameOfDescriptor(internal);
    var back := TranslateInternalName(internal);
    forall i | 0 <= i < |name| ensures back[i] == name[i] {
      assert name[i] != '/';
    }
  }

  /** The corrected and the as-written conversion agree on every descriptor
      the as-written one handles correctly. */
  lemma CorrectedAgreesOnPlainDescriptor(s: string)
    requires 'L' !in s && ';' !in s
    ensures DescriptorToName("L" + s + ";") == DescriptorToNameAsWritten("L" + s + ";")
  {
    DescriptorToNameOfDescriptor(s);
    AsWrittenOnPlainDescriptor(s);
  }

  /** `new AnnotationInfo(desc, visible)`: the name is converted as the
      code writes it, so every 'L' of the internal name is lost too. */
  function NewAnnotationInfo(desc: string, visible: bool): (a: AnnotationInfo)
    ensures a.visibleAtRuntime == visible
    ensures 'L' !in a.name && ';' !in a.name && '/' !in a.name
    ensures forall s: string | desc == "L" + s + ";" && ';' !in s ::
      a.name == TranslateInternalName(RemoveChar(s, 'L'))
  {
    forall s: string | desc == "L" + s + ";" && ';' !in s
      ensures DescriptorToNameAsWritten(desc) == TranslateInternalName(RemoveChar(s, 'L'))
    {
      AsWrittenStripsEveryL(s);
    }
    AnnotationInfo(DescriptorToNameAsWritten(desc), visible)
  }

  /** The constructor with the corrected conversion: the name is the
      binary name of the descriptor's internal name, whatever its letters.
      It builds the same record as the code whenever the internal name has
      no 'L' and no ';'. */
  function NewAnnotationInfoCorrected(desc: string, visible: bool): (a: AnnotationInfo)
    ensures a.visibleAtRuntime == visible
    ensures '/' !in a.name
    ensures forall s: string | desc == "L" + s + ";" :: a.name == TranslateInternalName(s)
    ensures forall s: string | desc == "L" + s + ";" && 'L' !in s && ';' !in s ::
      a == NewAnnotationInfo(desc, visible)
  {
    forall s: string | desc == "L" + s + ";"
      ensures DescriptorToName(desc) == TranslateInternalName(s)
      ensures 'L' !in s && ';' !in s ==> DescriptorToName(desc) == DescriptorToNameAsWritten(desc)
    {
      DescriptorToNameOfDescriptor(s);
      if 'L' !in s && ';' !in s {
        CorrectedAgreesOnPlainDescriptor(s);
      }
    }
    AnnotationInfo(DescriptorToName(desc), visible)
  }

  /** `AnnotationInfo.equals`: same visibility and same name. */
  predicate AnnotationEquals(a: AnnotationInfo, b: AnnotationInfo) {
    a.visibleAtRuntime == b.visibleAtRuntime && a.name == b.name
  }

  /** `AnnotationInfo.hashCode`. */
  function AnnotationHash(a: AnnotationInfo): bv32 {
    HashStep(StringHash(a.name), if a.visibleAtRuntime then 1 else 0)
  }

  /** `equals` is value equality of the two components, so a Java `HashSet`
      of annotation infos behaves as a mathematical set of the records. */
  lemma AnnotationEqualsIsEquality(a: AnnotationInfo, b: AnnotationInfo)
    ensures AnnotationEquals(a, b) <==> a == b
  {}

  /** The hash contract: equal infos hash alike. */
  lemma AnnotationHashConsistent(a: AnnotationInfo, b: AnnotationInfo)
    requires AnnotationEquals(a, b)
    ensures AnnotationHash(a) == AnnotationHash(b)
  {}

  /** The runtime visibility flag takes part in equality: the same type
      seen once visible and once invisible gives two distinct infos. */
  lemma VisibilityDistinguishes(desc: string)
    ensures !AnnotationEquals(NewAnnotationInfo(desc, true), NewAnnotationInfo(desc, false))
  {}
}
