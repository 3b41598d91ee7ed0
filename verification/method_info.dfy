/** `MethodInfo`: a method declared by a class. */
module Methods {
  import opened Optional
  import opened Text

  /** Access flags as ASM reports them; name and descriptor as in the class
      file; the generic signature is `None` for a non-generic method; the
      thrown exception names are `None` when ASM passes no array. */
  datatype MethodInfo = MethodInfo(
    access: bv32, name: string, description: string,
    signature: Option<string>, exceptions: Option<seq<string>>)

  /** `MethodInfo.equals`: same access flags, descriptor, exception list
      (element-wise, both absent counting as equal), name and signature. */
  predicate MethodEquals(a: MethodInfo, b: MethodInfo) {
    a.access == b.access && a.description == b.description && a.exceptions == b.exceptions
    && a.name == b.name && a.signature == b.signature
  }

  /** `MethodInfo.hashCode` as written: the signature's hash. A method with
      no signature makes it dereference null; `None` stands for that
      `NullPointerException`. */
  function MethodHashAsWritten(m: MethodInfo): (h: Option<bv32>)
    ensures h.Some? <==> m.signature.Some?
  {
    match m.signature
    case Some(s) => Some(StringHash(s))
    case None => None
  }

  /** A plain, non-generic method has no signature, so hashing it fails. */
  lemma HashFailsWithoutSignature(access: bv32, name: string, description: string)
    ensures MethodHashAsWritten(MethodInfo(access, name, description, None, None)).None?
  {}

  /** The evidently intended hash: the signature's hash, 0 when it is absent
      (the convention the class uses for fields). */
  function MethodHash(m: MethodInfo): (h: bv32)
    ensures m.signature.Some? ==> MethodHashAsWritten(m) == Some(h)
  {
    match m.signature
    case Some(s) => StringHash(s)
    case None => 0
  }

  /** `MethodInfo.toString`: the signature when there is one, the name otherwise. */
  function MethodToString(m: MethodInfo): string {
    m.signature.GetOr(m.name)
  }

  /** `equals` compares every component, so it is value equality and a
      `HashSet` of method infos behaves as a set of the records. */
  lemma MethodEqualsIsEquality(a: MethodInfo, b: MethodInfo)
    ensures MethodEquals(a, b) <==> a == b
  {}

  /** The hash contract of the corrected hash: equal methods hash alike,
      with or without a signature. */
  lemma MethodHashConsistent(a: MethodInfo, b: MethodInfo)
    requires MethodEquals(a, b)
    ensures MethodHash(a) == MethodHash(b)
  {}

  /** The hash contract of the hash as written holds whenever it is defined. */
  lemma MethodHashAsWrittenConsistent(a: MethodInfo, b: MethodInfo)
    requires MethodEquals(a, b) && a.signature.Some?
    ensures MethodHashAsWritten(a).Some? && MethodHashAsWritten(a) == MethodHashAsWritten(b)
  {}

  /** Equal methods print alike, and a method without a signature prints as its name. */
  lemma MethodToStringRespectsEquality(a: MethodInfo, b: MethodInfo)
    requires MethodEquals(a, b)
    ensures MethodToString(a) == MethodToString(b)
    ensures a.signature.None? ==> MethodToString(a) == a.name
  {}
}
