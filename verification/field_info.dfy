/** `FieldInfo`: a field declared by a class. The opaque constant value a
    field may carry is not part of this model. */
module Fields {
  import opened Optional
  import opened Text

  /** Access flags as ASM reports them; name and descriptor as in the class
      file; the generic signature is `None` for a non-generic field. */
  datatype FieldInfo = FieldInfo(access: bv32, name: string, description: string, signature: Option<string>)

  /** `FieldInfo.equals`: same descriptor, same name and same (possibly
      absent) signature. The access flags take no part. */
  predicate FieldEquals(a: FieldInfo, b: FieldInfo) {
    a.description == b.description && a.name == b.name && a.signature == b.signature
  }

  /** `FieldInfo.hashCode`: name, then descriptor, then signature (0 when
      absent), combined by h = 31 * h + x in 32 bits. */
  function FieldHash(f: FieldInfo): bv32 {
    var h := HashStep(StringHash(f.name), StringHash(f.description));
    HashStep(h, match f.signature case Some(s) => StringHash(s) case None => 0)
  }

  /** `FieldInfo.toString`: the signature when there is one, the name otherwise. */
  function FieldToString(f: FieldInfo): string {
    f.signature.GetOr(f.name)
  }

  /** Equality ignores exactly the access flags: two fields are equal iff
      they coincide once their flags are cleared. */
  lemma FieldEqualsIgnoresOnlyAccess(a: FieldInfo, b: FieldInfo)
    ensures FieldEquals(a, b) <==> a.(access := 0) == b.(access := 0)
  {}

  /** `equals` is an equivalence relation, as `HashSet` requires. */
  lemma FieldEqualsIsEquivalence(a: FieldInfo, b: FieldInfo, c: FieldInfo)
    ensures FieldEquals(a, a)
    ensures FieldEquals(a, b) ==> FieldEquals(b, a)
    ensures FieldEquals(a, b) && FieldEquals(b, c) ==> FieldEquals(a, c)
  {}

  /** The hash contract: equal fields hash alike. */
  lemma FieldHashConsistent(a: FieldInfo, b: FieldInfo)
    requires FieldEquals(a, b)
    ensures FieldHash(a) == FieldHash(b)
  {}

  /** Equal fields print alike, and a field without a signature prints as its name. */
  lemma FieldToStringRespectsEquality(a: FieldInfo, b: FieldInfo)
    requires FieldEquals(a, b)
    ensures FieldToString(a) == FieldToString(b)
    ensures a.signature.None? ==> FieldToString(a) == a.name
  {}
}
