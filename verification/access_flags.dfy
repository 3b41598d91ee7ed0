/** Access flags of a class file and their translation into the modifier
    bits of `java.lang.reflect.Modifier`.

    The flag values are those of the access_flags tables in sections 4.1
    (classes), 4.5 (fields) and 4.6 (methods) of the Java Virtual Machine
    Specification, which ASM exposes as `Opcodes.ACC_*`; the modifier values
    are the documented constants of `java.lang.reflect.Modifier`. Java `int`
    masks are modelled as `bv32`. */
module AccessFlags {

  /** The twelve flags the class finder translates. */
  datatype Flag =
    | Public | Private | Protected | Static | Final | Synchronized
    | Volatile | Transient | Native | Interface | Abstract | Strict

  /** `Opcodes.ACC_*`: the class-file flag value. */
  function AccBit(f: Flag): bv32 {
    match f
    case Public => 0x0001
    case Private => 0x0002
    case Protected => 0x0004
    case Static => 0x0008
    case Final => 0x0010
    case Synchronized => 0x0020
    case Volatile => 0x0040
    case Transient => 0x0080
    case Native => 0x0100
    case Interface => 0x0200
    case Abstract => 0x0400
    case Strict => 0x0800
  }

  /** `Modifier.*`: the reflection modifier value. */
  function ModifierBit(f: Flag): bv32 {
    match f
    case Public => 0x001
    case Private => 0x002
    case Protected => 0x004
    case Static => 0x008
    case Final => 0x010
    case Synchronized => 0x020
    case Volatile => 0x040
    case Transient => 0x080
    case Native => 0x100
    case Interface => 0x200
    case Abstract => 0x400
    case Strict => 0x800
  }

  /** Union of all twelve modifier bits. */
  const ModifierBits: bv32 := 0xFFF

  /** The flags in the order `convertAccessMaskToModifierMask` tests them. */
  const SourceOrder: seq<Flag> :=
    [Final, Native, Interface, Abstract, Private, Protected, Public, Static,
     Strict, Synchronized, Transient, Volatile]

  /** One step of the translation: `if ((mask & a) != 0) r |= m`. */
  function SetIf(r: bv32, mask: bv32, a: bv32, m: bv32): bv32 {
    if mask & a != 0 then r | m else r
  }

  /** Union of the flag bits of `flags`. */
  function FlagUnion(flags: seq<Flag>): bv32 {
    if flags == [] then 0 else AccBit(flags[0]) | FlagUnion(flags[1..])
  }

  predicate SingleLowBit(a: bv32) {
    a == 0x1 || a == 0x2 || a == 0x4 || a == 0x8 || a == 0x10 || a == 0x20
    || a == 0x40 || a == 0x80 || a == 0x100 || a == 0x200 || a == 0x400 || a == 0x800
  }

  /** The two tables agree, flag by flag, on a single bit. */
  lemma SameTables(f: Flag)
    ensures AccBit(f) == ModifierBit(f) && SingleLowBit(AccBit(f))
  {}

  lemma SingleBitStep(r: bv32, mask: bv32, a: bv32)
    requires SingleLowBit(a)
    ensures SetIf(r, mask, a, a) == r | (mask & a)
  {
    if mask & a != 0 {
      assert mask & a == a;
    }
  }

  lemma LowBit(mask: bv32, a: bv32)
    requires SingleLowBit(a)
    ensures ((mask & ModifierBits) & a != 0) <==> (mask & a != 0)
  {}

  lemma LowBitsAgree(mask: bv32)
    ensures forall f: Flag :: ((mask & ModifierBits) & ModifierBit(f) != 0) <==> (mask & AccBit(f) != 0)
    ensures (mask & ModifierBits) & !ModifierBits == 0
  {
    forall f: Flag ensures ((mask & ModifierBits) & ModifierBit(f) != 0) <==> (mask & AccBit(f) != 0) {
      SameTables(f);
      LowBit(mask, AccBit(f));
    }
  }

  /** The translation steps for `flags`, applied in order to `r`: together
      they add the bits of the mask that belong to `flags`. */
  function ApplyFlags(mask: bv32, flags: seq<Flag>, r: bv32): (out: bv32)
    ensures out == r | (mask & FlagUnion(flags))
  {
    if flags == [] then r
    else
      SameTables(flags[0]);
      SingleBitStep(r, mask, AccBit(flags[0]));
      ApplyFlags(mask, flags[1..], SetIf(r, mask, AccBit(flags[0]), ModifierBit(flags[0])))
  }

  lemma SourceOrderCoversAll()
    ensures FlagUnion(SourceOrder) == ModifierBits
  {}

  /** `ClassInfo.convertAccessMaskToModifierMask`. Since the two tables use
      the same numbers, the result is the low twelve bits of the mask. */
  function ConvertAccessMask(mask: bv32): (r: bv32)
    ensures r == mask & ModifierBits
  {
    SourceOrderCoversAll();
    ApplyFlags(mask, SourceOrder, 0)
  }

  /** Each of the twelve flags sets exactly its own modifier bit, and no
      other bit is ever set. */
  lemma ConvertSetsExactlyItsBit(mask: bv32)
    ensures forall f: Flag :: Has(ConvertAccessMask(mask), f) <==> (mask & AccBit(f) != 0)
    ensures ConvertAccessMask(mask) & !ModifierBits == 0
  {
    LowBitsAgree(mask);
  }

  /** Bits outside the twelve flags (ACC_SYNTHETIC, ACC_ANNOTATION, ACC_ENUM,
      ...) never influence the modifiers. */
  lemma ConvertIgnoresOtherBits(mask: bv32)
    ensures ConvertAccessMask(mask) == ConvertAccessMask(mask & ModifierBits)
  {
    assert (mask & ModifierBits) & ModifierBits == mask & ModifierBits;
  }

  /** `Modifier.isPublic`-style test on a modifier mask. */
  predicate Has(modifiers: bv32, f: Flag) {
    modifiers & ModifierBit(f) != 0
  }
}
