/** The Vulkan version-number packing of `crates/glfw/src/lib.rs`: the
    `VK_MAKE_VERSION` and `VK_MAKE_API_VERSION` macros and the constant
    `VK_API_VERSION_1_0`. A version is packed into one `u32` with the
    variant in bits 29-31, the major version in bits 22-28, the minor
    version in bits 12-21 and the patch in bits 0-11 ("Version Numbers",
    Fundamentals chapter of the Vulkan API specification). The macros cast
    each argument with `as u32`, shift it and or the results together; they
    neither mask nor range-check a field, and the model keeps that. */
module VkVersion {
  import opened U32Bits

  // Bit offsets and field widths of the packed layout.
  const VARIANT_SHIFT: nat := 29
  const MAJOR_SHIFT: nat := 22
  const MINOR_SHIFT: nat := 12

  const VARIANT_LIMIT: nat := 8      // 3 bits
  const MAJOR_LIMIT: nat := 128      // 7 bits
  const MINOR_LIMIT: nat := 1024     // 10 bits
  const PATCH_LIMIT: nat := 4096     // 12 bits

  /** `VK_MAKE_VERSION!(major, minor, patch)`:
      `(major as u32) << 22 | (minor as u32) << 12 | patch as u32`. */
  function MakeVersion(major: int, minor: int, patch: int): (r: nat)
    ensures r < LIMIT
  {
    Pow2Constants();
    var hi := Or(Shl(AsU32(major), MAJOR_SHIFT), Shl(AsU32(minor), MINOR_SHIFT));
    OrBound(Shl(AsU32(major), MAJOR_SHIFT), Shl(AsU32(minor), MINOR_SHIFT), 32);
    OrBound(hi, AsU32(patch), 32);
    Or(hi, AsU32(patch))
  }

  /** `VK_MAKE_API_VERSION!(variant, major, minor, patch)`: as
      `VK_MAKE_VERSION` with `(variant as u32) << 29` or-ed in first. */
  function MakeApiVersion(variant: int, major: int, minor: int, patch: int): (r: nat)
    ensures r < LIMIT
  {
    Pow2Constants();
    var v := Shl(AsU32(variant), VARIANT_SHIFT);
    var vm := Or(v, Shl(AsU32(major), MAJOR_SHIFT));
    OrBound(v, Shl(AsU32(major), MAJOR_SHIFT), 32);
    var vmm := Or(vm, Shl(AsU32(minor), MINOR_SHIFT));
    OrBound(vm, Shl(AsU32(minor), MINOR_SHIFT), 32);
    OrBound(vmm, AsU32(patch), 32);
    Or(vmm, AsU32(patch))
  }

  /** `VK_API_VERSION_1_0`: `VK_MAKE_API_VERSION!(0, 1, 0, 0)`. */
  const API_VERSION_1_0: nat := MakeApiVersion(0, 1, 0, 0)

  /** The four fields of a version, as integers before any cast. */
  datatype Version = Version(variant: int, major: int, minor: int, patch: int)
  {
    /** Every field fits its bit range, so packing loses nothing. */
    predicate InRange()
    {
      && 0 <= variant < VARIANT_LIMIT
      && 0 <= major < MAJOR_LIMIT
      && 0 <= minor < MINOR_LIMIT
      && 0 <= patch < PATCH_LIMIT
    }

    /** Lexicographic order on (variant, major, minor, patch). */
    predicate Less(other: Version)
    {
      || variant < other.variant
      || (variant == other.variant && major < other.major)
      || (variant == other.variant && major == other.major && minor < other.minor)
      || (variant == other.variant && major == other.major && minor == other.minor && patch < other.patch)
    }
  }

  /** The packed value of a version, as the macro computes it. */
  function Pack(v: Version): nat
  {
    MakeApiVersion(v.variant, v.major, v.minor, v.patch)
  }

  /** Reads the fields back out of a packed `u32`, as the Vulkan
      specification's extraction macros do: `v >> 29`, `(v >> 22) & 0x7F`,
      `(v >> 12) & 0x3FF` and `v & 0xFFF`. */
  function Unpack(packed: nat): (r: Version)
    requires packed < LIMIT
    ensures r.InRange()
  {
    Pow2Constants();
    ShrIsDivision(packed, VARIANT_SHIFT);
    AndAtMost(Shr(packed, MAJOR_SHIFT), 0x7F);
    AndAtMost(Shr(packed, MINOR_SHIFT), 0x3FF);
    AndAtMost(packed, 0xFFF);
    Version(Shr(packed, VARIANT_SHIFT),
            And(Shr(packed, MAJOR_SHIFT), 0x7F),
            And(Shr(packed, MINOR_SHIFT), 0x3FF),
            And(packed, 0xFFF))
  }

  /** The field values weighted by their bit positions. */
  function Weighted(v: Version): int
  {
    v.variant * 0x2000_0000 + v.major * 0x40_0000 + v.minor * 0x1000 + v.patch
  }

  // ---------------------------------------------------------------------
  // Helpers: the shifted fields as numbers.

  /** A non-negative field whose shifted value fits in 32 bits is cast and
      shifted without loss. */
  lemma ShiftedField(x: int, k: nat)
    requires 0 <= x && k < 32 && x * Pow2(k) < LIMIT
    ensures Shl(AsU32(x), k) == x * Pow2(k)
  {
    AsU32OfU32(x);
    ShlNoOverflow(x, k);
  }

  /** A zero field contributes nothing. */
  lemma ZeroField(k: nat)
    requires k < 32
    ensures Shl(AsU32(0), k) == 0
  {
    AsU32OfU32(0);
    DivModUnique(0, LIMIT, 0, 0);
  }

  /** The read-back of a `u32` in plain arithmetic. */
  lemma UnpackArith(x: nat)
    requires x < LIMIT
    ensures Unpack(x) == Version(x / 0x2000_0000, (x / 0x40_0000) % 0x80, (x / 0x1000) % 0x400, x % 0x1000)
  {
    Pow2Constants();
    ShrIsDivision(x, VARIANT_SHIFT);
    ShrIsDivision(x, MAJOR_SHIFT);
    ShrIsDivision(x, MINOR_SHIFT);
    AndLowMask(x / 0x40_0000, 7);
    AndLowMask(x / 0x1000, 10);
    AndLowMask(x, 12);
  }

  // ---------------------------------------------------------------------
  // Properties.

  /** Or-ing fields shifted into disjoint bit ranges adds them. */
  lemma OrOfDisjointFields(v: Version)
    requires v.InRange()
    ensures Or(Or(Or(v.variant * 0x2000_0000, v.major * 0x40_0000), v.minor * 0x1000), v.patch) == Weighted(v)
  {
    var variant: nat, major: nat, minor: nat, patch: nat := v.variant, v.major, v.minor, v.patch;
    var hi := variant * 128 + major;
    var mid := hi * 1024 + minor;
    Pow2Constants();
    OrShifted(variant, major * 0x40_0000, 29);
    assert variant * 0x2000_0000 + major * 0x40_0000 == hi * 0x40_0000;
    OrShifted(hi, minor * 0x1000, 22);
    assert hi * 0x40_0000 + minor * 0x1000 == mid * 0x1000;
    OrShifted(mid, patch, 12);
    assert mid * 0x1000 + patch == Weighted(v);
  }

  /** With every field in range the shifted fields occupy disjoint bit
      ranges, so the or of the macro is their sum. */
  lemma PackIsSum(v: Version)
    requires v.InRange()
    ensures Pack(v) == Weighted(v)
  {
    Pow2Constants();
    ShiftedField(v.variant, VARIANT_SHIFT);
    ShiftedField(v.major, MAJOR_SHIFT);
    ShiftedField(v.minor, MINOR_SHIFT);
    AsU32OfU32(v.patch);
    OrOfDisjointFields(v);
  }

  /** Reading the fields out of their weighted sum gives them back. */
  lemma UnpackWeighted(v: Version)
    requires v.InRange()
    ensures Weighted(v) < LIMIT && Unpack(Weighted(v)) == v
  {
    var x := Weighted(v);
    var hi := v.variant * 128 + v.major;
    assert x == (hi * 1024 + v.minor) * 0x1000 + v.patch;
    UnpackArith(x);
    DivModUnique(x, 0x2000_0000, v.variant, v.major * 0x40_0000 + v.minor * 0x1000 + v.patch);
    DivModUnique(x, 0x40_0000, hi, v.minor * 0x1000 + v.patch);
    DivModUnique(hi, 0x80, v.variant, v.major);
    DivModUnique(x, 0x1000, hi * 1024 + v.minor, v.patch);
    DivModUnique(hi * 1024 + v.minor, 0x400, hi, v.minor);
  }

  /** Read-back: an in-range version is recovered field by field from its
      packed value. */
  lemma UnpackPack(v: Version)
    requires v.InRange()
    ensures Unpack(Pack(v)) == v
  {
    PackIsSum(v);
    UnpackWeighted(v);
  }

  /** A version survives packing exactly when every field is in range: the
      macros do no masking, so an out-of-range field cannot be read back. */
  lemma UnpackPackIff(v: Version)
    ensures Unpack(Pack(v)) == v <==> v.InRange()
  {
    if v.InRange() {
      UnpackPack(v);
    }
  }

  /** Every `u32` is the packing of the fields read out of it. */
  lemma PackUnpack(x: nat)
    requires x < LIMIT
    ensures Pack(Unpack(x)) == x
  {
    var u := Unpack(x);
    UnpackArith(x);
    PackIsSum(u);
    DivModSplit(x, 0x1000, 0x400);
    DivModSplit(x / 0x1000, 0x400, 0x80);
    DivDiv(x, 0x1000, 0x400);
    DivDiv(x, 0x40_0000, 0x80);
    assert x / 0x40_0000 == (x / 0x1000) / 0x400;
    assert x / 0x2000_0000 == (x / 0x40_0000) / 0x80;
  }

  /** In range, packing is injective and turns the lexicographic order of
      (variant, major, minor, patch) into the unsigned order of the `u32`. */
  lemma PackOrder(a: Version, b: Version)
    requires a.InRange() && b.InRange()
    ensures Pack(a) < Pack(b) <==> a.Less(b)
    ensures Pack(a) == Pack(b) <==> a == b
  {
    PackIsSum(a);
    PackIsSum(b);
    var ha, hb := a.variant * 128 + a.major, b.variant * 128 + b.major;
    var ma, mb := ha * 1024 + a.minor, hb * 1024 + b.minor;
    assert Weighted(a) == ma * 4096 + a.patch;
    assert Weighted(b) == mb * 4096 + b.patch;
    MixedRadix(a.variant, a.major, b.variant, b.major, 128);
    MixedRadix(ha, a.minor, hb, b.minor, 1024);
    MixedRadix(ma, a.patch, mb, b.patch, 4096);
  }

  /** Comparing two-digit numbers in radix n compares their digits
      lexicographically. */
  lemma MixedRadix(x: int, r: int, y: int, s: int, n: int)
    requires 0 <= r < n && 0 <= s < n
    ensures x * n + r < y * n + s <==> x < y || (x == y && r < s)
    ensures x * n + r == y * n + s <==> x == y && r == s
  {
    if x < y {
      assert (y - x) * n >= n by { MulAtLeast(y - x, n); }
    } else if x > y {
      assert (x - y) * n >= n by { MulAtLeast(x - y, n); }
    }
  }

  /** Bit placement, for every argument: bit i of the packed value is set
      exactly when the cast patch sets it, or i lies in bits 12-31 and the
      cast minor sets bit i - 12, or in bits 22-31 and the cast major sets
      bit i - 22, or in bits 29-31 and the cast variant sets bit i - 29. A
      field wider than its range therefore lands in the bits of the fields
      above it, and bits shifted past bit 31 are gone. */
  lemma MakeApiVersionBits(variant: int, major: int, minor: int, patch: int, i: nat)
    ensures Bit(MakeApiVersion(variant, major, minor, patch), i) <==>
      || Bit(AsU32(patch), i)
      || (MINOR_SHIFT <= i < 32 && Bit(AsU32(minor), i - MINOR_SHIFT))
      || (MAJOR_SHIFT <= i < 32 && Bit(AsU32(major), i - MAJOR_SHIFT))
      || (VARIANT_SHIFT <= i < 32 && Bit(AsU32(variant), i - VARIANT_SHIFT))
  {
    var v := Shl(AsU32(variant), VARIANT_SHIFT);
    var ma := Shl(AsU32(major), MAJOR_SHIFT);
    var mi := Shl(AsU32(minor), MINOR_SHIFT);
    ShlBit(AsU32(variant), VARIANT_SHIFT, i);
    ShlBit(AsU32(major), MAJOR_SHIFT, i);
    ShlBit(AsU32(minor), MINOR_SHIFT, i);
    OrBit(v, ma, i);
    OrBit(Or(v, ma), mi, i);
    OrBit(Or(Or(v, ma), mi), AsU32(patch), i);
  }

  /** Bit placement of `VK_MAKE_VERSION`, for every argument: the cast
      patch, the cast minor shifted to bit 12 and the cast major shifted to
      bit 22, or-ed together and cut at bit 31. */
  lemma MakeVersionBits(major: int, minor: int, patch: int, i: nat)
    ensures Bit(MakeVersion(major, minor, patch), i) <==>
      || Bit(AsU32(patch), i)
      || (MINOR_SHIFT <= i < 32 && Bit(AsU32(minor), i - MINOR_SHIFT))
      || (MAJOR_SHIFT <= i < 32 && Bit(AsU32(major), i - MAJOR_SHIFT))
  {
    ApiVersionVariantZero(major, minor, patch);
    MakeApiVersionBits(0, major, minor, patch, i);
    AsU32OfU32(0);
    if VARIANT_SHIFT <= i {
      ZeroHasNoBits(i - VARIANT_SHIFT);
    }
  }

  /** `VK_MAKE_VERSION` has no variant field, so its major may use all ten
      bits 22-31; with fields that fit, the or is again a sum. */
  lemma MakeVersionIsSum(major: int, minor: int, patch: int)
    requires 0 <= major < 1024 && 0 <= minor < MINOR_LIMIT && 0 <= patch < PATCH_LIMIT
    ensures MakeVersion(major, minor, patch) == major * 0x40_0000 + minor * 0x1000 + patch
  {
    Pow2Constants();
    ShiftedField(major, MAJOR_SHIFT);
    ShiftedField(minor, MINOR_SHIFT);
    AsU32OfU32(patch);
    OrOfMajorMinorPatch(major, minor, patch);
  }

  /** The three fields of `VK_MAKE_VERSION`, shifted into disjoint bit
      ranges, or to their sum. */
  lemma OrOfMajorMinorPatch(major: nat, minor: nat, patch: nat)
    requires major < 1024 && minor < MINOR_LIMIT && patch < PATCH_LIMIT
    ensures Or(Or(major * 0x40_0000, minor * 0x1000), patch) == major * 0x40_0000 + minor * 0x1000 + patch
  {
    Pow2Constants();
    var mid := major * 1024 + minor;
    OrShifted(major, minor * 0x1000, 22);
    assert major * 0x40_0000 + minor * 0x1000 == mid * 0x1000;
    OrShifted(mid, patch, 12);
  }

  /** With a zero minor the or is the sum of the shifted major and a
      patch of up to 22 bits. */
  lemma MakeVersionMinorZeroIsSum(major: int, patch: int)
    requires 0 <= major < 1024 && 0 <= patch < 0x40_0000
    ensures MakeVersion(major, 0, patch) == major * 0x40_0000 + patch
  {
    Pow2Constants();
    var b := major * 0x40_0000;
    ShiftedField(major, MAJOR_SHIFT);
    ZeroField(MINOR_SHIFT);
    AsU32OfU32(patch);
    assert Or(b, 0) == b;
    OrShifted(major, patch, 22);
  }

  /** With a zero major the or is the sum of the shifted minor, of up to
      20 bits, and the patch. */
  lemma MakeVersionMajorZeroIsSum(minor: int, patch: int)
    requires 0 <= minor < 0x10_0000 && 0 <= patch < PATCH_LIMIT
    ensures MakeVersion(0, minor, patch) == minor * 0x1000 + patch
  {
    Pow2Constants();
    var c := minor * 0x1000;
    ZeroField(MAJOR_SHIFT);
    ShiftedField(minor, MINOR_SHIFT);
    AsU32OfU32(patch);
    assert Or(0, c) == c;
    OrShifted(minor, patch, 12);
  }

  /** A major of 128 or more given to `VK_MAKE_VERSION` is not masked: its
      high bits are read back as the variant. */
  lemma MajorSpillsIntoVariant(major: int, minor: int, patch: int)
    requires 0 <= major < 1024 && 0 <= minor < MINOR_LIMIT && 0 <= patch < PATCH_LIMIT
    ensures Unpack(MakeVersion(major, minor, patch)) == Version(major / 128, major % 128, minor, patch)
  {
    MakeVersionIsSum(major, minor, patch);
    UnpackWideMajor(major, minor, patch);
  }

  lemma UnpackWideMajor(major: nat, minor: nat, patch: nat)
    requires major < 1024 && minor < MINOR_LIMIT && patch < PATCH_LIMIT
    ensures major * 0x40_0000 + minor * 0x1000 + patch < LIMIT
    ensures Unpack(major * 0x40_0000 + minor * 0x1000 + patch) == Version(major / 128, major % 128, minor, patch)
  {
    var q, r := major / 128, major % 128;
    var w := Version(q, r, minor, patch);
    assert major == q * 128 + r;
    assert major * 0x40_0000 == q * 0x2000_0000 + r * 0x40_0000;
    assert Weighted(w) == major * 0x40_0000 + minor * 0x1000 + patch;
    UnpackWeighted(w);
  }

  /** A patch of 4096 or more is not masked: above a zero minor, its high
      bits are read back as the minor. */
  lemma PatchSpillsIntoMinor(major: int, patch: int)
    requires 0 <= major < MAJOR_LIMIT && 0 <= patch < 0x40_0000
    ensures Unpack(MakeVersion(major, 0, patch)) == Version(0, major, patch / 4096, patch % 4096)
  {
    MakeVersionMinorZeroIsSum(major, patch);
    UnpackWidePatch(major, patch);
  }

  lemma UnpackWidePatch(major: nat, patch: nat)
    requires major < MAJOR_LIMIT && patch < 0x40_0000
    ensures major * 0x40_0000 + patch < LIMIT
    ensures Unpack(major * 0x40_0000 + patch) == Version(0, major, patch / 4096, patch % 4096)
  {
    var q, r := patch / 4096, patch % 4096;
    var w := Version(0, major, q, r);
    assert patch == q * 0x1000 + r;
    assert Weighted(w) == major * 0x40_0000 + patch;
    UnpackWeighted(w);
  }

  /** A minor of 1024 or more is not masked: above a zero major, its high
      bits are read back as the major. */
  lemma MinorSpillsIntoMajor(minor: int, patch: int)
    requires 0 <= minor < 0x2_0000 && 0 <= patch < PATCH_LIMIT
    ensures Unpack(MakeVersion(0, minor, patch)) == Version(0, minor / 1024, minor % 1024, patch)
  {
    MakeVersionMajorZeroIsSum(minor, patch);
    UnpackWideMinor(minor, patch);
  }

  lemma UnpackWideMinor(minor: nat, patch: nat)
    requires minor < 0x2_0000 && patch < PATCH_LIMIT
    ensures minor * 0x1000 + patch < LIMIT
    ensures Unpack(minor * 0x1000 + patch) == Version(0, minor / 1024, minor % 1024, patch)
  {
    var q, r := minor / 1024, minor % 1024;
    var w := Version(0, q, r, patch);
    assert minor == q * 1024 + r;
    assert minor * 0x1000 == q * 0x40_0000 + r * 0x1000;
    assert Weighted(w) == minor * 0x1000 + patch;
    UnpackWeighted(w);
  }

  /** Only the low three bits of the cast variant survive the shift by 29:
      the variant is kept modulo 8 (so 8 packs like 0, and -1 like 7). */
  lemma VariantKeepsLowThreeBits(variant: int)
    ensures Unpack(MakeApiVersion(variant, 0, 0, 0)) == Version(AsU32(variant) % 8, 0, 0, 0)
  {
    Pow2Constants();
    var a := AsU32(variant);
    var q, r := a / 8, a % 8;
    var w := Version(r, 0, 0, 0);
    assert a == q * 8 + r;
    assert a * 0x2000_0000 == q * LIMIT + r * 0x2000_0000;
    DivModUnique(a * 0x2000_0000, LIMIT, q, r * 0x2000_0000);
    assert Shl(a, VARIANT_SHIFT) == r * 0x2000_0000;
    ShiftedField(r, VARIANT_SHIFT);
    ZeroField(MAJOR_SHIFT);
    ZeroField(MINOR_SHIFT);
    assert MakeApiVersion(variant, 0, 0, 0) == Pack(w);
    UnpackPack(w);
  }

  /** With zero major and minor the packed value is the cast patch itself:
      no mask is applied, and a negative patch such as -1 sets every bit. */
  lemma PatchPassedUnmasked(patch: int)
    ensures MakeVersion(0, 0, patch) == AsU32(patch)
    ensures patch == -1 ==> MakeVersion(0, 0, patch) == LIMIT - 1
  {
    ZeroField(MAJOR_SHIFT);
    ZeroField(MINOR_SHIFT);
    if patch == -1 {
      DivModUnique(-1, LIMIT, -1, LIMIT - 1);
    }
  }

  /** Concrete consequences of the missing masks: distinct argument lists
      that pack to the same `u32`. */
  lemma SpillCollisions()
    ensures MakeVersion(1, 0, 4096) == MakeVersion(1, 1, 0)
    ensures MakeVersion(0, 1024, 0) == MakeVersion(1, 0, 0)
    ensures MakeApiVersion(0, 128, 0, 0) == MakeApiVersion(1, 0, 0, 0)
    ensures MakeApiVersion(8, 1, 0, 0) == MakeApiVersion(0, 1, 0, 0)
  {
    MakeVersionMinorZeroIsSum(1, 4096);
    MakeVersionIsSum(1, 1, 0);
    MakeVersionMajorZeroIsSum(1024, 0);
    MakeVersionIsSum(1, 0, 0);
    ApiVersionVariantZero(128, 0, 0);
    MakeVersionMinorZeroIsSum(128, 0);
    PackIsSum(Version(1, 0, 0, 0));
    Pow2Constants();
    AsU32OfU32(8);
    DivModUnique(8 * 0x2000_0000, LIMIT, 1, 0);
    ZeroField(VARIANT_SHIFT);
    assert Shl(AsU32(8), VARIANT_SHIFT) == 0;
  }

  /** `VK_MAKE_API_VERSION!(0, M, m, p)` equals `VK_MAKE_VERSION!(M, m, p)`
      for every argument. */
  lemma ApiVersionVariantZero(major: int, minor: int, patch: int)
    ensures MakeApiVersion(0, major, minor, patch) == MakeVersion(major, minor, patch)
  {
    ZeroField(VARIANT_SHIFT);
  }

  /** `VK_API_VERSION_1_0` is `1 << 22`, i.e. 0x0040_0000, and reads back
      as variant 0, version 1.0.0. */
  lemma ApiVersion10Value()
    ensures API_VERSION_1_0 == Shl(1, MAJOR_SHIFT) == 0x40_0000
    ensures Unpack(API_VERSION_1_0) == Version(0, 1, 0, 0)
  {
    Pow2Constants();
    ShlNoOverflow(1, MAJOR_SHIFT);
    PackIsSum(Version(0, 1, 0, 0));
    UnpackPack(Version(0, 1, 0, 0));
  }
}
