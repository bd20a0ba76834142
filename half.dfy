/**
 * src/core/utils.cpp: fp16_to_fp32 and fp32_to_fp16, the half/single precision conversions on
 * the bit patterns of IEEE 754-2008 binary16 and binary32 (section 3.4: a sign bit, then a 5-
 * or 8-bit biased exponent, then a 10- or 23-bit fraction), as bv16 and bv32 values; no
 * floating-point value is modelled.
 */
module Half {
  // ---------------------------------------------------------------- binary16 / binary32 fields

  /** The sign bit of a binary16. */
  function HalfSign(h: bv16): bv16 { h >> 15 }
  /** The biased exponent of a binary16 (bias 15). */
  function HalfExponent(h: bv16): bv16 { (h >> 10) & 0x1f }
  /** The fraction of a binary16. */
  function HalfFraction(h: bv16): bv16 { h & 0x3ff }

  /** The sign bit of a binary32. */
  function SingleSign(f: bv32): bv32 { f >> 31 }
  /** The biased exponent of a binary32 (bias 127). */
  function SingleExponent(f: bv32): bv32 { (f >> 23) & 0xff }
  /** The fraction of a binary32. */
  function SingleFraction(f: bv32): bv32 { f & 0x7fffff }

  /** The difference of the two exponent biases, 127 - 15. */
  const BIAS_SHIFT: bv32 := 112

  /** A binary16 is its three fields. */
  lemma HalfFieldsDetermine(h: bv16, g: bv16)
    requires HalfSign(h) == HalfSign(g) && HalfExponent(h) == HalfExponent(g)
    requires HalfFraction(h) == HalfFraction(g)
    ensures h == g
  {
  }

  // ---------------------------------------------------------------- fp16_to_fp32

  /**
   * fp16_to_fp32 on bit patterns: the non-sign bits moved up by 13 and rebiased, zero for a
   * zero exponent (denormals as zero), then the sign put back in bit 31.
   */
  function Fp16ToFp32(h: bv16): bv32
  {
    var t1 := ((h & 0x7fff) as bv32) << 13;
    var t2 := ((h & 0x8000) as bv32) << 16;
    var t3 := h & 0x7c00;
    var t1' := t1 + 0x3800_0000;
    var t1'' := if t3 == 0 then 0 else t1';
    t1'' | t2
  }

  lemma Fp16SignKept(h: bv16)
    ensures SingleSign(Fp16ToFp32(h)) == HalfSign(h) as bv32
  {
  }

  lemma Fp16DenormalsAsZero(h: bv16)
    ensures HalfExponent(h) == 0 ==> Fp16ToFp32(h) == (HalfSign(h) as bv32) << 31
  {
  }

  lemma Fp16ExponentRebiased(h: bv16)
    ensures HalfExponent(h) != 0 ==> SingleExponent(Fp16ToFp32(h)) == HalfExponent(h) as bv32 + BIAS_SHIFT
  {
  }

  lemma Fp16FractionWidened(h: bv16)
    ensures HalfExponent(h) != 0 ==> SingleFraction(Fp16ToFp32(h)) == (HalfFraction(h) as bv32) << 13
  {
  }

  /**
   * The sign is kept; a zero exponent (zero or a denormal) gives that signed zero; any other
   * half keeps its fraction as the top of the single fraction and has its exponent rebiased,
   * so it denotes the same number.
   */
  lemma Fp16ToFp32Fields(h: bv16)
    ensures SingleSign(Fp16ToFp32(h)) == HalfSign(h) as bv32
    ensures HalfExponent(h) == 0 ==> Fp16ToFp32(h) == (HalfSign(h) as bv32) << 31
    ensures HalfExponent(h) != 0 ==>
              && SingleExponent(Fp16ToFp32(h)) == HalfExponent(h) as bv32 + BIAS_SHIFT
              && SingleFraction(Fp16ToFp32(h)) == (HalfFraction(h) as bv32) << 13
  {
    Fp16SignKept(h);
    Fp16DenormalsAsZero(h);
    Fp16ExponentRebiased(h);
    Fp16FractionWidened(h);
  }

  // ---------------------------------------------------------------- fp32_to_fp16

  /**
   * fp32_to_fp16's three selections on the exponent bits t3, in its order: flush to zero
   * below the least normal half, clamp to 0x7bff above the threshold, zero for a zero exponent.
   */
  function FlushClamp(t3: bv32, t1: bv32, clampAbove: bv32): bv32
  {
    var b := if t3 < 0x3880_0000 then 0 else t1;
    var c := if t3 > clampAbove then 0x7bff else b;
    if t3 == 0 then 0 else c
  }

  /**
   * fp32_to_fp16 before the cut to 16 bits, with the clamp threshold as a parameter: the
   * exponent bits t3 select on the non-sign bits moved down by 13 and rebiased (in 32-bit
   * unsigned arithmetic), and the sign is put back in bit 15.
   */
  function Fp32ToFp16Bits(f: bv32, clampAbove: bv32): bv32
  {
    FlushClamp(f & 0x7f80_0000, ((f & 0x7fff_ffff) >> 13) - 0x1c000, clampAbove) | ((f & 0x8000_0000) >> 16)
  }

  /** The low 16 bits, as the store into a uint16_t keeps them. */
  function LowHalf(w: bv32): bv16
  {
    (w & 0xffff) as bv16
  }

  /** The result of fp32_to_fp16. */
  function Fp32ToFp16With(f: bv32, clampAbove: bv32): bv16
  {
    LowHalf(Fp32ToFp16Bits(f, clampAbove))
  }

  /** fp32_to_fp16 as written: the clamp compares the exponent bits with 0x8e000000. */
  function Fp32ToFp16(f: bv32): bv16
  {
    Fp32ToFp16With(f, 0x8e00_0000)
  }

  /** The clamp in the intended form: exponents above 142 (2^15) clamp to the largest half. */
  function Fp32ToFp16Clamped(f: bv32): bv16
  {
    Fp32ToFp16With(f, 0x4700_0000)
  }

  /**
   * As written the clamp never applies: the masked exponent is at most 0x7f800000, below
   * 0x8e000000.  A single of exponent 254, 0x7f000000 (about 1.7e38), comes out as 0x3800,
   * the half 0.5, instead of the largest half 0x7bff.
   */
  lemma ClampNeverApplies(f: bv32)
    ensures !(f & 0x7f80_0000 > 0x8e00_0000)
    ensures Fp32ToFp16(0x7f00_0000) == 0x3800
    ensures Fp32ToFp16Clamped(0x7f00_0000) == 0x7bff
  {
  }

  /** A threshold at or above the exponent bits does not take part. */
  lemma FlushClampNotTaken(t3: bv32, t1: bv32, c1: bv32, c2: bv32)
    requires t3 <= c1 && t3 <= c2
    ensures FlushClamp(t3, t1, c1) == FlushClamp(t3, t1, c2)
  {
  }

  /** Exponents up to 142 have their bits in place at most 0x47000000. */
  lemma BelowClampBits(f: bv32)
    requires SingleExponent(f) <= 142
    ensures f & 0x7f80_0000 <= 0x4700_0000
  {
  }

  lemma SameWithBelowClamp(f: bv32)
    requires f & 0x7f80_0000 <= 0x4700_0000
    ensures Fp32ToFp16With(f, 0x8e00_0000) == Fp32ToFp16With(f, 0x4700_0000)
  {
    SameBitsBelowClamp(f);
  }

  lemma SameBitsBelowClamp(f: bv32)
    requires f & 0x7f80_0000 <= 0x4700_0000
    ensures Fp32ToFp16Bits(f, 0x8e00_0000) == Fp32ToFp16Bits(f, 0x4700_0000)
  {
    FlushClampNotTaken(f & 0x7f80_0000, ((f & 0x7fff_ffff) >> 13) - 0x1c000, 0x8e00_0000, 0x4700_0000);
  }

  /** Up to exponent 142 the two thresholds agree. */
  lemma SameBelowClamp(f: bv32)
    requires SingleExponent(f) <= 142
    ensures Fp32ToFp16(f) == Fp32ToFp16Clamped(f)
  {
    BelowClampBits(f);
    SameWithBelowClamp(f);
  }

  lemma Fp32SignMoved(f: bv32)
    ensures HalfSign(Fp32ToFp16Clamped(f)) as bv32 == SingleSign(f)
  {
  }

  lemma Fp32FlushToZero(f: bv32)
    ensures SingleExponent(f) < 113 ==> Fp32ToFp16Clamped(f) & 0x7fff == 0
  {
  }

  lemma Fp32ClampToMax(f: bv32)
    ensures SingleExponent(f) > 142 ==> Fp32ToFp16Clamped(f) & 0x7fff == 0x7bff
  {
  }

  lemma Fp32ExponentRebiased(f: bv32)
    ensures 113 <= SingleExponent(f) <= 142 ==>
              HalfExponent(Fp32ToFp16Clamped(f)) as bv32 == SingleExponent(f) - BIAS_SHIFT
  {
  }

  /** The exponent bits in place, for exponents 113 to 142. */
  lemma NormalExponentBits(f: bv32)
    requires 113 <= SingleExponent(f) <= 142
    ensures 0x3880_0000 <= f & 0x7f80_0000 <= 0x4700_0000
  {
  }

  /** In the normal range no selection applies. */
  lemma FlushClampNormal(t3: bv32, t1: bv32, c: bv32)
    requires 0x3880_0000 <= t3 <= c
    ensures FlushClamp(t3, t1, c) == t1
  {
  }

  /** In the normal range of halves only the shift and the rebias apply. */
  lemma Fp32Normal(f: bv32)
    requires 0x3880_0000 <= f & 0x7f80_0000 <= 0x4700_0000
    ensures Fp32ToFp16Bits(f, 0x4700_0000) == (((f & 0x7fff_ffff) >> 13) - 0x1c000) | ((f & 0x8000_0000) >> 16)
  {
    FlushClampNormal(f & 0x7f80_0000, ((f & 0x7fff_ffff) >> 13) - 0x1c000, 0x4700_0000);
  }

  /** The fraction of a cut to 16 bits is the low 10 bits. */
  lemma FractionOfCut(w: bv32)
    ensures HalfFraction(LowHalf(w)) as bv32 == w & 0x3ff
  {
  }

  /** Neither the rebias nor the sign touch the low 10 bits. */
  lemma LowBitsOfRebias(f: bv32)
    ensures ((((f & 0x7fff_ffff) >> 13) - 0x1c000) | ((f & 0x8000_0000) >> 16)) & 0x3ff == SingleFraction(f) >> 13
  {
  }

  lemma Fp32FractionCut(f: bv32)
    requires 113 <= SingleExponent(f) <= 142
    ensures HalfFraction(Fp32ToFp16Clamped(f)) as bv32 == SingleFraction(f) >> 13
  {
    NormalExponentBits(f);
    Fp32Normal(f);
    FractionOfCut(Fp32ToFp16Bits(f, 0x4700_0000));
    LowBitsOfRebias(f);
  }

  /**
   * The intended conversion: the sign moves to bit 15; a single below the least normal half
   * (exponent below 113) flushes to a signed zero, one above 2^15 (exponent above 142) clamps
   * to the largest half, and in between the exponent is rebiased and the fraction truncated
   * to its top 10 bits, so the half denotes the single cut to 10 fraction bits.
   */
  lemma Fp32ToFp16ClampedFields(f: bv32)
    ensures HalfSign(Fp32ToFp16Clamped(f)) as bv32 == SingleSign(f)
    ensures SingleExponent(f) < 113 ==> Fp32ToFp16Clamped(f) & 0x7fff == 0
    ensures SingleExponent(f) > 142 ==> Fp32ToFp16Clamped(f) & 0x7fff == 0x7bff
    ensures 113 <= SingleExponent(f) <= 142 ==>
              && HalfExponent(Fp32ToFp16Clamped(f)) as bv32 == SingleExponent(f) - BIAS_SHIFT
              && HalfFraction(Fp32ToFp16Clamped(f)) as bv32 == SingleFraction(f) >> 13
  {
    Fp32SignMoved(f);
    Fp32FlushToZero(f);
    Fp32ClampToMax(f);
    Fp32ExponentRebiased(f);
    if 113 <= SingleExponent(f) <= 142 {
      Fp32FractionCut(f);
    }
  }

  /**
   * Every finite normal half survives the trip to single precision and back, both through
   * the intended conversion and through the one as written.
   */
  lemma RoundTripSign(h: bv16)
    ensures HalfSign(Fp32ToFp16Clamped(Fp16ToFp32(h))) == HalfSign(h)
  {
    Fp16SignKept(h);
    Fp32SignMoved(Fp16ToFp32(h));
  }

  lemma RoundTripRange(h: bv16)
    requires HalfExponent(h) != 0 && HalfExponent(h) != 0x1f
    ensures 113 <= SingleExponent(Fp16ToFp32(h)) <= 142
  {
    Fp16ExponentRebiased(h);
  }

  lemma RoundTripExponent(h: bv16)
    requires HalfExponent(h) != 0 && HalfExponent(h) != 0x1f
    ensures HalfExponent(Fp32ToFp16Clamped(Fp16ToFp32(h))) == HalfExponent(h)
  {
    Fp16ExponentRebiased(h);
    RoundTripRange(h);
    Fp32ExponentRebiased(Fp16ToFp32(h));
  }

  lemma RoundTripFraction(h: bv16)
    requires HalfExponent(h) != 0 && HalfExponent(h) != 0x1f
    ensures HalfFraction(Fp32ToFp16Clamped(Fp16ToFp32(h))) == HalfFraction(h)
  {
    RoundTripRange(h);
    Fp16FractionWidened(h);
    Fp32FractionCut(Fp16ToFp32(h));
  }

  lemma {:induction false} HalfRoundTrip(h: bv16)
    requires HalfExponent(h) != 0 && HalfExponent(h) != 0x1f
    ensures Fp32ToFp16Clamped(Fp16ToFp32(h)) == h
    ensures Fp32ToFp16(Fp16ToFp32(h)) == h
  {
    RoundTripSign(h);
    RoundTripExponent(h);
    RoundTripFraction(h);
    HalfFieldsDetermine(Fp32ToFp16Clamped(Fp16ToFp32(h)), h);
    RoundTripRange(h);
    SameBelowClamp(Fp16ToFp32(h));
  }
}
