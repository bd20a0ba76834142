/**
 * saturate_cast between the C++ integer types (include/minfer/saturate.h): every
 * specialisation as written, with C's conversions made explicit, proved to clamp.
 */
module Saturate {
  import opened Arith

  /** The eight integer types the casts are defined on (LP64 widths). */
  datatype IntType = UChar | SChar | UShort | Short | UInt | Int | Int64 | UInt64

  function Bits(t: IntType): nat
  {
    match t
    case UChar => 8
    case SChar => 8
    case UShort => 16
    case Short => 16
    case UInt => 32
    case Int => 32
    case Int64 => 64
    case UInt64 => 64
  }

  predicate Unsigned(t: IntType)
  {
    t.UChar? || t.UShort? || t.UInt? || t.UInt64?
  }

  /** 2^Bits(t), the number of values of t. */
  function Modulus(t: IntType): nat
  {
    match t
    case UChar => 0x100
    case SChar => 0x100
    case UShort => 0x1_0000
    case Short => 0x1_0000
    case UInt => 0x1_0000_0000
    case Int => 0x1_0000_0000
    case Int64 => 0x1_0000_0000_0000_0000
    case UInt64 => 0x1_0000_0000_0000_0000
  }

  /** UCHAR_MIN/SCHAR_MIN/..., the least value of t. */
  function Min(t: IntType): int
  {
    if Unsigned(t) then 0 else -(Modulus(t) / 2)
  }

  /** UCHAR_MAX/SCHAR_MAX/..., the greatest value of t. */
  function Max(t: IntType): int
  {
    if Unsigned(t) then Modulus(t) - 1 else Modulus(t) / 2 - 1
  }

  predicate InRange(t: IntType, v: int)
  {
    Min(t) <= v <= Max(t)
  }

  /**
   * The C++ conversion `(t)x`: the value of t congruent to x modulo 2^Bits(t) (for signed
   * targets this is the two's-complement rule C++20 fixes).
   */
  function Cast(t: IntType, x: int): (r: int)
  {
    (x - Min(t)) % Modulus(t) + Min(t)
  }

  /** Converting a value that t can hold leaves it unchanged. */
  lemma CastIdentity(t: IntType, x: int)
    requires InRange(t, x)
    ensures Cast(t, x) == x
  {
    DivUnique(x - Min(t), Modulus(t), 0, x - Min(t));
  }

  /** Converting a negative value to an unsigned type adds 2^Bits(t). */
  lemma CastWrapsNegative(t: IntType, x: int)
    requires Unsigned(t) && 0 <= x + Modulus(t) && x < 0
    ensures Cast(t, x) == x + Modulus(t)
  {
    DivUnique(x, Modulus(t), -1, x + Modulus(t));
  }

  /** Every conversion lands in the target type and keeps the value modulo 2^Bits(t). */
  lemma CastInRange(t: IntType, x: int)
    ensures InRange(t, Cast(t, x))
    ensures (Cast(t, x) - x) % Modulus(t) == 0
  {
    assert Max(t) == Min(t) + Modulus(t) - 1;
    ShiftedMod(x, Min(t), Modulus(t));
  }

  /** (x - lo) % m + lo lies in [lo, lo + m) and differs from x by a multiple of m. */
  lemma ShiftedMod(x: int, lo: int, m: int)
    requires m > 0
    ensures lo <= (x - lo) % m + lo < lo + m
    ensures ((x - lo) % m + lo - x) % m == 0
  {
    var q := (x - lo) / m;
    assert (x - lo) % m + lo - x == -(m * q);
    DivUnique(-(m * q), m, -q, 0);
  }

  /** The clamp the casts promise: the nearest value of `to`. */
  function Clamp(to: IntType, v: int): (r: int)
  {
    if v < Min(to) then Min(to) else if v > Max(to) then Max(to) else v
  }

  lemma ClampIsNearest(to: IntType, v: int)
    ensures InRange(to, Clamp(to, v))
    ensures InRange(to, v) ==> Clamp(to, v) == v
    ensures v < Min(to) ==> Clamp(to, v) == Min(to)
    ensures v > Max(to) ==> Clamp(to, v) == Max(to)
  {
  }

  function MinInt(a: int, b: int): int { if b < a then b else a }

  function MaxInt(a: int, b: int): int { if a < b then b else a }

  /**
   * The specialisations that compute `v - T_MIN` in the source type overflow there for
   * values near the top of the source type, which C++ leaves undefined; their callers must
   * stay below that.
   */
  predicate SubtractionFits(to: IntType, from: IntType, v: int)
  {
    (((to.SChar? || to.Short?) && (from.Int? || from.Int64?)) || (to.Int? && from.Int64?))
    ==> v - Min(to) <= Max(from)
  }

  /** `(unsigned)v <= MAX ? v : v > 0 ? MAX : 0`, with the unsigned type of the source width. */
  function ClampUnsignedTest(wide: IntType, to: IntType, v: int): int
  {
    if Cast(wide, v) <= Max(to) then v else if v > 0 then Max(to) else 0
  }

  /** `(wide unsigned)(v - MIN) <= (wide unsigned)UMAX ? v : v > 0 ? MAX : MIN`. */
  function ClampShiftedTest(wide: IntType, to: IntType, v: int): int
  {
    if Cast(wide, v - Min(to)) <= Modulus(to) - 1 then v else if v > 0 then Max(to) else Min(to)
  }

  /** saturate_cast<uchar>(v), include/minfer/saturate.h:42-70. */
  function ToUChar(from: IntType, v: int): (r: int)
    requires InRange(from, v)
  {
    match from
    case UChar => Cast(UChar, v)
    case SChar => Cast(UChar, MaxInt(Cast(Int, v), 0))
    case UShort => Cast(UChar, MinInt(Cast(UInt, v), Max(UChar)))
    case Int => Cast(UChar, ClampUnsignedTest(UInt, UChar, v))
    case Short => Cast(UChar, ClampUnsignedTest(UInt, UChar, Cast(Int, v)))
    case UInt => Cast(UChar, MinInt(v, Max(UChar)))
    case Int64 => Cast(UChar, ClampUnsignedTest(UInt64, UChar, v))
    case UInt64 => Cast(UChar, MinInt(v, Max(UChar)))
  }

  /** saturate_cast<schar>(v), include/minfer/saturate.h:44, 72-80. */
  function ToSChar(from: IntType, v: int): (r: int)
    requires InRange(from, v) && SubtractionFits(SChar, from, v)
  {
    match from
    case SChar => Cast(SChar, v)
    case UChar => Cast(SChar, MinInt(Cast(Int, v), Max(SChar)))
    case UShort => Cast(SChar, MinInt(Cast(UInt, v), Max(SChar)))
    case Int => Cast(SChar, ClampShiftedTest(UInt, SChar, v))
    case Short => Cast(SChar, ClampShiftedTest(UInt, SChar, Cast(Int, v)))
    case UInt => Cast(SChar, MinInt(v, Max(SChar)))
    case Int64 => Cast(SChar, ClampShiftedTest(UInt64, SChar, v))
    case UInt64 => Cast(SChar, MinInt(v, Max(SChar)))
  }

  /** saturate_cast<ushort>(v), include/minfer/saturate.h:42-60, 82-89. */
  function ToUShort(from: IntType, v: int): (r: int)
    requires InRange(from, v)
  {
    match from
    case UChar => Cast(UShort, v)
    case UShort => Cast(UShort, v)
    case SChar => Cast(UShort, MaxInt(Cast(Int, v), 0))
    case Short => Cast(UShort, MaxInt(Cast(Int, v), 0))
    case Int => Cast(UShort, ClampUnsignedTest(UInt, UShort, v))
    case UInt => Cast(UShort, MinInt(v, Max(UShort)))
    case Int64 => Cast(UShort, ClampUnsignedTest(UInt64, UShort, v))
    case UInt64 => Cast(UShort, MinInt(v, Max(UShort)))
  }

  /** saturate_cast<short>(v), include/minfer/saturate.h:42-60, 91-97. */
  function ToShort(from: IntType, v: int): (r: int)
    requires InRange(from, v) && SubtractionFits(Short, from, v)
  {
    match from
    case UChar => Cast(Short, v)
    case SChar => Cast(Short, v)
    case Short => Cast(Short, v)
    case UShort => Cast(Short, MinInt(Cast(Int, v), Max(Short)))
    case Int => Cast(Short, ClampShiftedTest(UInt, Short, v))
    case UInt => Cast(Short, MinInt(v, Max(Short)))
    case Int64 => Cast(Short, ClampShiftedTest(UInt64, Short, v))
    case UInt64 => Cast(Short, MinInt(v, Max(Short)))
  }

  /** saturate_cast<int>(v), include/minfer/saturate.h:42-60, 99-101. */
  function ToInt(from: IntType, v: int): (r: int)
    requires InRange(from, v) && SubtractionFits(Int, from, v)
  {
    match from
    case UChar => Cast(Int, v)
    case SChar => Cast(Int, v)
    case UShort => Cast(Int, v)
    case Short => Cast(Int, v)
    case Int => Cast(Int, v)
    case UInt => Cast(Int, MinInt(v, Max(Int)))
    case Int64 => Cast(Int, ClampShiftedTest(UInt64, Int, v))
    case UInt64 => Cast(Int, MinInt(v, Max(Int)))
  }

  /** saturate_cast<unsigned>(v), include/minfer/saturate.h:42-60, 105-109. */
  function ToUInt(from: IntType, v: int): (r: int)
    requires InRange(from, v)
  {
    match from
    case UChar => Cast(UInt, v)
    case UShort => Cast(UInt, v)
    case UInt => Cast(UInt, v)
    case SChar => Cast(UInt, MaxInt(v, 0))
    case Short => Cast(UInt, MaxInt(v, 0))
    case Int => Cast(UInt, MaxInt(v, 0))
    case Int64 => Cast(UInt, ClampUnsignedTest(UInt64, UInt, v))
    case UInt64 => Cast(UInt, MinInt(v, Max(UInt)))
  }

  /** saturate_cast<uint64>(v), include/minfer/saturate.h:42-60, 114-117. */
  function ToUInt64(from: IntType, v: int): (r: int)
    requires InRange(from, v)
  {
    match from
    case UChar => Cast(UInt64, v)
    case UShort => Cast(UInt64, v)
    case UInt => Cast(UInt64, v)
    case UInt64 => Cast(UInt64, v)
    case SChar => Cast(UInt64, MaxInt(v, 0))
    case Short => Cast(UInt64, MaxInt(v, 0))
    case Int => Cast(UInt64, MaxInt(v, 0))
    case Int64 => Cast(UInt64, MaxInt(v, 0))
  }

  /** saturate_cast<int64>(v), include/minfer/saturate.h:42-60, 119. */
  function ToInt64(from: IntType, v: int): (r: int)
    requires InRange(from, v)
  {
    match from
    case UInt64 => Cast(Int64, MinInt(v, Max(Int64)))
    case _ => Cast(Int64, v)
  }

  /** saturate_cast<to>(v) for a value v of type `from`. */
  function SaturateCast(to: IntType, from: IntType, v: int): (r: int)
    requires InRange(from, v) && SubtractionFits(to, from, v)
  {
    match to
    case UChar => ToUChar(from, v)
    case SChar => ToSChar(from, v)
    case UShort => ToUShort(from, v)
    case Short => ToShort(from, v)
    case UInt => ToUInt(from, v)
    case Int => ToInt(from, v)
    case Int64 => ToInt64(from, v)
    case UInt64 => ToUInt64(from, v)
  }

  /**
   * `(unsigned)v <= MAX ? v : v > 0 ? MAX : 0` for a signed v and an unsigned `wide` of
   * v's width clamps to the unsigned target: a negative v wraps above MAX.
   */
  lemma UnsignedTestClamps(wide: IntType, from: IntType, to: IntType, v: int)
    requires Unsigned(wide) && !Unsigned(from) && Modulus(wide) == Modulus(from)
    requires Unsigned(to) && Max(to) < Max(from) && InRange(from, v)
    ensures ClampUnsignedTest(wide, to, v) == Clamp(to, v)
  {
    if v < 0 {
      CastWrapsNegative(wide, v);
    } else {
      CastIdentity(wide, v);
    }
  }

  /**
   * `(unsigned)(v - MIN) <= UMAX ? v : v > 0 ? MAX : MIN` for a signed v and an unsigned
   * `wide` of v's width clamps to the signed target: v - MIN is below zero exactly when v is
   * below MIN, and then it wraps above UMAX.
   */
  lemma ShiftedTestClamps(wide: IntType, from: IntType, to: IntType, v: int)
    requires Unsigned(wide) && !Unsigned(from) && Modulus(wide) == Modulus(from)
    requires !Unsigned(to) && Max(to) < Max(from) && InRange(from, v)
    requires v - Min(to) <= Max(from)
    ensures ClampShiftedTest(wide, to, v) == Clamp(to, v)
  {
    if v - Min(to) < 0 {
      CastWrapsNegative(wide, v - Min(to));
    } else {
      CastIdentity(wide, v - Min(to));
    }
  }

  /** saturate_cast<uchar> clamps to [0, 255]. */
  lemma ToUCharClamps(from: IntType, v: int)
    requires InRange(from, v)
    ensures ToUChar(from, v) == Clamp(UChar, v)
  {
    var c := Clamp(UChar, v);
    match from
    case UChar => CastIdentity(UChar, v);
    case SChar => CastIdentity(Int, v); CastIdentity(UChar, c);
    case UShort => CastIdentity(UInt, v); CastIdentity(UChar, c);
    case Int => UnsignedTestClamps(UInt, Int, UChar, v); CastIdentity(UChar, c);
    case Short =>
      CastIdentity(Int, v); UnsignedTestClamps(UInt, Int, UChar, v); CastIdentity(UChar, c);
    case UInt => CastIdentity(UChar, c);
    case Int64 => UnsignedTestClamps(UInt64, Int64, UChar, v); CastIdentity(UChar, c);
    case UInt64 => CastIdentity(UChar, c);
  }

  /** saturate_cast<schar> clamps to [-128, 127]. */
  lemma ToSCharClamps(from: IntType, v: int)
    requires InRange(from, v) && SubtractionFits(SChar, from, v)
    ensures ToSChar(from, v) == Clamp(SChar, v)
  {
    var c := Clamp(SChar, v);
    match from
    case SChar => CastIdentity(SChar, v);
    case UChar => CastIdentity(Int, v); CastIdentity(SChar, c);
    case UShort => CastIdentity(UInt, v); CastIdentity(SChar, c);
    case Int => ShiftedTestClamps(UInt, Int, SChar, v); CastIdentity(SChar, c);
    case Short =>
      CastIdentity(Int, v); ShiftedTestClamps(UInt, Int, SChar, v); CastIdentity(SChar, c);
    case UInt => CastIdentity(SChar, c);
    case Int64 => ShiftedTestClamps(UInt64, Int64, SChar, v); CastIdentity(SChar, c);
    case UInt64 => CastIdentity(SChar, c);
  }

  /** saturate_cast<ushort> clamps to [0, 65535]. */
  lemma ToUShortClamps(from: IntType, v: int)
    requires InRange(from, v)
    ensures ToUShort(from, v) == Clamp(UShort, v)
  {
    var c := Clamp(UShort, v);
    match from
    case UChar => CastIdentity(UShort, v);
    case UShort => CastIdentity(UShort, v);
    case SChar => CastIdentity(Int, v); CastIdentity(UShort, c);
    case Short => CastIdentity(Int, v); CastIdentity(UShort, c);
    case Int => UnsignedTestClamps(UInt, Int, UShort, v); CastIdentity(UShort, c);
    case UInt => CastIdentity(UShort, c);
    case Int64 => UnsignedTestClamps(UInt64, Int64, UShort, v); CastIdentity(UShort, c);
    case UInt64 => CastIdentity(UShort, c);
  }

  /** saturate_cast<short> clamps to [-32768, 32767]. */
  lemma ToShortClamps(from: IntType, v: int)
    requires InRange(from, v) && SubtractionFits(Short, from, v)
    ensures ToShort(from, v) == Clamp(Short, v)
  {
    var c := Clamp(Short, v);
    match from
    case UChar => CastIdentity(Short, v);
    case SChar => CastIdentity(Short, v);
    case Short => CastIdentity(Short, v);
    case UShort => CastIdentity(Int, v); CastIdentity(Short, c);
    case Int => ShiftedTestClamps(UInt, Int, Short, v); CastIdentity(Short, c);
    case UInt => CastIdentity(Short, c);
    case Int64 => ShiftedTestClamps(UInt64, Int64, Short, v); CastIdentity(Short, c);
    case UInt64 => CastIdentity(Short, c);
  }

  /** saturate_cast<int> clamps to [INT_MIN, INT_MAX]. */
  lemma ToIntClamps(from: IntType, v: int)
    requires InRange(from, v) && SubtractionFits(Int, from, v)
    ensures ToInt(from, v) == Clamp(Int, v)
  {
    var c := Clamp(Int, v);
    match from
    case UChar => CastIdentity(Int, v);
    case SChar => CastIdentity(Int, v);
    case UShort => CastIdentity(Int, v);
    case Short => CastIdentity(Int, v);
    case Int => CastIdentity(Int, v);
    case UInt => CastIdentity(Int, c);
    case Int64 => ShiftedTestClamps(UInt64, Int64, Int, v); CastIdentity(Int, c);
    case UInt64 => CastIdentity(Int, c);
  }

  /** saturate_cast<unsigned> maps negatives to 0 and clamps above at UINT_MAX. */
  lemma ToUIntClamps(from: IntType, v: int)
    requires InRange(from, v)
    ensures ToUInt(from, v) == Clamp(UInt, v)
  {
    var c := Clamp(UInt, v);
    match from
    case UChar => CastIdentity(UInt, v);
    case UShort => CastIdentity(UInt, v);
    case UInt => CastIdentity(UInt, v);
    case SChar => CastIdentity(UInt, c);
    case Short => CastIdentity(UInt, c);
    case Int => CastIdentity(UInt, c);
    case Int64 => UnsignedTestClamps(UInt64, Int64, UInt, v); CastIdentity(UInt, c);
    case UInt64 => CastIdentity(UInt, c);
  }

  /** saturate_cast<uint64> maps negatives to 0. */
  lemma ToUInt64Clamps(from: IntType, v: int)
    requires InRange(from, v)
    ensures ToUInt64(from, v) == Clamp(UInt64, v)
  {
    CastIdentity(UInt64, Clamp(UInt64, v));
  }

  /** saturate_cast<int64> clamps above at LLONG_MAX. */
  lemma ToInt64Clamps(from: IntType, v: int)
    requires InRange(from, v)
    ensures ToInt64(from, v) == Clamp(Int64, v)
  {
    CastIdentity(Int64, Clamp(Int64, v));
  }

  /** Every integer-to-integer saturate_cast is the clamp to the target's range. */
  lemma SaturateCastClamps(to: IntType, from: IntType, v: int)
    requires InRange(from, v) && SubtractionFits(to, from, v)
    ensures SaturateCast(to, from, v) == Clamp(to, v)
  {
    match to
    case UChar => ToUCharClamps(from, v);
    case SChar => ToSCharClamps(from, v);
    case UShort => ToUShortClamps(from, v);
    case Short => ToShortClamps(from, v);
    case UInt => ToUIntClamps(from, v);
    case Int => ToIntClamps(from, v);
    case Int64 => ToInt64Clamps(from, v);
    case UInt64 => ToUInt64Clamps(from, v);
  }

  /**
   * Hence saturate_cast returns v itself when `to` can hold it, and otherwise the bound of
   * `to` on v's side.
   */
  lemma SaturateCastInRange(to: IntType, from: IntType, v: int)
    requires InRange(from, v) && SubtractionFits(to, from, v)
    ensures InRange(to, SaturateCast(to, from, v))
    ensures InRange(to, v) ==> SaturateCast(to, from, v) == v
    ensures v < Min(to) ==> SaturateCast(to, from, v) == Min(to)
    ensures v > Max(to) ==> SaturateCast(to, from, v) == Max(to)
  {
    SaturateCastClamps(to, from, v);
    ClampIsNearest(to, v);
  }

  /** Saturating a value that is already of the target type changes nothing. */
  lemma SaturateCastIdempotent(to: IntType, from: IntType, v: int)
    requires InRange(from, v) && SubtractionFits(to, from, v)
    ensures InRange(to, SaturateCast(to, from, v))
    ensures SaturateCast(to, to, SaturateCast(to, from, v)) == SaturateCast(to, from, v)
  {
    SaturateCastInRange(to, from, v);
    SaturateCastInRange(to, to, SaturateCast(to, from, v));
  }
}
