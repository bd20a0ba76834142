/**
 * Integer facts the size, alignment and index computations rest on: Euclidean division
 * and the bitwise AND of non-negative words, as C++ evaluates `&` on unsigned values.
 */
module Arith {
  import opened Bytes

  lemma MulAtLeast(b: int, x: int)
    requires b > 0 && x >= 1
    ensures b * x >= b
  {
  }

  /** Quotient and remainder are unique. */
  lemma DivUnique(a: int, b: int, q: int, r: int)
    requires b > 0 && 0 <= r < b && a == b * q + r
    ensures a / b == q && a % b == r
  {
    var d, m := a / b, a % b;
    assert b * (q - d) == m - r;
    assert b * (d - q) == r - m;
    if q - d >= 1 {
      MulAtLeast(b, q - d);
      assert false;
    } else if d - q >= 1 {
      MulAtLeast(b, d - q);
      assert false;
    }
  }

  lemma MulMod(q: nat, y: nat)
    requires y > 0
    ensures (q * y) % y == 0 && (q * y) / y == q
  {
    DivUnique(q * y, y, q, 0);
  }

  /** The bitwise AND of two non-negative integers, bit by bit from the lowest. */
  function BitAnd(a: nat, b: nat): nat
    decreases a
  {
    if a == 0 || b == 0 then 0
    else (if a % 2 == 1 && b % 2 == 1 then 1 else 0) + 2 * BitAnd(a / 2, b / 2)
  }

  /** AND with w one-bits keeps every value of at most w bits. */
  lemma BitAndOnes(y: nat, w: nat)
    requires y < Pow2(w)
    ensures BitAnd(y, Pow2(w) - 1) == y
  {
    Pow2IsPowerOfTwo(w);
    OnesKeep(y, Pow2(w));
  }

  /** AND with p - 1, for a power of two p, keeps every value below p. */
  lemma {:induction false} OnesKeep(y: nat, p: nat)
    requires IsPowerOfTwo(p) && y < p
    ensures BitAnd(y, p - 1) == y
    decreases p
  {
    if p > 1 && y > 0 {
      DivUnique(p - 1, 2, p / 2 - 1, 1);
      OnesKeep(y / 2, p / 2);
    }
  }

  /** 2^n is a power of two. */
  lemma {:induction false} Pow2IsPowerOfTwo(n: nat)
    ensures IsPowerOfTwo(Pow2(n))
  {
    if n > 0 {
      Pow2IsPowerOfTwo(n - 1);
      assert Pow2(n) / 2 == Pow2(n - 1);
    }
  }

  /** A remainder modulo 2m, from the lowest bit and the remainder of the half modulo m. */
  lemma ModDouble(y: nat, m: nat)
    requires m > 0
    ensures y % (2 * m) == y % 2 + 2 * ((y / 2) % m)
  {
    var q, r := (y / 2) / m, (y / 2) % m;
    assert y / 2 == m * q + r;
    MulTwice(q, m);
    assert y == (2 * m) * q + (2 * r + y % 2);
    DivUnique(y, 2 * m, q, 2 * r + y % 2);
  }

  /** Rounding down to a multiple of d stays at or below x. */
  lemma RoundDown(x: nat, d: nat)
    requires d > 0
    ensures x / d * d <= x && (x / d * d) % d == 0
  {
    MulMod(x / d, d);
  }

  /** AND with 2^k - 1 keeps the k low bits: the remainder modulo 2^k. */
  lemma BitAndLowMask(y: nat, k: nat)
    ensures BitAnd(y, Pow2(k) - 1) == y % Pow2(k)
  {
    Pow2IsPowerOfTwo(k);
    LowMask(y, Pow2(k));
  }

  /** AND with p - 1, for a power of two p, is the remainder modulo p. */
  lemma {:induction false} LowMask(y: nat, p: nat)
    requires IsPowerOfTwo(p)
    ensures BitAnd(y, p - 1) == y % p
    decreases p
  {
    if p > 1 && y > 0 {
      LowMask(y / 2, p / 2);
      LowMaskStep(y, p / 2, p);
    } else if p == 1 {
      LowMaskOfOne(y);
    } else {
      LowMaskOfZero(p);
    }
  }

  lemma LowMaskOfOne(y: nat)
    ensures BitAnd(y, 1 - 1) == y % 1
  {
  }

  lemma LowMaskOfZero(p: nat)
    requires p > 0
    ensures BitAnd(0, p - 1) == 0 % p
  {
  }

  /** One bit more of mask: the low bit of y, then the masked rest. */
  lemma LowMaskStep(y: nat, m: nat, p: nat)
    requires y > 0 && m > 0 && p == 2 * m && BitAnd(y / 2, m - 1) == (y / 2) % m
    ensures BitAnd(y, p - 1) == y % p
  {
    LowBitStep(y, m, p);
    ModDouble(y, m);
  }

  /** AND with 2m - 1 keeps the low bit of y and ANDs the rest with m - 1. */
  lemma LowBitStep(y: nat, m: nat, p: nat)
    requires y > 0 && m > 0 && p == 2 * m
    ensures BitAnd(y, p - 1) == y % 2 + 2 * BitAnd(y / 2, m - 1)
  {
    DivUnique(p - 1, 2, m - 1, 1);
  }

  /** A power of two below 2^w has an exponent below w. */
  lemma Pow2Below(k: nat, w: nat)
    requires Pow2(k) < Pow2(w)
    ensures k < w
  {
    if k >= w { Pow2Mono(w, k); }
  }

  lemma {:induction false} Pow2Mono(k: nat, w: nat)
    requires k <= w
    ensures Pow2(k) <= Pow2(w)
    decreases w
  {
    if k < w { Pow2Mono(k, w - 1); }
  }

  /**
   * In a w-bit word, AND with the complement of 2^k - 1 (that is with 2^w - 2^k) clears
   * the k low bits: it rounds down to a multiple of 2^k.
   */
  lemma BitAndHighMask(y: nat, w: nat, k: nat)
    requires k <= w && y < Pow2(w)
    ensures Pow2(k) <= Pow2(w) && BitAnd(y, Pow2(w) - Pow2(k)) == y / Pow2(k) * Pow2(k)
  {
    Pow2Mono(k, w);
    Pow2IsPowerOfTwo(w);
    Pow2IsPowerOfTwo(k);
    HighMask(y, Pow2(w), Pow2(k));
  }

  /** For powers of two q <= p and y < p, AND with p - q rounds y down to a multiple of q. */
  lemma HighMask(y: nat, p: nat, q: nat)
    requires IsPowerOfTwo(p) && IsPowerOfTwo(q) && q <= p && y < p
    ensures BitAnd(y, p - q) == y / q * q
  {
    MaskSplit(y, p, q);
    LowMask(y, q);
    RoundDownIsMinusMod(y, q);
  }

  /** For powers of two q <= p, the bits of y < p at and above q and those below q add up to y. */
  lemma {:induction false} MaskSplit(y: nat, p: nat, q: nat)
    requires IsPowerOfTwo(p) && IsPowerOfTwo(q) && q <= p && y < p
    ensures BitAnd(y, p - q) + BitAnd(y, q - 1) == y
    decreases q
  {
    if q == 1 {
      OnesKeep(y, p);
      SplitOfNone(y, p);
    } else if q == p {
      OnesKeep(y, p);
      SplitOfAll(y, p);
    } else if y > 0 {
      HalvesArePowers(p, q);
      MaskSplit(y / 2, p / 2, q / 2);
      SplitStep(y, p, q, p / 2, q / 2);
    } else {
      SplitOfZero(p, q);
    }
  }

  /** Halving two powers of two greater than 1 keeps them powers of two and in order. */
  lemma HalvesArePowers(p: nat, q: nat)
    requires IsPowerOfTwo(p) && IsPowerOfTwo(q) && 1 < q < p
    ensures IsPowerOfTwo(p / 2) && IsPowerOfTwo(q / 2) && q / 2 <= p / 2
    ensures p == 2 * (p / 2) && q == 2 * (q / 2)
  {
  }

  lemma SplitOfNone(y: nat, p: nat)
    requires p > 0 && BitAnd(y, p - 1) == y
    ensures BitAnd(y, p - 1) + BitAnd(y, 1 - 1) == y
  {
  }

  lemma SplitOfAll(y: nat, p: nat)
    requires p > 0 && BitAnd(y, p - 1) == y
    ensures BitAnd(y, p - p) + BitAnd(y, p - 1) == y
  {
  }

  lemma SplitOfZero(p: nat, q: nat)
    requires 0 < q <= p
    ensures BitAnd(0, p - q) + BitAnd(0, q - 1) == 0
  {
  }

  /**
   * One bit more: with masks of twice the width and twice the cleared part, the low bit of y
   * goes to the low mask and the rest of y splits as y / 2 does.
   */
  lemma SplitStep(y: nat, w: nat, k: nat, w2: nat, k2: nat)
    requires w == 2 * w2 && k == 2 * k2 && 0 < k2 <= w2 && y > 0
    requires BitAnd(y / 2, w2 - k2) + BitAnd(y / 2, k2 - 1) == y / 2
    ensures BitAnd(y, w - k) + BitAnd(y, k - 1) == y
  {
    DivUnique(w - k, 2, w2 - k2, 0);
    DivUnique(k - 1, 2, k2 - 1, 1);
  }

  lemma RoundDownIsMinusMod(y: nat, p: nat)
    requires p > 0
    ensures y / p * p == y - y % p
  {
  }

  /** n is a power of two: 1, or an even number whose half is one. */
  predicate IsPowerOfTwo(n: nat)
    decreases n
  {
    n == 1 || (n > 1 && n % 2 == 0 && IsPowerOfTwo(n / 2))
  }

  /** The exponent of a power of two. */
  function Log2(n: nat): (k: nat)
    requires IsPowerOfTwo(n)
    ensures Pow2(k) == n
    decreases n
  {
    if n == 1 then 0 else 1 + Log2(n / 2)
  }

  lemma MulTwice(q: int, m: int)
    ensures 2 * (q * m) == q * (2 * m)
  {
  }
}
