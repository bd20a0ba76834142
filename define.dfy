/**
 * The element-type codes and the small arithmetic macros every buffer computation uses
 * (include/minfer/define.h, src/core/define.impl.h).
 */
module Define {
  import opened Bytes
  import opened Arith

  // ---------------------------------------------------------------- Mat element types

  const DT_8U: nat := 0
  const DT_8S: nat := 1
  const DT_16U: nat := 2
  const DT_16S: nat := 3
  const DT_32S: nat := 4
  const DT_32F: nat := 5
  const DT_64F: nat := 6
  const DT_16F: nat := 7
  const DT_16BF: nat := 8
  const DT_BOOL: nat := 9
  const DT_64U: nat := 10
  const DT_64S: nat := 11
  const DT_32U: nat := 12

  /** The packed size table: nibble t holds the byte size of element type t. */
  const ELEM_SIZE_TABLE: nat := 0x4881228442211

  /** A four-bit table entry. */
  type nibble = x: nat | x < 16

  /** The byte sizes the comment above the table documents, for codes 0..12. */
  const DOCUMENTED_SIZES: seq<nibble> := [1, 1, 2, 2, 4, 4, 8, 2, 2, 1, 8, 8, 4]

  /**
   * DT_ELEM_SIZE(type): nibble `type` of the table.  The shift by type * 4 is defined in
   * C++ only below 64, so the type must be below 16.
   */
  function ElemSize(t: nat): (r: nat)
    requires t < 16
    ensures r < 16
  {
    Nibble(ELEM_SIZE_TABLE, t)
  }

  /** Nibble i of v: (v >> 4 * i) & 0xF on a non-negative word. */
  function Nibble(v: nat, i: nat): (r: nat)
    ensures r < 16
  {
    if i == 0 then v % 16 else Nibble(v / 16, i - 1)
  }

  /** Nibbles packed from the lowest: s[0] + 16 * s[1] + 16^2 * s[2] + ... */
  function Pack(s: seq<nibble>): nat
  {
    if s == [] then 0 else s[0] + 16 * Pack(s[1..])
  }

  /** The table constant is the documented sizes, packed. */
  lemma TableIsPacked()
    ensures ELEM_SIZE_TABLE == Pack(DOCUMENTED_SIZES)
  {
  }

  lemma {:induction false} NibbleOfZero(i: nat)
    ensures Nibble(0, i) == 0
    decreases i
  {
    if i > 0 { NibbleOfZero(i - 1); }
  }

  /** Nibble i of a packed sequence of nibbles is its element i, and zero past its end. */
  lemma {:induction false} NibblePack(s: seq<nibble>, i: nat)
    ensures Nibble(Pack(s), i) == if i < |s| then s[i] else 0
    decreases i
  {
    if s == [] {
      NibbleOfZero(i);
    } else {
      DivUnique(Pack(s), 16, Pack(s[1..]), s[0]);
      if i > 0 {
        NibblePack(s[1..], i - 1);
      }
    }
  }

  /**
   * Every defined type code 0..12 has the size the table's comment documents, and the
   * unused nibbles 13..15 give size 0.
   */
  lemma ElemSizeTable(t: nat)
    requires t < 16
    ensures ElemSize(t) == if t < 13 then DOCUMENTED_SIZES[t] else 0
  {
    TableIsPacked();
    NibblePack(DOCUMENTED_SIZES, t);
  }

  /** The size of a defined element type is a power of two of at most 8 bytes. */
  lemma ElemSizePow2(t: nat)
    requires t < 13
    ensures ElemSize(t) in {1, 2, 4, 8}
  {
    ElemSizeTable(t);
  }

  // ---------------------------------------------------------------- M_PAD

  /** size_t is 8 bytes, 64 bits wide: its values are those below Pow2(WORD_BITS). */
  const SIZE_T_BYTES: nat := 8
  const WORD_BITS: nat := 8 * SIZE_T_BYTES

  /** 2^WORD_BITS, the number of size_t values. */
  const SIZE_T_SPAN: nat := 0x1_0000_0000_0000_0000

  lemma WordModulus()
    ensures Pow2(WORD_BITS) == SIZE_T_SPAN
  {
    Pow256IsPow2(SIZE_T_BYTES);
    assert Pow256(SIZE_T_BYTES) == 0x1_0000_0000_0000_0000;
  }

  /**
   * (x + n - 1) & ~(n - 1) in a w-bit unsigned word: the sum of two w-bit values wraps past
   * 2^w at most once, and the complement of n - 1 is 2^w - n.
   */
  function PadBits(w: nat, x: nat, n: nat): (r: nat)
    requires x < Pow2(w) && 0 < n < Pow2(w)
  {
    var sum := x + n - 1;
    BitAnd(if sum < Pow2(w) then sum else sum - Pow2(w), Pow2(w) - n)
  }

  /** M_PAD(x, n) on size_t. */
  function MPad(x: nat, n: nat): (r: nat)
    requires x < Pow2(WORD_BITS) && 0 < n < Pow2(WORD_BITS)
  {
    PadBits(WORD_BITS, x, n)
  }

  /**
   * For n = 2^k below 2^w and an x whose padding does not wrap, the padding is ROUND_UP(x, n):
   * the least multiple of n that is at least x.
   */
  lemma PadBitsRoundsUp(w: nat, x: nat, k: nat)
    requires k < w && x + Pow2(k) - 1 < Pow2(w)
    ensures Pow2(k) < Pow2(w) && PadBits(w, x, Pow2(k)) == RoundUp(x, Pow2(k))
    ensures PadBits(w, x, Pow2(k)) % Pow2(k) == 0
    ensures x <= PadBits(w, x, Pow2(k)) < x + Pow2(k)
  {
    Pow2Mono(k + 1, w);
    Pow2IsPowerOfTwo(w);
    Pow2IsPowerOfTwo(k);
    PadIsRoundUp(w, x, Pow2(k));
  }

  /** For a power of two n below 2^w and an x whose padding does not wrap, the padding is ROUND_UP(x, n). */
  lemma PadIsRoundUp(w: nat, x: nat, n: nat)
    requires IsPowerOfTwo(Pow2(w)) && IsPowerOfTwo(n) && n < Pow2(w) && x + n - 1 < Pow2(w)
    ensures PadBits(w, x, n) == RoundUp(x, n)
    ensures PadBits(w, x, n) % n == 0 && x <= PadBits(w, x, n) < x + n
  {
    PadBitsNoWrap(w, x, n);
    HighMask(x + n - 1, Pow2(w), n);
    assert RoundUp(x, n) == (x + n - 1) / n * n;
  }

  /** Without wrap-around the padding is the plain sum x + n - 1, masked. */
  lemma PadBitsNoWrap(w: nat, x: nat, n: nat)
    requires 0 < n < Pow2(w) && x + n - 1 < Pow2(w)
    ensures PadBits(w, x, n) == BitAnd(x + n - 1, Pow2(w) - n)
  {
  }

  /** M_PAD(x, 2^k) on size_t is the next multiple of 2^k, when x + 2^k - 1 does not wrap. */
  lemma MPadRoundsUp(x: nat, k: nat)
    requires k < WORD_BITS && x + Pow2(k) - 1 < Pow2(WORD_BITS)
    ensures Pow2(k) < Pow2(WORD_BITS) && MPad(x, Pow2(k)) == RoundUp(x, Pow2(k))
    ensures MPad(x, Pow2(k)) % Pow2(k) == 0 && x <= MPad(x, Pow2(k)) < x + Pow2(k)
  {
    PadBitsRoundsUp(WORD_BITS, x, k);
  }

  // ---------------------------------------------------------------- define.impl.h

  /** ALIMIN(x, y). */
  function AliMin(x: int, y: int): (r: int)
    ensures r <= x && r <= y && (r == x || r == y)
  {
    if x < y then x else y
  }

  /** ALIMAX(x, y). */
  function AliMax(x: int, y: int): (r: int)
    ensures r >= x && r >= y && (r == x || r == y)
  {
    if x > y then x else y
  }

  /** UP_DIV(x, y) on the non-negative sizes it is used with: division rounded up, the least r with r * y >= x. */
  function UpDiv(x: nat, y: nat): (r: nat)
    requires y > 0
    ensures r * y >= x
    ensures r == 0 || (r - 1) * y < x
  {
    var q := (x + y - 1) / y;
    assert x + y - 1 == q * y + (x + y - 1) % y;
    assert q > 0 ==> (q - 1) * y == q * y - y;
    q
  }

  /** ROUND_UP(x, y) on the non-negative sizes it is used with: the multiple of y in [x, x + y). */
  function RoundUp(x: nat, y: nat): (r: nat)
    requires y > 0
    ensures r % y == 0
    ensures x <= r < x + y
  {
    var q := UpDiv(x, y);
    MulMod(q, y);
    assert q > 0 ==> (q - 1) * y == q * y - y;
    q * y
  }

  /** ALIGN_UP4(x). */
  function AlignUp4(x: nat): (r: nat)
    ensures r % 4 == 0 && x <= r < x + 4
  {
    RoundUp(x, 4)
  }

  /** ALIGN_UP8(x). */
  function AlignUp8(x: nat): (r: nat)
    ensures r % 8 == 0 && x <= r < x + 8
  {
    RoundUp(x, 8)
  }
}
