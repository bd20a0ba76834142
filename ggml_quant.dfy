/**
 * Quantisation block layouts and the tensor type traits of the C++ loader
 * (src/core/gguf_model/ggml_quant.h, src/core/gguf_model/gguf_loader.h:17-49), and the
 * row-size computation of src/core/gguf_model/gguf_utils.cpp.
 */
module GgmlQuant {
  import opened Bytes
  import opened Arith
  import opened Define

  // ---------------------------------------------------------------- enum GGML_TYPE

  /** The only tensor types the enum leaves defined. */
  const GGML_TYPE_F32: nat := 0
  const GGML_TYPE_F16: nat := 1
  const GGML_TYPE_Q8_0: nat := 2
  const GGML_TYPE_COUNT: nat := 3

  // ---------------------------------------------------------------- QK_K

  /** QK_K: 64 in a GGML_QKK_64 build, 256 otherwise. */
  function QkK(qkk64: bool): nat
  {
    if qkk64 then 64 else 256
  }

  /** K_SCALE_SIZE: 4 in a GGML_QKK_64 build, 12 otherwise. */
  function KScaleSize(qkk64: bool): nat
  {
    if qkk64 then 4 else 12
  }

  // ---------------------------------------------------------------- C struct layout

  type pos = x: nat | x > 0 witness 1

  /** What the compiler knows of a C type: its size and its alignment. */
  datatype CLayout = CLayout(size: nat, align: pos)

  /** A scalar of n bytes aligned to its size (uint8_t, ggml_half, uint32_t, ...). */
  function Prim(n: pos): CLayout
  {
    CLayout(n, n)
  }

  /** T[n]: n elements, aligned as one element. */
  function ArrayOf(e: CLayout, n: nat): CLayout
  {
    CLayout(e.size * n, e.align)
  }

  /** Where a run of members ends when the first one is placed at or after `off`. */
  function MembersEnd(ms: seq<CLayout>, off: nat): nat
    decreases |ms|
  {
    if ms == [] then off else MembersEnd(ms[1..], RoundUp(off, ms[0].align) + ms[0].size)
  }

  function MaxAlign(ms: seq<CLayout>): pos
    decreases |ms|
  {
    if ms == [] then 1
    else
      var rest := MaxAlign(ms[1..]);
      if ms[0].align > rest then ms[0].align else rest
  }

  /** A struct: each member at the next offset its alignment allows, the size padded. */
  function Struct(ms: seq<CLayout>): CLayout
  {
    CLayout(RoundUp(MembersEnd(ms, 0), MaxAlign(ms)), MaxAlign(ms))
  }

  /** A union: the largest member, padded to the strictest alignment. */
  function Union(ms: seq<CLayout>): CLayout
  {
    CLayout(RoundUp(MaxSize(ms), MaxAlign(ms)), MaxAlign(ms))
  }

  function MaxSize(ms: seq<CLayout>): nat
    decreases |ms|
  {
    if ms == [] then 0
    else
      var rest := MaxSize(ms[1..]);
      if ms[0].size > rest then ms[0].size else rest
  }

  function SumSizes(ms: seq<CLayout>): nat
    decreases |ms|
  {
    if ms == [] then 0 else ms[0].size + SumSizes(ms[1..])
  }

  /** Members never overlap: the members end at least their total size past the start. */
  lemma {:induction false} MembersEndAtLeastSum(ms: seq<CLayout>, off: nat)
    ensures MembersEnd(ms, off) >= off + SumSizes(ms)
    decreases |ms|
  {
    if ms != [] {
      MembersEndAtLeastSum(ms[1..], RoundUp(off, ms[0].align) + ms[0].size);
    }
  }

  /** sizeof(struct) is a multiple of its alignment and at least the sum of its members. */
  lemma StructSizeBounds(ms: seq<CLayout>)
    ensures Struct(ms).size % Struct(ms).align == 0
    ensures Struct(ms).size >= SumSizes(ms)
  {
    MembersEndAtLeastSum(ms, 0);
  }

  const U8: CLayout := Prim(1)
  /** ggml_half (uint16_t). */
  const HALF: CLayout := Prim(2)
  /** ggml_half2 (uint32_t). */
  const HALF2: CLayout := Prim(4)

  /** The union of {ggml_half d; ggml_half m} with ggml_half2 dm that several blocks open with. */
  const HALF_PAIR: CLayout := Union([Struct([HALF, HALF]), HALF2])

  const QK4_0: nat := 32
  const QK4_1: nat := 32
  const QK5_0: nat := 32
  const QK5_1: nat := 32
  const QK8_0: nat := 32
  const QK8_1: nat := 32

  const BLOCK_Q4_0: CLayout := Struct([HALF, ArrayOf(U8, QK4_0 / 2)])
  const BLOCK_Q4_1: CLayout := Struct([HALF_PAIR, ArrayOf(U8, QK4_1 / 2)])
  const BLOCK_Q5_0: CLayout := Struct([HALF, ArrayOf(U8, 4), ArrayOf(U8, QK5_0 / 2)])
  const BLOCK_Q5_1: CLayout := Struct([HALF_PAIR, ArrayOf(U8, 4), ArrayOf(U8, QK5_1 / 2)])
  const BLOCK_Q8_0: CLayout := Struct([HALF, ArrayOf(U8, QK8_0)])
  const BLOCK_Q8_1: CLayout := Struct([HALF_PAIR, ArrayOf(U8, QK8_1)])

  function BlockQ2K(qkk64: bool): CLayout
  {
    Struct([ArrayOf(U8, QkK(qkk64) / 16), ArrayOf(U8, QkK(qkk64) / 4), HALF_PAIR])
  }

  /** Every member starts at an offset its alignment already divides. */
  predicate Packed(ms: seq<CLayout>, off: nat)
    decreases |ms|
  {
    ms == [] || (off % ms[0].align == 0 && Packed(ms[1..], off + ms[0].size))
  }

  lemma RoundUpExact(x: nat, y: nat)
    requires y > 0 && x % y == 0
    ensures RoundUp(x, y) == x
  {
    var q := x / y;
    DivUnique(x + y - 1, y, q, y - 1);
  }

  /** A packed run of members has no padding: it ends its total size past the start. */
  lemma {:induction false} PackedHasNoPadding(ms: seq<CLayout>, off: nat)
    requires Packed(ms, off)
    ensures MembersEnd(ms, off) == off + SumSizes(ms)
    decreases |ms|
  {
    if ms != [] {
      RoundUpExact(off, ms[0].align);
      PackedHasNoPadding(ms[1..], off + ms[0].size);
    }
  }

  /** sizeof of a packed struct whose total size its alignment divides is that total. */
  lemma PackedStructSize(ms: seq<CLayout>)
    requires Packed(ms, 0) && SumSizes(ms) % MaxAlign(ms) == 0
    ensures Struct(ms).size == SumSizes(ms)
  {
    PackedHasNoPadding(ms, 0);
    RoundUpExact(SumSizes(ms), MaxAlign(ms));
  }

  lemma ZeroMod(a: pos)
    ensures 0 % a == 0
  {
    DivUnique(0, a, 0, 0);
  }

  function Max(a: pos, b: pos): pos
  {
    if a > b then a else b
  }

  /** The layout of a two-member struct whose second member starts aligned, without padding. */
  lemma PackedStruct2(a: CLayout, b: CLayout)
    requires a.size % b.align == 0 && (a.size + b.size) % Max(a.align, b.align) == 0
    ensures Struct([a, b]) == CLayout(a.size + b.size, Max(a.align, b.align))
  {
    var ms := [a, b];
    assert ms[1..] == [b] && [b][1..] == [];
    assert SumSizes([b]) == b.size && MaxAlign([b]) == b.align;
    assert SumSizes(ms) == a.size + b.size && MaxAlign(ms) == Max(a.align, b.align);
    assert Packed([b], a.size);
    assert Packed(ms, 0) by { ZeroMod(a.align); }
    PackedStructSize(ms);
  }

  /** The same for three members. */
  lemma PackedStruct3(a: CLayout, b: CLayout, c: CLayout)
    requires a.size % b.align == 0 && (a.size + b.size) % c.align == 0
    requires (a.size + b.size + c.size) % Max(a.align, Max(b.align, c.align)) == 0
    ensures Struct([a, b, c]) == CLayout(a.size + b.size + c.size, Max(a.align, Max(b.align, c.align)))
  {
    var ms := [a, b, c];
    assert ms[1..] == [b, c] && [b, c][1..] == [c] && [c][1..] == [];
    assert SumSizes([c]) == c.size && MaxAlign([c]) == c.align;
    assert SumSizes([b, c]) == b.size + c.size && MaxAlign([b, c]) == Max(b.align, c.align);
    assert SumSizes(ms) == a.size + b.size + c.size;
    assert MaxAlign(ms) == Max(a.align, Max(b.align, c.align));
    assert Packed([c], a.size + b.size);
    assert Packed([b, c], a.size);
    assert Packed(ms, 0) by { ZeroMod(a.align); }
    PackedStructSize(ms);
  }

  lemma HalfPairLayout()
    ensures HALF_PAIR == CLayout(4, 4)
  {
    PackedStruct2(HALF, HALF);
    var u := [CLayout(4, 2), HALF2];
    assert u[1..] == [HALF2] && [HALF2][1..] == [];
    assert MaxSize([HALF2]) == 4 && MaxAlign([HALF2]) == 4;
    assert MaxSize(u) == 4 && MaxAlign(u) == 4;
    RoundUpExact(4, 4);
  }

  /**
   * The static_asserts: no block has padding, and the 32-element blocks take 18, 20, 22, 24,
   * 34 and 36 bytes.
   */
  lemma BlockSizes()
    ensures BLOCK_Q4_0.size == HALF.size + QK4_0 / 2 == 18
    ensures BLOCK_Q4_1.size == 2 * HALF.size + QK4_1 / 2 == 20
    ensures BLOCK_Q5_0.size == HALF.size + 4 + QK5_0 / 2 == 22
    ensures BLOCK_Q5_1.size == 2 * HALF.size + 4 + QK5_1 / 2 == 24
    ensures BLOCK_Q8_0.size == HALF.size + QK8_0 == 34
    ensures BLOCK_Q8_1.size == 2 * HALF.size + QK8_1 == 36
  {
    HalfPairLayout();
    PackedStruct2(HALF, ArrayOf(U8, 16));
    PackedStruct2(HALF_PAIR, ArrayOf(U8, 16));
    PackedStruct3(HALF, ArrayOf(U8, 4), ArrayOf(U8, 16));
    PackedStruct3(HALF_PAIR, ArrayOf(U8, 4), ArrayOf(U8, 16));
    PackedStruct2(HALF, ArrayOf(U8, 32));
    PackedStruct2(HALF_PAIR, ArrayOf(U8, 32));
  }

  /** block_q2_K: 2 * sizeof(ggml_half) + QK_K/16 + QK_K/4 bytes, 84 by default and 24 for QK_K 64. */
  lemma BlockQ2KSize(qkk64: bool)
    ensures BlockQ2K(qkk64).size == 2 * HALF.size + QkK(qkk64) / 16 + QkK(qkk64) / 4
    ensures BlockQ2K(qkk64).size == if qkk64 then 24 else 84
  {
    var q := QkK(qkk64);
    assert q / 16 % 4 == 0 && q / 4 % 4 == 0;
    ScalesQuantsHalfPair(q / 16, q / 4);
  }

  /** Byte arrays of a and b elements, a multiple of 4 together, then the d/dmin pair: no padding. */
  lemma ScalesQuantsHalfPair(a: nat, b: nat)
    requires (a + b) % 4 == 0
    ensures Struct([ArrayOf(U8, a), ArrayOf(U8, b), HALF_PAIR]).size == a + b + 4
  {
    HalfPairLayout();
    assert (a + b + 4) % 4 == 0;
    PackedStruct3(ArrayOf(U8, a), ArrayOf(U8, b), HALF_PAIR);
  }

  // ---------------------------------------------------------------- typeTraits

  /** The ggml_type_traits_t fields the loader reads; an omitted field is zero. */
  datatype Traits = Traits(typeName: string, blckSize: nat, typeSize: nat, isQuantized: bool,
                         isSupported: bool)

  /**
   * typeTraits as written for the three defined enumerators; the Q8_0 entry leaves
   * type_size out, so it is zero.
   */
  const TRAITS_AS_WRITTEN: seq<Traits> := [
    Traits("f32", 1, 4, false, true),
    Traits("f16", 1, 2, false, true),
    Traits("q8_0", QK8_0, 0, true, false)]

  /** The same table with Q8_0's type_size set to sizeof(block_q8_0). */
  const TRAITS: seq<Traits> := [
    Traits("f32", 1, 4, false, true),
    Traits("f16", 1, 2, false, true),
    Traits("q8_0", QK8_0, 34, true, false)]

  /** The C++ layout of one block of each tensor type: a float, a half, a block_q8_0. */
  function BlockLayout(t: nat): CLayout
    requires t < GGML_TYPE_COUNT
  {
    if t == GGML_TYPE_F32 then Prim(4) else if t == GGML_TYPE_F16 then HALF else BLOCK_Q8_0
  }

  /**
   * ggml_row_size(type, ne) over a traits table: type_size * ne / blck_size, computed in
   * size_t (ne converted to 64-bit unsigned, the product wrapping).  The source asserts
   * that ne is a whole number of blocks.
   */
  function RowSizeWith(traits: seq<Traits>, t: nat, ne: int): nat
    requires t < |traits| && traits[t].blckSize > 0 && ne % traits[t].blckSize == 0
  {
    var w := Pow2(WORD_BITS);
    (traits[t].typeSize * (ne % w)) % w / traits[t].blckSize
  }

  /** ggml_row_size with the corrected traits table. */
  function RowSize(t: nat, ne: int): nat
    requires t < GGML_TYPE_COUNT && ne % TRAITS[t].blckSize == 0
  {
    RowSizeWith(TRAITS, t, ne)
  }

  /** type_size * ne / blck_size with no wrap-around is the block count times the block size. */
  lemma ExactRowSize(s: nat, b: pos, ne: nat, w: pos)
    requires s > 0 && ne % b == 0 && s * ne < w
    ensures (s * (ne % w)) % w / b == ne / b * s
  {
    if ne > 0 {
      MulAtLeast(ne, s);
    }
    DivUnique(ne, w, 0, ne);
    DivUnique(s * ne, w, 0, s * ne);
    var q := ne / b;
    assert ne == q * b;
    assert s * ne == (q * s) * b;
    MulMod(q * s, b);
  }

  /**
   * With the corrected table every type's row size is its number of blocks times the size
   * of one block, when the byte count fits in size_t.
   */
  lemma RowSizeIsBlocks(t: nat, ne: nat)
    requires t < GGML_TYPE_COUNT && ne % TRAITS[t].blckSize == 0
    requires TRAITS[t].typeSize * ne < Pow2(WORD_BITS)
    ensures TRAITS[t].typeSize == BlockLayout(t).size
    ensures RowSize(t, ne) == ne / TRAITS[t].blckSize * BlockLayout(t).size
  {
    BlockSizes();
    ExactRowSize(TRAITS[t].typeSize, TRAITS[t].blckSize, ne, Pow2(WORD_BITS));
  }

  /** A traits entry with no type_size gives every row a size of zero. */
  lemma ZeroTypeSizeRow(traits: seq<Traits>, t: nat, ne: int)
    requires t < |traits| && traits[t].blckSize > 0 && ne % traits[t].blckSize == 0
    requires traits[t].typeSize == 0
    ensures RowSizeWith(traits, t, ne) == 0
  {
    ZeroScaled(traits[t].typeSize, ne % Pow2(WORD_BITS), Pow2(WORD_BITS), traits[t].blckSize);
  }

  lemma ZeroScaled(s: int, x: int, w: int, b: int)
    requires s == 0 && w > 0 && b > 0
    ensures (s * x) % w / b == 0
  {
    assert s * x == 0;
    DivUnique(0, w, 0, 0);
    DivUnique(0, b, 0, 0);
  }

  /**
   * As written, a row of 32 Q8_0 elements, one 34-byte block, is given a size of zero
   * bytes.
   */
  lemma Q8RowSizeAsWritten()
    ensures RowSizeWith(TRAITS_AS_WRITTEN, GGML_TYPE_Q8_0, 32) == 0
    ensures RowSize(GGML_TYPE_Q8_0, 32) == BLOCK_Q8_0.size == 34
  {
    assert TRAITS_AS_WRITTEN[GGML_TYPE_Q8_0].typeSize == 0;
    ZeroTypeSizeRow(TRAITS_AS_WRITTEN, GGML_TYPE_Q8_0, 32);
    assert 34 * 32 < Pow2(WORD_BITS) by {
      Pow2Mono(11, WORD_BITS);
      assert Pow2(11) == 2048;
    }
    RowSizeIsBlocks(GGML_TYPE_Q8_0, 32);
  }
}
