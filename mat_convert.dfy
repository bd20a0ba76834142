/**
 * Element type conversion of a Mat (src/core/mat_convert.cpp): the table of converters
 * getConvertFunc indexes by source and destination type, the convert loop each converter
 * runs, and Mat::convertTo with the copyTo it falls back on for equal types.
 *
 * Elements are integers.  A floating-point element is taken at an integral value within
 * the range of int (the value std::round gives before saturate_cast narrows it); converting
 * an integer to a floating-point type keeps its value.
 */
module MatConvert {
  import opened Wrappers
  import opened Define
  import opened Shape
  import opened Saturate
  import opened CoreMat
  import opened Bytes
  import opened MemoryUtils

  // ---------------------------------------------------------------- the element types

  /** The element types the converter table covers, in the order of its rows. */
  datatype Elem = U8 | S8 | U16 | S16 | F32 | S32 | U32 | F16

  /** The DT_ code define.h gives each element type. */
  function TypeOf(e: Elem): nat
  {
    match e
    case U8 => DT_8U
    case S8 => DT_8S
    case U16 => DT_16U
    case S16 => DT_16S
    case S32 => DT_32S
    case F32 => DT_32F
    case F16 => DT_16F
    case U32 => DT_32U
  }

  /** The element type of a DT_ code, when the table covers it. */
  function KindOf(t: nat): (r: Option<Elem>)
  {
    if t == DT_8U then Some(U8)
    else if t == DT_8S then Some(S8)
    else if t == DT_16U then Some(U16)
    else if t == DT_16S then Some(S16)
    else if t == DT_32S then Some(S32)
    else if t == DT_32F then Some(F32)
    else if t == DT_16F then Some(F16)
    else if t == DT_32U then Some(U32)
    else None
  }

  /** KindOf and TypeOf are inverse: each covered code names one element type and back. */
  lemma KindOfTypeOf(e: Elem, t: nat)
    ensures KindOf(TypeOf(e)) == Some(e)
    ensures KindOf(t) == Some(e) ==> TypeOf(e) == t
  {
  }

  predicate IsFloat(e: Elem)
  {
    e == F32 || e == F16
  }

  /** The C++ type whose values an element of type e takes (int for the floating-point types). */
  function ValueType(e: Elem): IntType
  {
    match e
    case U8 => UChar
    case S8 => SChar
    case U16 => UShort
    case S16 => Short
    case S32 => Int
    case U32 => UInt
    case F32 => Int
    case F16 => Int
  }

  // ---------------------------------------------------------------- the converters

  /**
   * An entry of funcTab: a memcpy of elements of the given width (convert_8u, convert_16u,
   * convert_32u), the convert loop from one element type to another, or a null pointer.
   */
  datatype Converter = Copy(width: nat) | Convert(src: Elem, dst: Elem) | Null

  /** Row s of funcTab as written. */
  function TableRow(s: nat): seq<Converter>
  {
    if s == 0 then [Copy(1), Convert(U8, S8), Convert(U8, U16), Convert(U8, S16), Convert(U8, F32), Convert(U8, S32), Convert(U8, U32)]
    else if s == 1 then [Convert(S8, U8), Copy(1), Convert(S8, U16), Convert(S8, S16), Convert(S8, F32), Convert(S8, S32), Convert(S8, U32)]
    else if s == 2 then [Convert(U16, S8), Convert(U16, U8), Copy(2), Convert(U16, S16), Convert(U16, F32), Convert(U16, S32), Convert(U16, U32)]
    else if s == 3 then [Convert(S16, U8), Convert(S16, S8), Convert(S16, U16), Copy(2), Convert(S16, F32), Convert(S16, S32), Convert(S16, U32)]
    else if s == 4 then [Convert(F32, U8), Convert(F32, S8), Convert(F32, U16), Convert(F32, S16), Copy(4), Convert(F32, S32), Convert(F32, U32), Convert(F32, F16)]
    else if s == 5 then [Convert(S32, U8), Convert(S32, S8), Convert(S32, U16), Convert(S32, S16), Convert(S32, F32), Copy(4), Convert(S32, U32)]
    else if s == 6 then [Convert(U32, U8), Convert(U32, S8), Convert(U32, U16), Convert(U32, S16), Convert(U32, F32), Convert(U32, S32), Copy(4)]
    else if s == 7 then [Convert(F16, S8), Convert(F16, U8), Convert(F16, U16), Convert(F16, S16), Convert(F16, F32), Convert(F16, S32), Convert(F16, U32)]
    else []
  }

  /**
   * getConvertFunc(stype, dtype) as written: funcTab[stype][dtype], with the entries the
   * initialiser leaves out null.  The rows are laid out with 32f fourth and 32s fifth, and
   * 32u sixth.
   */
  function TableAsWritten(stype: nat, dtype: nat): Converter
  {
    var row := TableRow(stype);
    if dtype < |row| then row[dtype] else Null
  }

  /** The converter pairs the table provides: two different types, and 16f only from 32f. */
  predicate Provided(s: Elem, d: Elem)
  {
    s != d && (d == F16 ==> s == F32)
  }

  /**
   * getConvertFunc indexed by define.h's codes: a memcpy for equal types, the converter from
   * the source's element type to the destination's for a provided pair, and null otherwise.
   */
  function ConvertFunc(stype: nat, dtype: nat): (c: Converter)
    ensures c.Convert? ==> KindOf(stype) == Some(c.src) && KindOf(dtype) == Some(c.dst)
  {
    if KindOf(stype).None? || KindOf(dtype).None? then Null
    else if stype == dtype then Copy(ElemSize(stype))
    else if Provided(KindOf(stype).value, KindOf(dtype).value) then Convert(KindOf(stype).value, KindOf(dtype).value)
    else Null
  }

  /**
   * Every covered pair of codes gets its converter: the one from the source's element type
   * to the destination's when the table provides it, a memcpy of the element width when the
   * types are equal, and null only for the pairs the table leaves out.
   */
  lemma ConvertFuncCovers(s: Elem, d: Elem)
    ensures Provided(s, d) <==> ConvertFunc(TypeOf(s), TypeOf(d)) == Convert(s, d)
    ensures s == d ==> ConvertFunc(TypeOf(s), TypeOf(d)) == Copy(ElemSize(TypeOf(s)))
    ensures ConvertFunc(TypeOf(s), TypeOf(d)) == Null <==> s != d && !Provided(s, d)
  {
    KindOfTypeOf(s, TypeOf(s));
    KindOfTypeOf(d, TypeOf(d));
  }

  /** Each copy entry moves DT_ELEM_SIZE of its type per element: 1, 2 or 4 bytes. */
  lemma CopyWidths()
    ensures ConvertFunc(DT_8U, DT_8U) == Copy(1) && ConvertFunc(DT_8S, DT_8S) == Copy(1)
    ensures ConvertFunc(DT_16U, DT_16U) == Copy(2) && ConvertFunc(DT_16S, DT_16S) == Copy(2)
    ensures ConvertFunc(DT_32S, DT_32S) == Copy(4) && ConvertFunc(DT_32F, DT_32F) == Copy(4)
    ensures ConvertFunc(DT_32U, DT_32U) == Copy(4) && ConvertFunc(DT_16F, DT_16F) == Copy(2)
  {
    ElemSizes();
  }

  /**
   * What the written table gets wrong: with DT_32S = 4 and DT_32F = 5, an 8u to 32s
   * conversion writes floats and a 32s source is read as floats; the 16u and 16f rows swap
   * their 8u and 8s entries; and DT_32U = 12 is past the rows written, so its row is null.
   */
  lemma TableAsWrittenMisplaces()
    ensures TableAsWritten(DT_8U, DT_32S) == Convert(U8, F32) && ConvertFunc(DT_8U, DT_32S) == Convert(U8, S32)
    ensures TableAsWritten(DT_32S, DT_8U) == Convert(F32, U8) && ConvertFunc(DT_32S, DT_8U) == Convert(S32, U8)
    ensures TableAsWritten(DT_16U, DT_8U) == Convert(U16, S8) && ConvertFunc(DT_16U, DT_8U) == Convert(U16, U8)
    ensures TableAsWritten(DT_16F, DT_8U) == Convert(F16, S8) && ConvertFunc(DT_16F, DT_8U) == Convert(F16, U8)
    ensures TableAsWritten(DT_32U, DT_8U) == Null && ConvertFunc(DT_32U, DT_8U) == Convert(U32, U8)
  {
  }

  /**
   * Among the 8- and 16-bit integer types the written table is right, except for the swapped
   * 8u and 8s entries of the 16u row.
   */
  lemma TableAsWrittenSmallTypes(s: nat, d: nat)
    requires s < 4 && d < 4
    ensures TableAsWritten(s, d) == ConvertFunc(s, d) <==> !(s == DT_16U && d < 2)
  {
    ElemSizes();
  }

  /** DT_ELEM_SIZE of the types the table covers. */
  lemma ElemSizes()
    ensures ElemSize(DT_8U) == 1 && ElemSize(DT_8S) == 1 && ElemSize(DT_16U) == 2 && ElemSize(DT_16S) == 2
    ensures ElemSize(DT_32S) == 4 && ElemSize(DT_32F) == 4 && ElemSize(DT_16F) == 2 && ElemSize(DT_32U) == 4
  {
    ElemSizeTable(DT_8U);
    ElemSizeTable(DT_8S);
    ElemSizeTable(DT_16U);
    ElemSizeTable(DT_16S);
    ElemSizeTable(DT_32S);
    ElemSizeTable(DT_32F);
    ElemSizeTable(DT_16F);
    ElemSizeTable(DT_32U);
  }

  // ---------------------------------------------------------------- one element

  /**
   * The values a converter is defined on: any for a memcpy; for the convert loop, a value of
   * the source type, which C++'s subtraction in saturate_cast does not overflow, and not
   * negative when a floating-point value goes to 32u (static_cast<unsigned> of a negative
   * value is undefined).
   */
  predicate Accepts(c: Converter, v: int)
  {
    match c
    case Copy(_) => true
    case Null => false
    case Convert(s, d) =>
      && InRange(ValueType(s), v)
      && (IsFloat(d) || SubtractionFits(ValueType(d), ValueType(s), v))
      && (IsFloat(s) && d == U32 ==> v >= 0)
  }

  /**
   * dst[i] = saturate_cast<Td>(src[i]) for one element, and the value itself for a memcpy or a
   * conversion to a floating-point type.
   */
  function Apply(c: Converter, v: int): int
    requires Accepts(c, v)
  {
    match c
    case Copy(_) => v
    case Convert(s, d) => if IsFloat(d) then v else SaturateCast(ValueType(d), ValueType(s), v)
  }

  /**
   * A conversion to an integer type gives a value of that type: the value itself when the type
   * holds it, else the bound on its side.
   */
  lemma ApplyClamps(s: Elem, d: Elem, v: int)
    requires !IsFloat(d) && Accepts(Convert(s, d), v)
    ensures InRange(ValueType(d), Apply(Convert(s, d), v))
    ensures InRange(ValueType(d), v) ==> Apply(Convert(s, d), v) == v
    ensures v < Min(ValueType(d)) ==> Apply(Convert(s, d), v) == Min(ValueType(d))
    ensures v > Max(ValueType(d)) ==> Apply(Convert(s, d), v) == Max(ValueType(d))
  {
    SaturateCastInRange(ValueType(d), ValueType(s), v);
  }

  /** A type whose values all fit in another's. */
  predicate Within(s: Elem, d: Elem)
  {
    Min(ValueType(d)) <= Min(ValueType(s)) && Max(ValueType(s)) <= Max(ValueType(d))
  }

  /** Converting to a type that holds every source value and back gives the value back. */
  lemma ApplyWidenRoundTrip(s: Elem, d: Elem, v: int)
    requires Within(s, d) && InRange(ValueType(s), v)
    ensures Accepts(Convert(s, d), v)
    ensures Accepts(Convert(d, s), Apply(Convert(s, d), v))
    ensures Apply(Convert(d, s), Apply(Convert(s, d), v)) == v
  {
    if !IsFloat(d) {
      ApplyClamps(s, d, v);
    }
    if !IsFloat(s) {
      ApplyClamps(d, s, v);
    }
  }

  // ---------------------------------------------------------------- a buffer

  /** Every element of s is one the converter is defined on. */
  predicate AcceptsAll(c: Converter, s: seq<int>)
  {
    forall i :: 0 <= i < |s| ==> Accepts(c, s[i])
  }

  /** The buffer a converter writes for the elements s. */
  function Converted(c: Converter, s: seq<int>): (r: seq<int>)
    requires AcceptsAll(c, s)
    ensures |r| == |s|
  {
    seq(|s|, i requires 0 <= i < |s| => Apply(c, s[i]))
  }

  /** A conversion to an integer type leaves every element in that type's range. */
  lemma ConvertedInRange(s: Elem, d: Elem, xs: seq<int>)
    requires !IsFloat(d) && AcceptsAll(Convert(s, d), xs)
    ensures forall i :: 0 <= i < |xs| ==> InRange(ValueType(d), Converted(Convert(s, d), xs)[i])
    ensures (forall i :: 0 <= i < |xs| ==> InRange(ValueType(d), xs[i])) ==> Converted(Convert(s, d), xs) == xs
  {
    forall i | 0 <= i < |xs|
      ensures InRange(ValueType(d), Converted(Convert(s, d), xs)[i])
      ensures InRange(ValueType(d), xs[i]) ==> Converted(Convert(s, d), xs)[i] == xs[i]
    {
      ApplyClamps(s, d, xs[i]);
    }
  }

  /** Every element of xs is a value of type e. */
  predicate AllIn(e: Elem, xs: seq<int>)
  {
    forall i :: 0 <= i < |xs| ==> InRange(ValueType(e), xs[i])
  }

  /** Widening a buffer and converting it back gives the buffer back. */
  lemma ConvertedWidenRoundTrip(s: Elem, d: Elem, xs: seq<int>)
    requires Within(s, d) && AllIn(s, xs)
    ensures AcceptsAll(Convert(s, d), xs)
    ensures AcceptsAll(Convert(d, s), Converted(Convert(s, d), xs))
    ensures Converted(Convert(d, s), Converted(Convert(s, d), xs)) == xs
  {
    forall i | 0 <= i < |xs|
      ensures Accepts(Convert(s, d), xs[i])
    {
      ApplyWidenRoundTrip(s, d, xs[i]);
    }
    var ys := Converted(Convert(s, d), xs);
    forall i | 0 <= i < |xs|
      ensures Accepts(Convert(d, s), ys[i]) && Apply(Convert(d, s), ys[i]) == xs[i]
    {
      ApplyWidenRoundTrip(s, d, xs[i]);
    }
  }

  /**
   * A converter run over a buffer (convert, or the memcpy of convert_8u and its siblings):
   * dst[i] receives the converted src[i] for each i below length, and nothing else changes.
   * src and dst may be the same buffer.
   */
  method RunConverter(c: Converter, src: array<int>, dst: array<int>, length: nat)
    requires length <= src.Length && length <= dst.Length && AcceptsAll(c, src[..length])
    modifies dst
    ensures dst[..length] == Converted(c, old(src[..length]))
    ensures dst[length..] == old(dst[length..])
  {
    ghost var before := src[..length];
    var i := 0;
    while i < length
      invariant 0 <= i <= length
      invariant forall j :: i <= j < length ==> src[j] == before[j]
      invariant forall j :: 0 <= j < i ==> dst[j] == Apply(c, before[j])
      invariant forall j :: length <= j < dst.Length ==> dst[j] == old(dst[j])
    {
      dst[i] := Apply(c, src[i]);
      i := i + 1;
    }
  }

  // ---------------------------------------------------------------- Mat::copyTo, Mat::convertTo

  /** A Mat whose elements the model follows: with data it holds a record of total() cells. */
  predicate Held(m: Mat)
    reads m, m.u
  {
    m.Valid() && (forall d :: 0 <= d < |m.sizes| ==> m.sizes[d] >= 0)
    && (m.data != 0 ==> m.u != null && m.u.cells.Length == Product(m.sizes))
  }

  /** The cells of m's record, the only array convertTo writes. */
  function CellsOf(m: Mat): set<object>
    reads m
  {
    if m.u == null then {} else {m.u.cells}
  }

  /**
   * copyTo(dst) for the types the source supports (equal ones): an empty Mat releases dst;
   * otherwise dst is created with the same extents and type and receives a copy of the
   * elements.  For a dst of another type the source only reports the error and leaves dst as
   * it was.
   */
  method CopyTo(src: Mat, dst: Mat, raw: nat)
    requires src != dst && Held(src) && Held(dst)
    requires raw == 0 || (0 < raw && raw + POINTER_SIZE + MAT_MALLOC_ALIGN <= Pow2(WORD_BITS))
    modifies dst, dst.u, CellsOf(dst)
    ensures old(dst.matType) != src.matType ==> unchanged(dst)
    ensures old(dst.matType) == src.matType && src.IsEmpty() ==>
              dst.u == null && dst.data == 0 && dst.dims == old(dst.dims) && dst.sizes == Zeros(old(dst.dims))
    ensures old(dst.matType) == src.matType && !src.IsEmpty() ==>
              && dst.Valid() && dst.dims == src.dims && dst.sizes == src.sizes && dst.matType == src.matType
              && dst.u != null && dst.u.cells[..] == old(src.u.cells[..])
  {
    if dst.matType != src.matType {
      return;
    }
    if src.IsEmpty() {
      dst.Release();
      return;
    }
    ghost var before := src.u.cells[..];
    CreateLike(src, dst, src.matType, raw);
    var total := src.Total();
    RunConverter(Copy(ElemSize(src.matType)), src.u.cells, dst.u.cells, total);
    assert dst.u.cells[..] == dst.u.cells[..total];
  }

  /**
   * dst.create(dims, size.p, type) for a non-empty, followed source: dst gets src's extents
   * and the type, and a record of total() cells, while src's cells stay as they were.
   */
  method CreateLike(src: Mat, dst: Mat, t: nat, raw: nat)
    requires src != dst && Held(src) && Held(dst) && !src.IsEmpty() && t < 16
    requires raw == 0 || (0 < raw && raw + POINTER_SIZE + MAT_MALLOC_ALIGN <= Pow2(WORD_BITS))
    modifies dst, dst.u
    ensures dst.Valid() && dst.dims == src.dims && dst.sizes == src.sizes && dst.matType == t
    ensures dst.u != null && dst.u.cells.Length == Product(src.sizes)
    ensures src.u.cells[..] == old(src.u.cells[..])
    ensures dst.u == old(dst.u) || fresh(dst.u.cells)
  {
    ProductZeroIff(src.sizes);
    assert AllPositive(src.sizes);
    assert src.sizes[..|src.sizes|] == src.sizes;
    dst.Create(src.sizes, t, raw);
    SetSizeProduct(src.sizes, |src.sizes|);
  }

  /**
   * convertTo(m, type): an empty Mat releases m; equal types fall back on copyTo; otherwise m
   * is created with the same extents in the new type and the table's converter for the two
   * types writes total() elements into it.
   */
  method ConvertTo(src: Mat, m: Mat, dtype: nat, raw: nat)
    requires src != m && Held(src) && Held(m) && dtype < 16
    requires raw == 0 || (0 < raw && raw + POINTER_SIZE + MAT_MALLOC_ALIGN <= Pow2(WORD_BITS))
    requires !src.IsEmpty() && src.matType != dtype ==>
               ConvertFunc(src.matType, dtype) != Null && AcceptsAll(ConvertFunc(src.matType, dtype), src.u.cells[..])
    modifies m, m.u, CellsOf(m)
    ensures unchanged(src)
    ensures src.IsEmpty() ==> m.u == null && m.data == 0 && m.dims == old(m.dims) && m.sizes == Zeros(old(m.dims))
    ensures !src.IsEmpty() && src.matType == dtype && old(m.matType) != dtype ==> unchanged(m)
    ensures !src.IsEmpty() && (src.matType != dtype || old(m.matType) == dtype) ==>
              m.Valid() && m.dims == src.dims && m.sizes == src.sizes && m.matType == dtype && m.u != null
    ensures !src.IsEmpty() && src.matType == dtype && old(m.matType) == dtype ==>
              m.u != null && m.u.cells[..] == old(src.u.cells[..])
    ensures !src.IsEmpty() && src.matType != dtype ==>
              m.u != null && m.u.cells[..] == Converted(ConvertFunc(src.matType, dtype), old(src.u.cells[..]))
  {
    if src.IsEmpty() {
      m.Release();
      return;
    }
    if src.matType == dtype {
      CopyTo(src, m, raw);
      return;
    }
    var conv := ConvertFunc(src.matType, dtype);
    CreateLike(src, m, dtype, raw);
    var total := m.Total();
    RunConverter(conv, src.u.cells, m.u.cells, total);
    assert m.u.cells[..] == m.u.cells[..total];
  }
}
