/**
 * The GGUF value tags of the C++ loader and the C++ types each tag stands for
 * (src/core/gguf_model/gguf_loader.h, src/core/gguf_model/gguf_utils.h).
 */
module GgufTypes {
  import opened Wrappers

  // ---------------------------------------------------------------- enum GGUF_TYPE

  const GGUF_TYPE_UINT8: nat := 0
  const GGUF_TYPE_INT8: nat := 1
  const GGUF_TYPE_UINT16: nat := 2
  const GGUF_TYPE_INT16: nat := 3
  const GGUF_TYPE_UINT32: nat := 4
  const GGUF_TYPE_INT32: nat := 5
  const GGUF_TYPE_FLOAT32: nat := 6
  const GGUF_TYPE_BOOL: nat := 7
  const GGUF_TYPE_STRING: nat := 8
  const GGUF_TYPE_ARRAY: nat := 9
  const GGUF_TYPE_UINT64: nat := 10
  const GGUF_TYPE_INT64: nat := 11
  const GGUF_TYPE_FLOAT64: nat := 12
  const GGUF_TYPE_COUNT: nat := 13

  /** sizeof(struct GGUF_str): a uint64_t length and a data pointer on a 64-bit target. */
  const GGUF_STR_SIZE: nat := 16

  /** A tag whose value is one fixed-width scalar: every tag but STRING and ARRAY. */
  predicate IsScalarTag(t: nat)
  {
    t < GGUF_TYPE_COUNT && t != GGUF_TYPE_STRING && t != GGUF_TYPE_ARRAY
  }

  /** GGUF_TYPE_SIZE[type]: the byte size stored for each tag. */
  function TypeSize(t: nat): nat
    requires t < GGUF_TYPE_COUNT
  {
    [1, 1, 2, 2, 4, 4, 4, 1, GGUF_STR_SIZE, 0, 8, 8, 8][t]
  }

  /** GGUF_TYPE_NAME[type]. */
  function TypeName(t: nat): string
    requires t < GGUF_TYPE_COUNT
  {
    ["u8", "i8", "u16", "i16", "u32", "i32", "f32", "bool", "str", "arr", "u64", "i64", "f64"][t]
  }

  /** GGUF_TYPE_name(type) of gguf_utils.cpp: the name, or null past the table. */
  function TypeNameOrNull(t: nat): (r: Option<string>)
    ensures r.Some? <==> t < GGUF_TYPE_COUNT
    ensures r.Some? ==> r.value == TypeName(t)
  {
    if t < GGUF_TYPE_COUNT then Some(TypeName(t)) else None
  }

  /** The thirteen type names are pairwise distinct. */
  lemma TypeNamesDistinct(s: nat, t: nat)
    requires s < GGUF_TYPE_COUNT && t < GGUF_TYPE_COUNT && s != t
    ensures TypeName(s) != TypeName(t)
  {
    var names := ["u8", "i8", "u16", "i16", "u32", "i32", "f32", "bool", "str", "arr", "u64", "i64", "f64"];
    assert TypeName(s) == names[s] && TypeName(t) == names[t];
    if |names[s]| == |names[t]| {
      assert names[s][0] != names[t][0] || names[s][1] != names[t][1]
          || (|names[s]| == 3 && names[s][2] != names[t][2]);
    }
  }

  // ---------------------------------------------------------------- GGUFMeta::GKV_Base

  /** The C++ types the template GKV_Base is specialised for. */
  datatype CType =
    | Bool | UInt8 | UInt16 | UInt32 | UInt64 | Int8 | Int16 | Int32 | Int64
    | Float | Double | CharPtr | StdString | ArrayInfo

  /** GKV_Base<T>::gt: the tag a stored value must carry to be read as a T. */
  function GkvTag(c: CType): nat
  {
    match c
    case Bool => GGUF_TYPE_BOOL
    case UInt8 => GGUF_TYPE_UINT8
    case UInt16 => GGUF_TYPE_UINT16
    case UInt32 => GGUF_TYPE_UINT32
    case UInt64 => GGUF_TYPE_UINT64
    case Int8 => GGUF_TYPE_INT8
    case Int16 => GGUF_TYPE_INT16
    case Int32 => GGUF_TYPE_INT32
    case Int64 => GGUF_TYPE_INT64
    case Float => GGUF_TYPE_FLOAT32
    case Double => GGUF_TYPE_FLOAT64
    case CharPtr => GGUF_TYPE_STRING
    case StdString => GGUF_TYPE_STRING
    case ArrayInfo => GGUF_TYPE_ARRAY
  }

  /** The width in bits of a fixed-width C++ scalar type (bool occupies one byte). */
  function BitWidth(c: CType): nat
  {
    match c
    case Bool => 8
    case UInt8 => 8
    case Int8 => 8
    case UInt16 => 16
    case Int16 => 16
    case UInt32 => 32
    case Int32 => 32
    case Float => 32
    case UInt64 => 64
    case Int64 => 64
    case Double => 64
    case _ => 0
  }

  predicate IsFixedWidth(c: CType)
  {
    !(c.CharPtr? || c.StdString? || c.ArrayInfo?)
  }

  /**
   * The size table agrees with the C++ type behind each tag: a fixed-width type has the
   * byte size of its own width, the string tag the size of GGUF_str and ARRAY none.
   */
  lemma TypeSizeIsWidth(c: CType)
    ensures GkvTag(c) < GGUF_TYPE_COUNT
    ensures IsFixedWidth(c) <==> IsScalarTag(GkvTag(c))
    ensures IsFixedWidth(c) ==> TypeSize(GkvTag(c)) * 8 == BitWidth(c)
    ensures c.CharPtr? || c.StdString? ==> TypeSize(GkvTag(c)) == GGUF_STR_SIZE
    ensures c.ArrayInfo? ==> TypeSize(GkvTag(c)) == 0
  {
  }

  /** Every tag has a C++ type that reads it. */
  lemma GkvTagOnto(t: nat)
    requires t < GGUF_TYPE_COUNT
    ensures exists c :: GkvTag(c) == t
  {
    var all := [UInt8, Int8, UInt16, Int16, UInt32, Int32, Float, Bool, CharPtr, ArrayInfo,
                UInt64, Int64, Double];
    assert GkvTag(all[t]) == t;
  }

  /** Two C++ types share a tag only when both are string types. */
  lemma GkvTagInjective(a: CType, b: CType)
    requires GkvTag(a) == GkvTag(b)
    ensures a == b || ((a.CharPtr? || a.StdString?) && (b.CharPtr? || b.StdString?))
  {
  }
}
