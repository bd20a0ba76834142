/**
 * GGUFMeta::GKV (src/core/gguf_model/gguf_utils.h): reading a key as a C++ type with a tag
 * check, and the metadata overrides that may replace the stored value.
 */
module GgufMeta {
  import opened Wrappers
  import opened Bytes
  import opened Search
  import opened GgufTypes
  import opened GgufContext

  /**
   * A value as the C++ target holds it: integers, bools and file floats by their bit
   * pattern, strings as C strings, an ArrayInfo, or a floating override value.
   */
  datatype Typed =
    | Bits(v: nat)
    | Text(s: seq<byte>)
    | Info(gt: nat, length: nat, data: Value)
    | Real(x: real)

  /** size_t(x) for an int x: the value modulo 2^64. */
  function SizeT(x: int): nat
  {
    x % 0x1_0000_0000_0000_0000
  }

  /** GKV_Base<T>::getter, once the tag has been checked. */
  function Getter(ctx: Context, k: int, c: CType): (r: Result<Typed, Fault>)
    requires Valid(ctx) && KeyInRange(ctx, k) && ctx.kv[k].tag == GkvTag(c)
    ensures r.Ok?
  {
    TypeSizeIsWidth(c);
    if IsFixedWidth(c) then
      var v := GetVal(ctx, k, GkvTag(c)); Ok(Bits(v.value))
    else if c.ArrayInfo? then
      Ok(Info(GetArrType(ctx, k).value, SizeT(GetArrN(ctx, k).value), GetArrData(ctx, k).value))
    else
      Ok(Text(GetValStr(ctx, k).value))
  }

  /**
   * GKV<T>::get_kv: the id is checked by gguf_get_kv_type, a stored tag other than T's
   * throws, and otherwise T's getter reads the value.
   */
  function GetKv(ctx: Context, k: int, c: CType): (r: Result<Typed, Fault>)
    requires Valid(ctx)
    ensures r.Ok? <==> KeyInRange(ctx, k) && ctx.kv[k].tag == GkvTag(c)
    ensures !KeyInRange(ctx, k) ==> r == Err(AssertFailed)
    ensures KeyInRange(ctx, k) && ctx.kv[k].tag != GkvTag(c) ==> r == Err(WrongType)
    ensures r.Ok? && IsFixedWidth(c) ==> r.value == Bits(ctx.kv[k].value.bits)
    ensures r.Ok? && (c.CharPtr? || c.StdString?) ==> r.value == Text(CStr(ctx.kv[k].value.s.data))
    ensures r.Ok? && c.ArrayInfo? ==>
              r.value == Info(ctx.kv[k].value.elemType, SizeT(CInt(ctx.kv[k].value.n)), ctx.kv[k].value)
  {
    var kt :- GetKvType(ctx, k);
    if kt != GkvTag(c) then Err(WrongType) else Getter(ctx, k, c)
  }

  // ---------------------------------------------------------------- overrides

  /** LLama_model_kv_override_type. */
  datatype OverrideType = OverrideInt | OverrideFloat | OverrideBool

  function OverrideTypeCode(t: OverrideType): nat
  {
    match t
    case OverrideInt => 0
    case OverrideFloat => 1
    case OverrideBool => 2
  }

  /** LLama_model_kv_override: the key, the tag, and the union's three members. */
  datatype Override = Override(key: seq<byte>, tag: OverrideType, intValue: int,
                               floatValue: real, boolValue: bool)

  /** validate_override: a null override or one of another tag is refused. */
  function ValidateOverride(expected: OverrideType, ovrd: Option<Override>): (r: bool)
    ensures r <==> ovrd.Some? && ovrd.value.tag == expected
  {
    match ovrd
    case None => false
    case Some(o) => o.tag == expected
  }

  /** Which try_override overload a target type selects; none exists for const char * and ArrayInfo. */
  datatype OverrideKind = BoolKind | IntKind | FloatKind | StringKind

  function KindOf(c: CType): Option<OverrideKind>
  {
    match c
    case Bool => Some(BoolKind)
    case Float => Some(FloatKind)
    case Double => Some(FloatKind)
    case StdString => Some(StringKind)
    case CharPtr => None
    case ArrayInfo => None
    case _ => Some(IntKind)
  }

  /** 2^width of an integral target type. */
  function Modulus(c: CType): nat
  {
    match c
    case UInt8 => 0x100
    case Int8 => 0x100
    case UInt16 => 0x1_0000
    case Int16 => 0x1_0000
    case UInt32 => 0x1_0000_0000
    case Int32 => 0x1_0000_0000
    case _ => 0x1_0000_0000_0000_0000
  }

  /** The int64 override converted to an integral target: its bit pattern at the target's width. */
  function IntBits(c: CType, v: int): nat
  {
    v % Modulus(c)
  }

  /** The override tag each try_override overload validates against. */
  function ExpectedType(k: OverrideKind): OverrideType
    requires k != StringKind
  {
    match k
    case BoolKind => OverrideBool
    case IntKind => OverrideInt
    case FloatKind => OverrideFloat
  }

  /** The override replaces the target: a bool, integral or floating target and a matching tag. */
  predicate Accepts(c: CType, ovrd: Option<Override>)
  {
    KindOf(c).Some? && KindOf(c).value != StringKind
    && ValidateOverride(ExpectedType(KindOf(c).value), ovrd)
  }

  /** The only way try_override throws: a std::string target and a non-null override. */
  predicate Refuses(c: CType, ovrd: Option<Override>)
  {
    KindOf(c) == Some(StringKind) && ovrd.Some?
  }

  /** What an accepted override assigns: the member of the union its tag selects, converted to T. */
  function OverrideValue(c: CType, o: Override): Typed
    requires KindOf(c).Some? && KindOf(c).value != StringKind
  {
    match KindOf(c).value
    case BoolKind => Bits(if o.boolValue then 1 else 0)
    case IntKind => Bits(IntBits(c, o.intValue))
    case FloatKind => Real(o.floatValue)
  }

  /**
   * try_override<T>(target, ovrd): a bool, integral or floating target takes the override
   * when validate_override accepts it; a string target throws for any non-null override.
   */
  method TryOverride(c: CType, target: Typed, ovrd: Option<Override>)
    returns (r: Result<bool, Fault>, newTarget: Typed)
    requires KindOf(c).Some?
    ensures r == Ok(true) <==> Accepts(c, ovrd)
    ensures r.Err? <==> Refuses(c, ovrd)
    ensures r.Err? ==> r.error == Unsupported
    ensures Accepts(c, ovrd) ==> newTarget == OverrideValue(c, ovrd.value)
    ensures !Accepts(c, ovrd) ==> newTarget == target
  {
    newTarget := target;
    var kind := KindOf(c).value;
    if kind == StringKind {
      if ovrd.None? {
        return Ok(false), newTarget;
      }
      return Err(Unsupported), newTarget;
    }
    if ValidateOverride(ExpectedType(kind), ovrd) {
      newTarget := OverrideValue(c, ovrd.value);
      return Ok(true), newTarget;
    }
    r := Ok(false);
  }

  /**
   * GKV<T>::set(ctx, k, target, ovrd): an accepted override wins; otherwise a negative id
   * leaves the target alone and returns false, and any other id assigns get_kv.  A thrown
   * exception leaves the target as it was.
   */
  method Set(ctx: Context, k: int, c: CType, target: Typed, ovrd: Option<Override>)
    returns (r: Result<bool, Fault>, newTarget: Typed)
    requires Valid(ctx) && KindOf(c).Some?
    ensures Accepts(c, ovrd) ==> r == Ok(true) && newTarget == OverrideValue(c, ovrd.value)
    ensures Refuses(c, ovrd) ==> r == Err(Unsupported) && newTarget == target
    ensures !Accepts(c, ovrd) && !Refuses(c, ovrd) ==>
              (k < 0 ==> r == Ok(false) && newTarget == target)
              && (k >= 0 && GetKv(ctx, k, c).Ok? ==> r == Ok(true) && newTarget == GetKv(ctx, k, c).value)
              && (k >= 0 && GetKv(ctx, k, c).Err? ==> r == Err(GetKv(ctx, k, c).error) && newTarget == target)
  {
    var tried, overridden := TryOverride(c, target, ovrd);
    if tried.Err? {
      return tried, target;
    }
    if tried.value {
      return Ok(true), overridden;
    }
    if k < 0 {
      return Ok(false), target;
    }
    var v := GetKv(ctx, k, c);
    if v.Err? {
      return Err(v.error), target;
    }
    r, newTarget := Ok(true), v.value;
  }

  /** GKV<T>::set(ctx, key, target, ovrd): set at gguf_find_key(ctx, key). */
  method SetByKey(ctx: Context, key: seq<byte>, c: CType, target: Typed, ovrd: Option<Override>)
    returns (r: Result<bool, Fault>, newTarget: Typed)
    requires Valid(ctx) && KindOf(c).Some? && ctx.nKv < 0x8000_0000
    ensures Accepts(c, ovrd) ==> r == Ok(true) && newTarget == OverrideValue(c, ovrd.value)
    ensures ovrd.None? && CStr(key) !in Keys(ctx) ==> r == Ok(false) && newTarget == target
    ensures ovrd.None? && CStr(key) in Keys(ctx) ==>
              var k := FirstIndex(Keys(ctx), CStr(key));
              (ctx.kv[k].tag == GkvTag(c) ==> r == Ok(true) && newTarget == GetKv(ctx, k, c).value)
              && (ctx.kv[k].tag != GkvTag(c) ==> r == Err(WrongType) && newTarget == target)
  {
    var k := FindKey(ctx, key);
    r, newTarget := Set(ctx, k, c, target, ovrd);
  }
}
