/**
 * The decoded GGUF context of the C++ loader and its accessors: the type-checked getters and
 * the first-match key and tensor searches of src/core/gguf_model/gguf_utils.cpp (the copies
 * in gguf_loader.cpp behave the same).
 */
module GgufContext {
  import opened Wrappers
  import opened Bytes
  import opened Search
  import opened GgufTypes

  // ---------------------------------------------------------------- C strings and C ints

  /** The index of the first NUL at or after i, or |s| if there is none. */
  function NulFrom(s: seq<byte>, i: nat): (r: nat)
    requires i <= |s|
    ensures i <= r <= |s| && (r < |s| ==> s[r] == 0)
    ensures forall j :: i <= j < r ==> s[j] != 0
    decreases |s| - i
  {
    if i == |s| || s[i] == 0 then i else NulFrom(s, i + 1)
  }

  /** The C string held in a buffer: its bytes up to the first NUL (all of them if none). */
  function CStr(s: seq<byte>): (r: seq<byte>)
    ensures r <= s && 0 !in r
    ensures |r| < |s| ==> s[|r|] == 0
  {
    s[..NulFrom(s, 0)]
  }

  /** A buffer whose only NUL is its last byte holds exactly its other bytes as a C string. */
  lemma CStrOfTerminated(s: seq<byte>)
    requires 0 !in s
    ensures CStr(s + [0]) == s
  {
    var k := NulFrom(s + [0], 0);
    assert (s + [0])[|s|] == 0;
    assert (s + [0])[..|s|] == s;
  }

  /** A 64-bit count converted to `int` (32 bits, two's complement), as the getters return it. */
  function CInt(n: nat): (r: int)
    ensures -0x8000_0000 <= r < 0x8000_0000
    ensures n < 0x8000_0000 ==> r == n
  {
    var m := n % 0x1_0000_0000;
    if m < 0x8000_0000 then m else m - 0x1_0000_0000
  }

  // ---------------------------------------------------------------- the context

  /** struct GGUF_str: a length and a calloc'ed buffer of n + 1 bytes. */
  datatype GStr = GStr(n: nat, data: seq<byte>)

  /** What a key holds, after the union GGUF_value. */
  datatype Value =
    | Scalar(bits: nat)
    | Str(s: GStr)
    /** arr: element tag, count, the raw element bytes or, for STRING elements, the strings. */
    | Arr(elemType: nat, n: nat, raw: seq<byte>, strs: seq<GStr>)

  /** struct GGUF_kv. */
  datatype Kv = Kv(key: GStr, tag: nat, value: Value)

  /** struct GGUF_tensor_info: name, n_dims, the four extents, the GGML type and the offset. */
  datatype TensorInfo = TensorInfo(name: GStr, nDims: nat, ne: seq<nat>, ggmlType: nat, offset: nat)

  /** struct GGUF_context, with the kv and info arrays as sequences. */
  datatype Context = Context(version: nat, nTensors: nat, nKv: nat, kv: seq<Kv>,
                             infos: seq<TensorInfo>, alignment: nat, offset: nat)

  /** A string as gguf_fread_str leaves it: n bytes followed by the terminating zero. */
  predicate ValidStr(s: GStr)
  {
    |s.data| == s.n + 1 && s.data[s.n] == 0
  }

  /** The union member in use is the one the tag names. */
  predicate TagMatches(tag: nat, v: Value)
  {
    if tag == GGUF_TYPE_STRING then v.Str?
    else if tag == GGUF_TYPE_ARRAY then v.Arr?
    else v.Scalar? && IsScalarTag(tag)
  }

  predicate ValidValue(v: Value)
  {
    match v
    case Scalar(_) => true
    case Str(s) => ValidStr(s)
    case Arr(t, n, raw, strs) =>
      if t == GGUF_TYPE_STRING then |strs| == n && forall i :: 0 <= i < n ==> ValidStr(strs[i])
      else t < GGUF_TYPE_COUNT && t != GGUF_TYPE_ARRAY && |raw| == n * TypeSize(t)
  }

  /** The header counts agree with the arrays, and every string is terminated. */
  predicate Valid(ctx: Context)
  {
    && |ctx.kv| == ctx.nKv && |ctx.infos| == ctx.nTensors
    && (forall i :: 0 <= i < |ctx.kv| ==> (ValidStr(ctx.kv[i].key) && TagMatches(ctx.kv[i].tag, ctx.kv[i].value)
                                         && ValidValue(ctx.kv[i].value)))
    && (forall i :: 0 <= i < |ctx.infos| ==> ValidStr(ctx.infos[i].name))
  }

  /** The keys as strcmp sees them. */
  function Keys(ctx: Context): (r: seq<seq<byte>>)
    ensures |r| == |ctx.kv|
  {
    seq(|ctx.kv|, i requires 0 <= i < |ctx.kv| => CStr(ctx.kv[i].key.data))
  }

  /** The tensor names as strcmp sees them. */
  function TensorNames(ctx: Context): (r: seq<seq<byte>>)
    ensures |r| == |ctx.infos|
  {
    seq(|ctx.infos|, i requires 0 <= i < |ctx.infos| => CStr(ctx.infos[i].name.data))
  }

  // ---------------------------------------------------------------- getters

  /** How an accessor call ends when it does not return: an M_Assert, a GKV type-mismatch
   *  throw, a throw for an unsupported override, or a read the C++ leaves undefined. */
  datatype Fault = AssertFailed | WrongType | Unsupported | Undefined

  /** gguf_get_n_kv, converted to int. */
  function NKv(ctx: Context): int
  {
    CInt(ctx.nKv)
  }

  /** gguf_get_n_tensors, converted to int. */
  function NTensors(ctx: Context): int
  {
    CInt(ctx.nTensors)
  }

  /** The M_Assert every getter starts with. */
  predicate KeyInRange(ctx: Context, id: int)
  {
    0 <= id < NKv(ctx)
  }

  /** gguf_get_key: the key's C string, for an id in range. */
  function GetKey(ctx: Context, id: int): (r: Result<seq<byte>, Fault>)
    requires Valid(ctx)
    ensures r.Ok? <==> KeyInRange(ctx, id)
    ensures r.Ok? ==> r.value == Keys(ctx)[id] && id < |ctx.kv|
  {
    if KeyInRange(ctx, id) then Ok(CStr(ctx.kv[id].key.data)) else Err(AssertFailed)
  }

  /** gguf_get_kv_type. */
  function GetKvType(ctx: Context, id: int): (r: Result<nat, Fault>)
    requires Valid(ctx)
    ensures r.Ok? <==> KeyInRange(ctx, id)
    ensures r.Ok? ==> r.value == ctx.kv[id].tag
  {
    if KeyInRange(ctx, id) then Ok(ctx.kv[id].tag) else Err(AssertFailed)
  }

  /** The two M_Asserts of an array accessor: id in range and tag ARRAY. */
  predicate IsArrayKey(ctx: Context, id: int)
    requires Valid(ctx)
  {
    KeyInRange(ctx, id) && ctx.kv[id].tag == GGUF_TYPE_ARRAY
  }

  /** gguf_get_arr_type. */
  function GetArrType(ctx: Context, id: int): (r: Result<nat, Fault>)
    requires Valid(ctx)
    ensures r.Ok? <==> IsArrayKey(ctx, id)
    ensures r.Ok? ==> ctx.kv[id].value.Arr? && r.value == ctx.kv[id].value.elemType
  {
    if IsArrayKey(ctx, id) then Ok(ctx.kv[id].value.elemType) else Err(AssertFailed)
  }

  /** gguf_get_arr_n, converted to int. */
  function GetArrN(ctx: Context, id: int): (r: Result<int, Fault>)
    requires Valid(ctx)
    ensures r.Ok? <==> IsArrayKey(ctx, id)
    ensures r.Ok? ==> ctx.kv[id].value.Arr? && r.value == CInt(ctx.kv[id].value.n)
  {
    if IsArrayKey(ctx, id) then Ok(CInt(ctx.kv[id].value.n)) else Err(AssertFailed)
  }

  /** gguf_get_arr_data: the array payload. */
  function GetArrData(ctx: Context, id: int): (r: Result<Value, Fault>)
    requires Valid(ctx)
    ensures r.Ok? <==> IsArrayKey(ctx, id)
    ensures r.Ok? ==> ctx.kv[id].value.Arr? && r.value == ctx.kv[id].value
  {
    if IsArrayKey(ctx, id) then Ok(ctx.kv[id].value) else Err(AssertFailed)
  }

  /**
   * gguf_get_arr_str: the i-th string of a string array.  The source checks the id and the
   * ARRAY tag only; an index outside the array, or an array of another element type, is an
   * undefined read.
   */
  function GetArrStr(ctx: Context, id: int, i: int): (r: Result<seq<byte>, Fault>)
    requires Valid(ctx)
    ensures !IsArrayKey(ctx, id) ==> r == Err(AssertFailed)
    ensures r.Ok? <==> IsArrayKey(ctx, id) && ctx.kv[id].value.elemType == GGUF_TYPE_STRING
                       && 0 <= i < ctx.kv[id].value.n
    ensures r.Ok? ==> r.value == CStr(ctx.kv[id].value.strs[i].data)
  {
    if !IsArrayKey(ctx, id) then Err(AssertFailed)
    else
      var v := ctx.kv[id].value;
      if v.elemType == GGUF_TYPE_STRING && 0 <= i < v.n then Ok(CStr(v.strs[i].data))
      else Err(Undefined)
  }

  /**
   * gguf_get_val_u8 ... gguf_get_val_bool: the getter for scalar tag `tag` returns the stored
   * bits when the id is in range and the stored tag is `tag`.
   */
  function GetVal(ctx: Context, id: int, tag: nat): (r: Result<nat, Fault>)
    requires Valid(ctx) && IsScalarTag(tag)
    ensures r.Ok? <==> KeyInRange(ctx, id) && ctx.kv[id].tag == tag
    ensures r.Ok? ==> ctx.kv[id].value.Scalar? && r.value == ctx.kv[id].value.bits
    ensures r.Err? ==> r.error == AssertFailed
  {
    if KeyInRange(ctx, id) && ctx.kv[id].tag == tag then Ok(ctx.kv[id].value.bits)
    else Err(AssertFailed)
  }

  /** gguf_get_val_str. */
  function GetValStr(ctx: Context, id: int): (r: Result<seq<byte>, Fault>)
    requires Valid(ctx)
    ensures r.Ok? <==> KeyInRange(ctx, id) && ctx.kv[id].tag == GGUF_TYPE_STRING
    ensures r.Ok? ==> ctx.kv[id].value.Str? && r.value == CStr(ctx.kv[id].value.s.data)
    ensures r.Err? ==> r.error == AssertFailed
  {
    if KeyInRange(ctx, id) && ctx.kv[id].tag == GGUF_TYPE_STRING then
      Ok(CStr(ctx.kv[id].value.s.data))
    else
      Err(AssertFailed)
  }

  /** gguf_get_val_data: the value of any key that is neither an array nor a string. */
  function GetValData(ctx: Context, id: int): (r: Result<Value, Fault>)
    requires Valid(ctx)
    ensures r.Ok? <==> KeyInRange(ctx, id) && ctx.kv[id].tag != GGUF_TYPE_ARRAY
                       && ctx.kv[id].tag != GGUF_TYPE_STRING
    ensures r.Ok? ==> r.value == ctx.kv[id].value && r.value.Scalar?
  {
    if KeyInRange(ctx, id) && ctx.kv[id].tag != GGUF_TYPE_ARRAY && ctx.kv[id].tag != GGUF_TYPE_STRING then
      Ok(ctx.kv[id].value)
    else
      Err(AssertFailed)
  }

  /** The getters agree on the stored tag: no key is readable by two getters of different tags. */
  lemma GettersExclusive(ctx: Context, id: int, t: nat, u: nat)
    requires Valid(ctx) && IsScalarTag(t) && IsScalarTag(u) && t != u
    ensures !(GetVal(ctx, id, t).Ok? && GetVal(ctx, id, u).Ok?)
    ensures !(GetVal(ctx, id, t).Ok? && GetValStr(ctx, id).Ok?)
    ensures !(GetVal(ctx, id, t).Ok? && GetArrData(ctx, id).Ok?)
    ensures GetVal(ctx, id, t).Ok? ==> GetValData(ctx, id) == Ok(Scalar(GetVal(ctx, id, t).value))
  {
  }

  // ---------------------------------------------------------------- searches

  /**
   * The loop both searches share: for i < count, compare the query with the i-th name and
   * stop at the first equal one.
   */
  method SearchFirst(names: seq<seq<byte>>, count: int, query: seq<byte>) returns (found: int)
    requires count <= |names|
    ensures found == FirstIndex(names[..if count < 0 then 0 else count], query)
  {
    var bound := if count < 0 then 0 else count;
    found := -1;
    var i := 0;
    while i < count
      invariant 0 <= i <= bound
      invariant query !in names[..i]
      decreases bound - i
    {
      if query == names[i] {
        found := i;
        FirstIndexAt(names[..bound], query, i);
        assert names[..bound][..i] == names[..i];
        return;
      }
      assert names[..i + 1] == names[..i] + [names[i]];
      i := i + 1;
    }
    assert names[..bound] == names[..i];
  }

  /** The int count never exceeds the stored one, and is the stored one below 2^31. */
  lemma CIntBound(n: nat)
    ensures CInt(n) <= n
  {
    assert n % 0x1_0000_0000 <= n;
  }

  /**
   * gguf_find_key: the loop over i < gguf_get_n_kv(ctx) comparing with strcmp against
   * gguf_get_key(ctx, i) and stopping at the first match.  Fewer than 2^31 keys are all
   * searched; beyond that the int count wraps and only the first CInt(n_kv) keys (none if
   * negative) are.
   */
  method FindKey(ctx: Context, key: seq<byte>) returns (found: int)
    requires Valid(ctx)
    ensures var bound := if NKv(ctx) < 0 then 0 else NKv(ctx);
            bound <= |ctx.kv| && found == FirstIndex(Keys(ctx)[..bound], CStr(key))
    ensures ctx.nKv < 0x8000_0000 ==> found == FirstIndex(Keys(ctx), CStr(key))
  {
    CIntBound(ctx.nKv);
    found := SearchFirst(Keys(ctx), NKv(ctx), CStr(key));
    assert ctx.nKv < 0x8000_0000 ==> Keys(ctx)[..NKv(ctx)] == Keys(ctx);
  }

  /** gguf_find_tensor: the same first-match loop over gguf_get_tensor_name(ctx, i). */
  method FindTensor(ctx: Context, name: seq<byte>) returns (found: int)
    requires Valid(ctx)
    ensures var bound := if NTensors(ctx) < 0 then 0 else NTensors(ctx);
            bound <= |ctx.infos| && found == FirstIndex(TensorNames(ctx)[..bound], CStr(name))
    ensures ctx.nTensors < 0x8000_0000 ==> found == FirstIndex(TensorNames(ctx), CStr(name))
  {
    CIntBound(ctx.nTensors);
    found := SearchFirst(TensorNames(ctx), NTensors(ctx), CStr(name));
    assert ctx.nTensors < 0x8000_0000 ==> TensorNames(ctx)[..NTensors(ctx)] == TensorNames(ctx);
  }

  /** A found key is in range for every getter, and it is the key asked for. */
  lemma FoundKeyIsReadable(ctx: Context, key: seq<byte>, found: int)
    requires Valid(ctx) && ctx.nKv < 0x8000_0000
    requires found == FirstIndex(Keys(ctx), CStr(key)) && found >= 0
    ensures KeyInRange(ctx, found)
    ensures GetKey(ctx, found) == Ok(CStr(key))
    ensures forall j :: 0 <= j < found ==> GetKey(ctx, j) != Ok(CStr(key))
  {
    forall j | 0 <= j < found
      ensures GetKey(ctx, j) != Ok(CStr(key))
    {
      assert Keys(ctx)[..found][j] == Keys(ctx)[j];
    }
  }
}
