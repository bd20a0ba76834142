/**
 * gguf_init_from_file (src/core/gguf_model/gguf_loader.cpp): reading a GGUF file into a
 * GGUF_context, up to the start of the tensor data.  The file is a byte sequence; the FILE
 * position always equals the `offset` the loader advances beside it, so one cursor stands for
 * both.  Every way the loader ends without a context is one of three halts.
 */
module GgufLoader {
  import opened Wrappers
  import opened Bytes
  import opened Arith
  import opened Define
  import opened Search
  import opened GgufTypes
  import opened GgufContext
  import GgmlQuant
  import MemoryUtils

  const SIZE_MAX: nat := 0xFFFF_FFFF_FFFF_FFFF
  const INT64_MAX: nat := 0x7FFF_FFFF_FFFF_FFFF

  /** sizeof(GGUF_kv) and sizeof(GGUF_tensor_info) on LP64 (ne holds GGML_MAX_NAME extents). */
  const SIZEOF_KV: nat := 48
  const SIZEOF_TENSOR_INFO: nat := 568

  /** The header sanity bounds: n_tensors and n_kv below (SIZE_MAX / 2) / sizeof. */
  const MAX_TENSORS: nat := (SIZE_MAX / 2) / SIZEOF_TENSOR_INFO
  const MAX_KV: nat := (SIZE_MAX / 2) / SIZEOF_KV

  const GGML_MAX_DIMS: nat := 4
  const GGUF_DEFAULT_ALIGNMENT: nat := 32

  /** GGUF_MAGIC, the four characters "GGUF". */
  const GGUF_MAGIC: seq<byte> := [0x47, 0x47, 0x55, 0x46]

  /** "general.alignment", the key whose u32 value replaces the default alignment. */
  const ALIGNMENT_KEY: seq<byte> :=
    [0x67, 0x65, 0x6E, 0x65, 0x72, 0x61, 0x6C, 0x2E, 0x61, 0x6C, 0x69, 0x67, 0x6E, 0x6D, 0x65, 0x6E, 0x74]

  /**
   * How the loader ends without a context: it returns a null pointer (Null), an M_ASSERT
   * fails (Abort), or the C++ reaches a read of uninitialised memory or a division by zero
   * (UndefinedBehaviour).
   */
  datatype Halt = Null | Abort | UndefinedBehaviour

  datatype Outcome = Loaded(ctx: Context) | Halted(halt: Halt)

  /** A section decoded up to cursor `next`, or the halt that ended the loader. */
  datatype Step<T> = Next(value: T, next: nat) | Stop(halt: Halt)

  /** `pre` followed by what r decoded; a halt stays a halt. */
  function Prepend<T>(pre: seq<T>, r: Step<seq<T>>): (p: Step<seq<T>>)
    ensures r.Stop? ==> p == r
    ensures r.Next? ==> p.Next? && p.next == r.next
  {
    match r
    case Stop(h) => Stop(h)
    case Next(s, nx) => Next(pre + s, nx)
  }

  lemma PrependNil<T>(r: Step<seq<T>>)
    ensures Prepend([], r) == r
  {
    if r.Next? {
      assert [] + r.value == r.value;
    }
  }

  lemma PrependDone<T>(a: seq<T>, next: nat)
    ensures Prepend(a, Next([], next)) == Next(a, next)
  {
    assert a + [] == a;
  }

  lemma PrependAssoc<T>(a: seq<T>, b: seq<T>, r: Step<seq<T>>)
    ensures Prepend(a, Prepend(b, r)) == Prepend(a + b, r)
  {
    if r.Next? {
      assert a + (b + r.value) == (a + b) + r.value;
    }
  }

  // ---------------------------------------------------------------- gguf_fread_el, gguf_fread_str

  /** What one fread call delivers, and the offset after it. */
  datatype Chunk = Chunk(bytes: seq<byte>, next: nat)

  /**
   * gguf_fread_el(file, dst, size, &offset): fread delivers the next `size` bytes, or all
   * that remain when fewer do; the offset advances by the count delivered, and the call
   * succeeds exactly when the count is `size`.
   */
  function FreadEl(file: seq<byte>, off: nat, size: nat): (r: Chunk)
    requires off <= |file|
    ensures |r.bytes| == (if size <= |file| - off then size else |file| - off)
    ensures r.next == off + |r.bytes| <= |file|
    ensures r.bytes == file[off..r.next]
  {
    var n := if size <= |file| - off then size else |file| - off;
    Chunk(file[off..off + n], off + n)
  }

  /**
   * MMemoryAllocAlign's raw request for `size` bytes at the default alignment,
   * `size + sizeof(void *) + M_MEMORY_ALIGN_DEFAULT`, fits in size_t.  The loader calls the
   * allocator as written, so a request that does not fit wraps (AllocFitsIsChecked).
   */
  predicate AllocFits(size: nat)
  {
    size + MemoryUtils.POINTER_SIZE + MemoryUtils.MEMORY_ALIGN_DEFAULT <= SIZE_MAX
  }

  /**
   * A request fits exactly when the raw byte count the allocator passes to malloc is the
   * sum it means; one that does not fit asks malloc for fewer bytes than the header word
   * and the alignment slack take, so the aligned block cannot hold even one byte for sure.
   */
  lemma AllocFitsIsChecked(size: nat)
    requires size <= SIZE_MAX
    ensures AllocFits(size) <==>
              MemoryUtils.RawRequest(size, MemoryUtils.MEMORY_ALIGN_DEFAULT)
              == size + MemoryUtils.POINTER_SIZE + MemoryUtils.MEMORY_ALIGN_DEFAULT
    ensures !AllocFits(size) ==>
              MemoryUtils.RawRequest(size, MemoryUtils.MEMORY_ALIGN_DEFAULT)
              < MemoryUtils.POINTER_SIZE + MemoryUtils.MEMORY_ALIGN_DEFAULT
  {
    WordModulus();
    var t := size + MemoryUtils.POINTER_SIZE + MemoryUtils.MEMORY_ALIGN_DEFAULT;
    if AllocFits(size) {
      DivUnique(t, SIZE_MAX + 1, 0, t);
    } else {
      DivUnique(t, SIZE_MAX + 1, 1, t - (SIZE_MAX + 1));
    }
  }

  /**
   * The outcome of gguf_fread_str: a string, a false return, or a write of file bytes into
   * a block whose allocation request wrapped (undefined behaviour).
   */
  datatype StrRead = StrOk(s: GStr, next: nat) | StrFail | StrOverflow

  /**
   * gguf_fread_str: the 8-byte length (a short read leaves the missing high bytes zero); a
   * length of SIZE_MAX is refused; n + 1 zeroed bytes are allocated and the n data bytes are
   * read into them.  For a length within 72 of SIZE_MAX the allocation request wraps and
   * calloc hands back a block of under 72 bytes: below 8 bytes the header word it stores
   * already lies past the block, and the read then copies whatever the file still holds
   * into it.  Such a length is StrOverflow.
   */
  function FreadStr(file: seq<byte>, off: nat): (r: StrRead)
    requires off <= |file|
    ensures r.StrOk? ==> off + 8 + r.s.n == r.next <= |file|
  {
    var len := FreadEl(file, off, 8);
    var n := LittleEndian(len.bytes);
    if n == SIZE_MAX then StrFail
    else if !AllocFits(n + 1) then StrOverflow
    else if |len.bytes| < 8 then StrFail
    else
      var d := FreadEl(file, len.next, n);
      if |d.bytes| < n then StrFail else StrOk(GStr(n, d.bytes + [0]), d.next)
  }

  // ---------------------------------------------------------------- key-value pairs

  /** A scalar value: TypeSize(tag) bytes, read into the union; a short read fails. */
  function ReadScalar(file: seq<byte>, off: nat, tag: nat): (r: Step<Value>)
    requires off <= |file| && IsScalarTag(tag)
    ensures r.Next? ==> r.next <= |file|
  {
    var c := FreadEl(file, off, TypeSize(tag));
    if |c.bytes| < TypeSize(tag) then Stop(Null) else Next(Scalar(LittleEndian(c.bytes)), c.next)
  }

  /** The n strings of a string array, read one after the other. */
  function ReadStrs(file: seq<byte>, off: nat, count: nat): (r: Step<seq<GStr>>)
    requires off <= |file|
    ensures r.Next? ==> r.next <= |file|
    decreases count, 1
  {
    if count == 0 then Next([], off) else StrsFrom(file, off, count)
  }

  /** The string loop at a pass that has a string left to read. */
  function StrsFrom(file: seq<byte>, off: nat, count: nat): (r: Step<seq<GStr>>)
    requires off <= |file| && count > 0
    ensures r.Next? ==> r.next <= |file|
    decreases count, 0
  {
    match FreadStr(file, off)
    case StrOverflow => Stop(UndefinedBehaviour)
    case StrFail => Stop(Null)
    case StrOk(s, nx) => Prepend([s], ReadStrs(file, nx, count - 1))
  }

  /** The array case before its element loop: element tag and count. */
  function ReadArrayHead(file: seq<byte>, off: nat): (r: Step<(nat, nat)>)
    requires off <= |file|
    ensures r.Next? ==> r.next <= |file| && (IsScalarTag(r.value.0) || r.value.0 == GGUF_TYPE_STRING)
  {
    var at := FreadEl(file, off, 4);
    if |at.bytes| < 4 then Stop(UndefinedBehaviour)
    else
      var et := LittleEndian(at.bytes);
      var an := FreadEl(file, at.next, 8);
      if !IsScalarTag(et) && et != GGUF_TYPE_STRING then Stop(Abort)
      else if |an.bytes| < 8 then Stop(UndefinedBehaviour)
      else Next((et, LittleEndian(an.bytes)), an.next)
  }

  /** The checks before the element buffer is allocated, for element tag et and count n. */
  function ArrayGuard(et: nat, n: nat): (r: Option<Halt>)
    requires IsScalarTag(et) || et == GGUF_TYPE_STRING
    ensures var bytes := n * ElemSize(et);
            && (r.None? || r == Some(UndefinedBehaviour) ==> 0 < bytes < SIZE_MAX)
            && (r.None? ==> MemoryUtils.RawRequest(bytes, MemoryUtils.MEMORY_ALIGN_DEFAULT)
                            == bytes + MemoryUtils.POINTER_SIZE + MemoryUtils.MEMORY_ALIGN_DEFAULT)
            && (r == Some(UndefinedBehaviour) ==>
                  MemoryUtils.RawRequest(bytes, MemoryUtils.MEMORY_ALIGN_DEFAULT)
                  < MemoryUtils.POINTER_SIZE + MemoryUtils.MEMORY_ALIGN_DEFAULT)
    ensures r == Some(Null) <==> SIZE_MAX / ElemSize(et) <= n
    ensures r == Some(Abort) <==> n == 0
  {
    var size := ElemSize(et);
    if n >= SIZE_MAX / size then Some(Null)
    else if n == 0 then Some(Abort)
    else
      QuotientBound(SIZE_MAX, size, n);
      AllocFitsIsChecked(n * size);
      if !AllocFits(n * size) then Some(UndefinedBehaviour)
      else None
  }

  /** The bytes one element of an array takes in the loader's buffer. */
  function ElemSize(et: nat): (s: nat)
    requires IsScalarTag(et) || et == GGUF_TYPE_STRING
    ensures s > 0
  {
    if et == GGUF_TYPE_STRING then GGUF_STR_SIZE else TypeSize(et)
  }

  /**
   * The GGUF_TYPE_ARRAY case.  An element tag that is neither a scalar nor STRING fails
   * M_ASSERT(false); a count too large for the malloc returns NULL; an empty array fails
   * MMemoryAllocAlign's M_ASSERT(size > 0).  A short read of the tag or of the count leaves
   * the switch, or the overflow check, reading memory malloc did not initialise.
   */
  function ReadArray(file: seq<byte>, off: nat): (r: Step<Value>)
    requires off <= |file|
    ensures r.Next? ==> r.next <= |file|
  {
    match ReadArrayHead(file, off)
    case Stop(h) => Stop(h)
    case Next((et, n), k) =>
      if ArrayGuard(et, n).Some? then Stop(ArrayGuard(et, n).value)
      else if et == GGUF_TYPE_STRING then
        match ReadStrs(file, k, n)
        case Stop(h) => Stop(h)
        case Next(strs, nx) => Next(Arr(et, n, [], strs), nx)
      else
        var d := FreadEl(file, k, n * TypeSize(et));
        if |d.bytes| < n * TypeSize(et) then Stop(Null) else Next(Arr(et, n, d.bytes, []), d.next)
  }

  /** The switch on kv->type. */
  function ReadValue(file: seq<byte>, off: nat, tag: nat): (r: Step<Value>)
    requires off <= |file|
    ensures r.Next? ==> r.next <= |file|
  {
    if IsScalarTag(tag) then ReadScalar(file, off, tag)
    else if tag == GGUF_TYPE_STRING then
      match FreadStr(file, off)
      case StrOverflow => Stop(UndefinedBehaviour)
      case StrFail => Stop(Null)
      case StrOk(s, nx) => Next(Str(s), nx)
    else if tag == GGUF_TYPE_ARRAY then ReadArray(file, off)
    else Stop(Abort)
  }

  /**
   * One pass of the kv loop.  A failed key read skips the type read, and the switch then
   * reads the uninitialised type; so does a short type read.
   */
  function ReadKv(file: seq<byte>, off: nat): (r: Step<Kv>)
    requires off <= |file|
    ensures r.Next? ==> r.next <= |file|
  {
    match FreadStr(file, off)
    case StrOverflow => Stop(UndefinedBehaviour)
    case StrFail => Stop(UndefinedBehaviour)
    case StrOk(key, k) =>
      var ty := FreadEl(file, k, 4);
      if |ty.bytes| < 4 then Stop(UndefinedBehaviour)
      else
        match ReadValue(file, ty.next, LittleEndian(ty.bytes))
        case Stop(h) => Stop(h)
        case Next(v, nx) => Next(Kv(key, LittleEndian(ty.bytes), v), nx)
  }

  /** The kv loop: `count` kv pairs, stopping at the first that does not read. */
  function ReadKvs(file: seq<byte>, off: nat, count: nat): (r: Step<seq<Kv>>)
    requires off <= |file|
    ensures r.Next? ==> r.next <= |file|
    decreases count, 1
  {
    if count == 0 then Next([], off) else KvsFrom(file, off, count)
  }

  /** The kv loop at a pass that has a pair left to read. */
  function KvsFrom(file: seq<byte>, off: nat, count: nat): (r: Step<seq<Kv>>)
    requires off <= |file| && count > 0
    ensures r.Next? ==> r.next <= |file|
    decreases count, 0
  {
    match ReadKv(file, off)
    case Stop(h) => Stop(h)
    case Next(kv, nx) => Prepend([kv], ReadKvs(file, nx, count - 1))
  }

  // ---------------------------------------------------------------- tensor infos

  /**
   * gguf_tensor_info_sanitize: at most four dimensions, a GGML type below GGML_TYPE_COUNT,
   * positive extents, and an element count that fits int64.  Each product is asked about only
   * once the previous check has passed, so none of them wraps in uint64.
   */
  predicate Sanitized(nDims: nat, ggmlType: nat, ne: seq<nat>)
    requires |ne| == GGML_MAX_DIMS
  {
    && nDims <= GGML_MAX_DIMS
    && ggmlType < GgmlQuant.GGML_TYPE_COUNT
    && (forall i :: 0 <= i < nDims ==> ne[i] > 0)
    && ne[1] > 0 && ne[2] > 0 && ne[3] > 0
    && INT64_MAX / ne[1] > ne[0]
    && INT64_MAX / ne[2] > ne[0] * ne[1]
    && INT64_MAX / ne[3] > ne[0] * ne[1] * ne[2]
  }

  /** The extent loop: `count` 8-byte extents; a short one leaves the type read skipped. */
  function ReadDims(file: seq<byte>, off: nat, count: nat): (r: Step<seq<nat>>)
    requires off <= |file|
    ensures r.Next? ==> r.next <= |file|
    decreases count
  {
    if count == 0 then Next([], off)
    else
      var c := FreadEl(file, off, 8);
      if |c.bytes| < 8 then Stop(UndefinedBehaviour)
      else Prepend([LittleEndian(c.bytes)], ReadDims(file, c.next, count - 1))
  }

  /** The extents as the loader leaves them: the n_dims read ones, then the default 1s. */
  function Extents(dims: seq<nat>): (ne: seq<nat>)
    requires |dims| <= GGML_MAX_DIMS
    ensures |ne| == GGML_MAX_DIMS
  {
    dims + seq(GGML_MAX_DIMS - |dims|, _ => 1)
  }

  /**
   * One pass of the tensor-info loop.  A failed name read leaves n_dims unread for the
   * extent loop; more than four dimensions reach sanitize's first M_ASSERT; a short extent or
   * type leaves the type unread for sanitize; a short data offset is reported after
   * sanitize, so a bad tensor info aborts before it can return NULL.
   */
  function ReadInfo(file: seq<byte>, off: nat): (r: Step<TensorInfo>)
    requires off <= |file|
    ensures r.Next? ==> r.next <= |file|
  {
    match FreadStr(file, off)
    case StrOverflow => Stop(UndefinedBehaviour)
    case StrFail => Stop(UndefinedBehaviour)
    case StrOk(name, k) =>
      var nd := FreadEl(file, k, 4);
      var nDims := LittleEndian(nd.bytes);
      if |nd.bytes| < 4 then Stop(UndefinedBehaviour)
      else if nDims > GGML_MAX_DIMS then Stop(Abort)
      else
        match ReadDims(file, nd.next, nDims)
        case Stop(h) => Stop(h)
        case Next(dims, k2) =>
          ReadDimsLength(file, nd.next, nDims);
          var ty := FreadEl(file, k2, 4);
          var ofs := FreadEl(file, ty.next, 8);
          if |ty.bytes| < 4 then Stop(UndefinedBehaviour)
          else if !Sanitized(nDims, LittleEndian(ty.bytes), Extents(dims)) then Stop(Abort)
          else if |ofs.bytes| < 8 then Stop(Null)
          else Next(TensorInfo(name, nDims, Extents(dims), LittleEndian(ty.bytes), LittleEndian(ofs.bytes)), ofs.next)
  }

  /** The tensor-info loop. */
  function ReadInfos(file: seq<byte>, off: nat, count: nat): (r: Step<seq<TensorInfo>>)
    requires off <= |file|
    ensures r.Next? ==> r.next <= |file|
    decreases count, 2
  {
    if count == 0 then Next([], off) else InfosFrom(file, off, count)
  }

  /** The tensor-info loop at a pass that has an info left to read. */
  function InfosFrom(file: seq<byte>, off: nat, count: nat): (r: Step<seq<TensorInfo>>)
    requires off <= |file| && count > 0
    ensures r.Next? ==> r.next <= |file|
    decreases count, 1
  {
    InfoPass(file, off, count)
  }

  /** That pass: one tensor info, then the rest of the loop. */
  function InfoPass(file: seq<byte>, off: nat, count: nat): (r: Step<seq<TensorInfo>>)
    requires off <= |file| && count > 0
    ensures r.Next? ==> r.next <= |file|
    decreases count, 0
  {
    match ReadInfo(file, off)
    case Stop(h) => Stop(h)
    case Next(info, nx) => Prepend([info], ReadInfos(file, nx, count - 1))
  }

  // ---------------------------------------------------------------- header and the whole file

  datatype Header = Header(version: nat, nTensors: nat, nKv: nat)

  /**
   * The magic and the header.  The magic bytes are compared one by one and the first that
   * differs returns NULL; when the file ends inside a matching magic, the comparison goes on
   * into the uninitialised rest of the local array.  The three header fields are all read
   * (the results are combined with `&`), into a header that make_shared zeroed.
   */
  function ReadHeader(file: seq<byte>): (r: Step<Header>)
    ensures r.Next? ==> r.next == 24 <= |file| && file[..4] == GGUF_MAGIC
    ensures r.Next? ==> r.value.version != 1 && r.value.nTensors < MAX_TENSORS && r.value.nKv < MAX_KV
  {
    var magic := FreadEl(file, 0, 4);
    if magic.bytes != GGUF_MAGIC[..|magic.bytes|] then Stop(Null)
    else if |magic.bytes| < 4 then Stop(UndefinedBehaviour)
    else
      var v := FreadEl(file, magic.next, 4);
      var t := FreadEl(file, v.next, 8);
      var k := FreadEl(file, t.next, 8);
      var h := Header(LittleEndian(v.bytes), LittleEndian(t.bytes), LittleEndian(k.bytes));
      if h.version == 1 then Stop(Null)
      else if !(|v.bytes| == 4 && |t.bytes| == 8 && |k.bytes| == 8) then Stop(Null)
      else if h.nTensors >= MAX_TENSORS || h.nKv >= MAX_KV then Stop(Null)
      else Next(h, k.next)
  }

  /** A kv pair as a loaded context holds it; the array element buffer is never empty. */
  predicate LoadedKv(kv: Kv)
  {
    ValidStr(kv.key) && TagMatches(kv.tag, kv.value) && ValidValue(kv.value)
    && (kv.value.Arr? ==> kv.value.n > 0)
  }

  /** A tensor info as a loaded context holds it: sanitized. */
  predicate LoadedInfo(info: TensorInfo)
  {
    ValidStr(info.name) && |info.ne| == GGML_MAX_DIMS && Sanitized(info.nDims, info.ggmlType, info.ne)
    && forall i :: info.nDims <= i < GGML_MAX_DIMS ==> info.ne[i] == 1
  }

  /**
   * Header, kv pairs and tensor infos, with the default alignment not yet replaced.  The kv
   * and tensor-info arrays come from MMemoryAllocAlign, whose M_ASSERT(size > 0) stops a
   * file with no kv pairs or no tensors.
   */
  function Tables(file: seq<byte>): (r: Step<Context>)
    ensures r.Next? ==> Valid(r.value) && r.next <= |file|
    ensures r.Next? ==> AllLoaded(r.value.kv) && AllInfosLoaded(r.value.infos)
    ensures r.Next? ==> r.value.nKv > 0 && r.value.nTensors > 0 && r.value.version != 1
    ensures r.Next? ==> r.value.alignment == GGUF_DEFAULT_ALIGNMENT && r.value.offset == 0
  {
    match ReadHeader(file)
    case Stop(h) => Stop(h)
    case Next(hd, k) =>
      if hd.nKv == 0 then Stop(Abort)
      else
        match ReadKvs(file, k, hd.nKv)
        case Stop(h) => Stop(h)
        case Next(kvs, afterKvs) =>
          if hd.nTensors == 0 then Stop(Abort)
          else
            match ReadInfos(file, afterKvs, hd.nTensors)
            case Stop(h) => Stop(h)
            case Next(infos, end) =>
              ReadKvsLoaded(file, k, hd.nKv);
              ReadInfosLoaded(file, afterKvs, hd.nTensors);
              Next(Context(hd.version, hd.nTensors, hd.nKv, kvs, infos, GGUF_DEFAULT_ALIGNMENT, 0), end)
  }

  /** How many keys gguf_find_key compares: the first CInt(n_kv), none when that is negative. */
  function KeyBound(ctx: Context): (b: nat)
    requires Valid(ctx)
    ensures b <= |ctx.kv|
  {
    CIntBound(ctx.nKv);
    if NKv(ctx) < 0 then 0 else NKv(ctx)
  }

  /** `offset += alignment - offset % alignment` when the remainder is not zero. */
  function PadOffset(offset: nat, alignment: nat): (r: nat)
    requires alignment > 0
    ensures offset <= r < offset + alignment
  {
    var pad := offset % alignment;
    if pad != 0 then offset + (alignment - pad) else offset
  }

  /**
   * The alignment (the default, or gguf_get_val_u32 of "general.alignment", which asserts the
   * UINT32 tag) and the padded data offset.  `offset % 0` for an alignment of zero is
   * undefined.
   */
  function Finish(ctx: Context, end: nat): (r: Outcome)
    requires Valid(ctx)
  {
    var idx := FirstIndex(Keys(ctx)[..KeyBound(ctx)], CStr(ALIGNMENT_KEY));
    var alignment := if idx == -1 then Ok(GGUF_DEFAULT_ALIGNMENT) else GetVal(ctx, idx, GGUF_TYPE_UINT32);
    if alignment.Err? then Halted(Abort)
    else if alignment.value == 0 then Halted(UndefinedBehaviour)
    else Loaded(ctx.(alignment := alignment.value, offset := PadOffset(end, alignment.value)))
  }

  /** gguf_init_from_file up to `ctx->offset = offset`. */
  function Load(file: seq<byte>): (r: Outcome)
    ensures Tables(file).Stop? ==> r == Halted(Tables(file).halt)
    ensures r.Loaded? ==> Tables(file).Next? && r.ctx.alignment > 0
                          && Tables(file).next <= r.ctx.offset < Tables(file).next + r.ctx.alignment
  {
    match Tables(file)
    case Stop(h) => Halted(h)
    case Next(ctx, end) => Finish(ctx, end)
  }

  // ---------------------------------------------------------------- what the readers deliver

  lemma {:induction false} Pow256Mono(a: nat, b: nat)
    requires a <= b
    ensures Pow256(a) <= Pow256(b)
    decreases b
  {
    if a < b { Pow256Mono(a, b - 1); }
  }

  /**
   * gguf_fread_str delivers a string exactly when the 8-byte length n and then n bytes are
   * there, n is not SIZE_MAX, and the request n + 1 fits; the string is those n bytes and a
   * terminating zero.  The allocation fails only for a fully read length within 72 of
   * SIZE_MAX.
   */
  /** The length field of a string at `off`. */
  function StrLength(file: seq<byte>, off: nat): nat
    requires off + 8 <= |file|
  {
    LittleEndian(file[off..off + 8])
  }

  lemma FreadStrSpec(file: seq<byte>, off: nat)
    requires off <= |file|
    ensures FreadStr(file, off).StrOk? <==>
              (off + 8 <= |file| && StrLength(file, off) < SIZE_MAX - 72 && off + 8 + StrLength(file, off) <= |file|)
    ensures FreadStr(file, off).StrOverflow? <==>
              (off + 8 <= |file| && SIZE_MAX - 72 <= StrLength(file, off) < SIZE_MAX)
    ensures FreadStr(file, off).StrOk? ==>
              var n := StrLength(file, off);
              FreadStr(file, off) == StrOk(GStr(n, file[off + 8..off + 8 + n] + [0]), off + 8 + n)
              && ValidStr(FreadStr(file, off).s)
  {
    var len := FreadEl(file, off, 8);
    var n := LittleEndian(len.bytes);
    assert MemoryUtils.POINTER_SIZE + MemoryUtils.MEMORY_ALIGN_DEFAULT == 72;
    if |len.bytes| < 8 {
      Pow256Mono(|len.bytes|, 7);
      assert n < 0x100_0000_0000_0000;
    }
  }

  /**
   * A string length of SIZE_MAX - 1 passes the SIZE_MAX check, but the n + 1 bytes it asks
   * MMemoryCallocAlign for become a raw request of 71 bytes, and the byte that follows the
   * length is then read into that block.
   */
  lemma StrLengthWraps()
    ensures var file := [0xFE, 0xFF, 0xFF, 0xFF, 0xFF, 0xFF, 0xFF, 0xFF, 0x41];
            && StrLength(file, 0) == SIZE_MAX - 1
            && MemoryUtils.RawRequest(StrLength(file, 0) + 1, MemoryUtils.MEMORY_ALIGN_DEFAULT) == 71
            && FreadStr(file, 0) == StrOverflow
  {
    var file: seq<byte> := [0xFE, 0xFF, 0xFF, 0xFF, 0xFF, 0xFF, 0xFF, 0xFF, 0x41];
    WordModulus();
    assert file[0..8] == [0xFE, 0xFF, 0xFF, 0xFF, 0xFF, 0xFF, 0xFF, 0xFF];
    var t := SIZE_MAX - 1 + 1 + MemoryUtils.POINTER_SIZE + MemoryUtils.MEMORY_ALIGN_DEFAULT;
    DivUnique(t, SIZE_MAX + 1, 1, 71);
  }

  /**
   * A length of SIZE_MAX - 69 that ends the file: the n + 1 bytes become a raw request of 3
   * bytes, smaller than the header word MMemoryCallocAlign stores below the aligned pointer,
   * so the store lands past the block although no string byte is left to read.
   */
  lemma StrLengthWrapsAtEnd()
    ensures var file := [0xBA, 0xFF, 0xFF, 0xFF, 0xFF, 0xFF, 0xFF, 0xFF];
            && StrLength(file, 0) == SIZE_MAX - 69
            && MemoryUtils.RawRequest(StrLength(file, 0) + 1, MemoryUtils.MEMORY_ALIGN_DEFAULT) == 3
            && MemoryUtils.RawRequest(StrLength(file, 0) + 1, MemoryUtils.MEMORY_ALIGN_DEFAULT) < MemoryUtils.POINTER_SIZE
            && FreadStr(file, 0) == StrOverflow
  {
    var file: seq<byte> := [0xBA, 0xFF, 0xFF, 0xFF, 0xFF, 0xFF, 0xFF, 0xFF];
    WordModulus();
    assert file[0..8] == file;
    var t := SIZE_MAX - 69 + 1 + MemoryUtils.POINTER_SIZE + MemoryUtils.MEMORY_ALIGN_DEFAULT;
    DivUnique(t, SIZE_MAX + 1, 1, 3);
  }

  /** A string array read from the file has its n elements, each terminated. */
  lemma {:induction false} ReadStrsLoaded(file: seq<byte>, off: nat, count: nat)
    requires off <= |file|
    ensures ReadStrs(file, off, count).Next? ==>
              |ReadStrs(file, off, count).value| == count
              && forall i :: 0 <= i < count ==> ValidStr(ReadStrs(file, off, count).value[i])
    decreases count
  {
    if count > 0 && FreadStr(file, off).StrOk? {
      var s := FreadStr(file, off);
      FreadStrSpec(file, off);
      ReadStrsLoaded(file, s.next, count - 1);
    }
  }

  /** Every kv pair the loop accepts is terminated, tagged as it holds, and not empty. */
  lemma ReadKvLoaded(file: seq<byte>, off: nat)
    requires off <= |file|
    ensures ReadKv(file, off).Next? ==> AllLoaded([ReadKv(file, off).value])
  {
    var r := ReadKv(file, off);
    if r.Next? {
      FreadStrSpec(file, off);
      var k := FreadStr(file, off).next;
      var ty := FreadEl(file, k, 4);
      var tag := LittleEndian(ty.bytes);
      if tag == GGUF_TYPE_STRING {
        FreadStrSpec(file, ty.next);
      } else if tag == GGUF_TYPE_ARRAY {
        var head := ReadArrayHead(file, ty.next);
        ReadStrsLoaded(file, head.next, head.value.1);
      }
    }
  }

  predicate AllLoaded(kvs: seq<Kv>)
  {
    forall i :: 0 <= i < |kvs| ==> LoadedKv(kvs[i])
  }

  lemma AllAfterFirst(a: seq<Kv>, b: seq<Kv>)
    requires AllLoaded(a) && AllLoaded(b)
    ensures AllLoaded(a + b)
  {
    forall i | 0 <= i < |a + b|
      ensures LoadedKv((a + b)[i])
    {
      if i >= |a| { assert (a + b)[i] == b[i - |a|]; }
    }
  }

  lemma {:induction false} ReadKvsLoaded(file: seq<byte>, off: nat, count: nat)
    requires off <= |file|
    ensures ReadKvs(file, off, count).Next? ==>
              |ReadKvs(file, off, count).value| == count && AllLoaded(ReadKvs(file, off, count).value)
    decreases count
  {
    if count > 0 {
      var first := ReadKv(file, off);
      if first.Next? {
        ReadKvLoaded(file, off);
        ReadKvsLoaded(file, first.next, count - 1);
        var rest := ReadKvs(file, first.next, count - 1);
        assert ReadKvs(file, off, count) == Prepend([first.value], rest);
        KvsConsLoaded(first.value, rest, count);
      }
    }
  }

  /** A loaded pair in front of `count - 1` loaded pairs makes `count` loaded pairs. */
  lemma KvsConsLoaded(kv: Kv, rest: Step<seq<Kv>>, count: nat)
    requires count > 0 && AllLoaded([kv])
    requires rest.Next? ==> |rest.value| == count - 1 && AllLoaded(rest.value)
    ensures Prepend([kv], rest).Next? ==>
              |Prepend([kv], rest).value| == count && AllLoaded(Prepend([kv], rest).value)
  {
    if rest.Next? {
      AllAfterFirst([kv], rest.value);
    }
  }

  lemma {:induction false} ReadDimsLength(file: seq<byte>, off: nat, count: nat)
    requires off <= |file|
    ensures ReadDims(file, off, count).Next? ==> |ReadDims(file, off, count).value| == count
    decreases count
  {
    if count > 0 {
      var c := FreadEl(file, off, 8);
      if |c.bytes| == 8 {
        ReadDimsLength(file, c.next, count - 1);
      }
    }
  }

  lemma {:induction false} ReadInfosLoaded(file: seq<byte>, off: nat, count: nat)
    requires off <= |file|
    ensures ReadInfos(file, off, count).Next? ==>
              |ReadInfos(file, off, count).value| == count && AllInfosLoaded(ReadInfos(file, off, count).value)
    decreases count
  {
    if count > 0 {
      InfosStep(file, off, count);
      var first := ReadInfo(file, off);
      if first.Next? {
        ReadInfoLoaded(file, off);
        ReadInfosLoaded(file, first.next, count - 1);
        var rest := ReadInfos(file, first.next, count - 1);
        InfosConsLoaded(first.value, rest, count);
      }
    }
  }

  /** A loaded info in front of `count - 1` loaded infos makes `count` loaded infos. */
  lemma InfosConsLoaded(info: TensorInfo, rest: Step<seq<TensorInfo>>, count: nat)
    requires count > 0 && LoadedInfo(info)
    requires rest.Next? ==> |rest.value| == count - 1 && AllInfosLoaded(rest.value)
    ensures Prepend([info], rest).Next? ==>
              |Prepend([info], rest).value| == count && AllInfosLoaded(Prepend([info], rest).value)
  {
    if rest.Next? {
      assert AllInfosLoaded([info]);
      AllInfosAfterFirst([info], rest.value);
    }
  }

  predicate AllInfosLoaded(infos: seq<TensorInfo>)
  {
    forall i :: 0 <= i < |infos| ==> LoadedInfo(infos[i])
  }

  lemma AllInfosAfterFirst(a: seq<TensorInfo>, b: seq<TensorInfo>)
    requires AllInfosLoaded(a) && AllInfosLoaded(b)
    ensures AllInfosLoaded(a + b)
  {
    forall i | 0 <= i < |a + b|
      ensures LoadedInfo((a + b)[i])
    {
      if i >= |a| { assert (a + b)[i] == b[i - |a|]; }
    }
  }

  /** Every tensor info the loop accepts has a terminated name and passed sanitize. */
  lemma ReadInfoLoaded(file: seq<byte>, off: nat)
    requires off <= |file|
    ensures ReadInfo(file, off).Next? ==> LoadedInfo(ReadInfo(file, off).value)
  {
    var name := FreadStr(file, off);
    if ReadInfo(file, off).Next? {
      FreadStrValid(file, off);
      var nd := FreadEl(file, name.next, 4);
      ReadDimsLength(file, nd.next, LittleEndian(nd.bytes));
      var dims := ReadDims(file, nd.next, LittleEndian(nd.bytes));
      var ty := FreadEl(file, dims.next, 4);
      var ofs := FreadEl(file, ty.next, 8);
      assert ReadInfo(file, off).value ==
             TensorInfo(name.s, LittleEndian(nd.bytes), Extents(dims.value), LittleEndian(ty.bytes), LittleEndian(ofs.bytes));
      ExtentsLoaded(name.s, LittleEndian(nd.bytes), dims.value, LittleEndian(ty.bytes), LittleEndian(ofs.bytes));
    }
  }

  /** A string gguf_fread_str returns is terminated. */
  lemma FreadStrValid(file: seq<byte>, off: nat)
    requires off <= |file|
    ensures FreadStr(file, off).StrOk? ==> ValidStr(FreadStr(file, off).s)
  {
  }

  /** A sanitized info built from n_dims extents and the default 1s is loaded. */
  lemma ExtentsLoaded(name: GStr, nDims: nat, dims: seq<nat>, ggmlType: nat, offset: nat)
    requires ValidStr(name) && |dims| == nDims <= GGML_MAX_DIMS && Sanitized(nDims, ggmlType, Extents(dims))
    ensures LoadedInfo(TensorInfo(name, nDims, Extents(dims), ggmlType, offset))
  {
  }

  // ---------------------------------------------------------------- the loops, as the C++ runs them

  /** One pass of each section loop, unfolded. */
  lemma StrsStep(file: seq<byte>, off: nat, count: nat)
    requires off <= |file| && count > 0
    ensures ReadStrs(file, off, count) == match FreadStr(file, off)
                                          case StrOverflow => Stop(UndefinedBehaviour)
                                          case StrFail => Stop(Null)
                                          case StrOk(s, nx) => Prepend([s], ReadStrs(file, nx, count - 1))
  {
  }

  lemma DimsStep(file: seq<byte>, off: nat, count: nat)
    requires off <= |file| && count > 0
    ensures var c := FreadEl(file, off, 8);
            ReadDims(file, off, count) == if |c.bytes| < 8 then Stop(UndefinedBehaviour)
                                          else Prepend([LittleEndian(c.bytes)], ReadDims(file, c.next, count - 1))
  {
  }

  lemma KvsStep(file: seq<byte>, off: nat, count: nat)
    requires off <= |file| && count > 0
    ensures ReadKvs(file, off, count) == match ReadKv(file, off)
                                         case Stop(h) => Stop(h)
                                         case Next(kv, nx) => Prepend([kv], ReadKvs(file, nx, count - 1))
  {
  }

  /** One pass of the kv loop, after the pairs `kvs` read so far. */
  lemma KvsAdvance(file: seq<byte>, off: nat, count: nat, kvs: seq<Kv>)
    requires off <= |file| && count > 0
    ensures ReadKv(file, off).Stop? ==> Prepend(kvs, ReadKvs(file, off, count)) == Stop(ReadKv(file, off).halt)
    ensures ReadKv(file, off).Next? ==>
              Prepend(kvs, ReadKvs(file, off, count)) ==
              Prepend(kvs + [ReadKv(file, off).value], ReadKvs(file, ReadKv(file, off).next, count - 1))
  {
    KvsStep(file, off, count);
    if ReadKv(file, off).Next? {
      PrependAssoc(kvs, [ReadKv(file, off).value], ReadKvs(file, ReadKv(file, off).next, count - 1));
    }
  }

  lemma InfosStep(file: seq<byte>, off: nat, count: nat)
    requires off <= |file| && count > 0
    ensures ReadInfos(file, off, count) == match ReadInfo(file, off)
                                           case Stop(h) => Stop(h)
                                           case Next(info, nx) => Prepend([info], ReadInfos(file, nx, count - 1))
  {
    assert InfosFrom(file, off, count) == InfoPass(file, off, count);
  }

  /**
   * The string-array loop: `ok = ok && gguf_fread_str(...)` for every j < n.  After the first
   * string that fails, the remaining passes read nothing.
   */
  method ReadStrArray(file: seq<byte>, off: nat, n: nat) returns (r: Step<seq<GStr>>)
    requires off <= |file|
    ensures r == ReadStrs(file, off, n)
  {
    var strs: seq<GStr> := [];
    var offset: nat := off;
    var ok := true;
    var j: nat := 0;
    PrependNil(ReadStrs(file, off, n));
    while j < n
      invariant j <= n && offset <= |file|
      invariant ok ==> ReadStrs(file, off, n) == Prepend(strs, ReadStrs(file, offset, n - j))
      invariant !ok ==> ReadStrs(file, off, n) == Stop(Null)
    {
      if ok {
        StrsStep(file, offset, n - j);
        var s := FreadStr(file, offset);
        if s.StrOverflow? {
          return Stop(UndefinedBehaviour);
        }
        if s.StrFail? {
          ok := false;
        } else {
          PrependAssoc(strs, [s.s], ReadStrs(file, s.next, n - j - 1));
          strs, offset := strs + [s.s], s.next;
        }
      }
      j := j + 1;
    }
    if !ok {
      return Stop(Null);
    }
    PrependDone(strs, offset);
    r := Next(strs, offset);
  }

  /** The GGUF_TYPE_ARRAY case of the kv switch. */
  method ReadArrayFields(file: seq<byte>, off: nat) returns (r: Step<Value>)
    requires off <= |file|
    ensures r == ReadArray(file, off)
  {
    var head := ReadArrayHead(file, off);
    if head.Stop? {
      return Stop(head.halt);
    }
    var (et, n) := head.value;
    var guard := ArrayGuard(et, n);
    if guard.Some? {
      return Stop(guard.value);
    }
    if et == GGUF_TYPE_STRING {
      var strs := ReadStrArray(file, head.next, n);
      if strs.Stop? {
        return Stop(strs.halt);
      }
      return Next(Arr(et, n, [], strs.value), strs.next);
    }
    var d := FreadEl(file, head.next, n * TypeSize(et));
    if |d.bytes| < n * TypeSize(et) {
      return Stop(Null);
    }
    r := Next(Arr(et, n, d.bytes, []), d.next);
  }

  /** One pass of the kv loop: key, type, and the switch on the type. */
  method ReadKvFields(file: seq<byte>, off: nat) returns (r: Step<Kv>)
    requires off <= |file|
    ensures r == ReadKv(file, off)
  {
    var key := FreadStr(file, off);
    if key.StrOverflow? {
      return Stop(UndefinedBehaviour);
    }
    if key.StrFail? {
      return Stop(UndefinedBehaviour);
    }
    var ty := FreadEl(file, key.next, 4);
    if |ty.bytes| < 4 {
      return Stop(UndefinedBehaviour);
    }
    var tag := LittleEndian(ty.bytes);
    var v: Step<Value>;
    if tag == GGUF_TYPE_ARRAY {
      v := ReadArrayFields(file, ty.next);
    } else {
      v := ReadValue(file, ty.next, tag);
    }
    if v.Stop? {
      return Stop(v.halt);
    }
    r := Next(Kv(key.s, tag, v.value), v.next);
  }

  /** The extent loop `for j < n_dims: ok = ok && gguf_fread_el(&ne[j])`. */
  method ReadExtents(file: seq<byte>, off: nat, nDims: nat) returns (r: Step<seq<nat>>)
    requires off <= |file|
    ensures r == ReadDims(file, off, nDims)
  {
    var dims: seq<nat> := [];
    var offset: nat := off;
    var j: nat := 0;
    PrependNil(ReadDims(file, off, nDims));
    while j < nDims
      invariant j <= nDims && offset <= |file|
      invariant ReadDims(file, off, nDims) == Prepend(dims, ReadDims(file, offset, nDims - j))
    {
      DimsStep(file, offset, nDims - j);
      var c := FreadEl(file, offset, 8);
      if |c.bytes| < 8 {
        return Stop(UndefinedBehaviour);
      }
      PrependAssoc(dims, [LittleEndian(c.bytes)], ReadDims(file, c.next, nDims - j - 1));
      dims, offset, j := dims + [LittleEndian(c.bytes)], c.next, j + 1;
    }
    PrependDone(dims, offset);
    r := Next(dims, offset);
  }

  /** One pass of the tensor-info loop, up to the sanitize call and the `!ok` check. */
  method ReadInfoFields(file: seq<byte>, off: nat) returns (r: Step<TensorInfo>)
    requires off <= |file|
    ensures r == ReadInfo(file, off)
  {
    var name := FreadStr(file, off);
    if name.StrOverflow? {
      return Stop(UndefinedBehaviour);
    }
    if name.StrFail? {
      return Stop(UndefinedBehaviour);
    }
    var nd := FreadEl(file, name.next, 4);
    if |nd.bytes| < 4 {
      return Stop(UndefinedBehaviour);
    }
    var nDims := LittleEndian(nd.bytes);
    if nDims > GGML_MAX_DIMS {
      return Stop(Abort);
    }
    var dims := ReadExtents(file, nd.next, nDims);
    if dims.Stop? {
      return Stop(dims.halt);
    }
    ReadDimsLength(file, nd.next, nDims);
    var ty := FreadEl(file, dims.next, 4);
    var ofs := FreadEl(file, ty.next, 8);
    if |ty.bytes| < 4 {
      return Stop(UndefinedBehaviour);
    }
    var ne := Extents(dims.value);
    if !Sanitized(nDims, LittleEndian(ty.bytes), ne) {
      return Stop(Abort);
    }
    if |ofs.bytes| < 8 {
      return Stop(Null);
    }
    r := Next(TensorInfo(name.s, nDims, ne, LittleEndian(ty.bytes), LittleEndian(ofs.bytes)), ofs.next);
  }

  /**
   * The kv loop's invariant: the pairs `kvs` read so far, followed by the `left` pairs read
   * from `offset`, are what the whole loop of `count` pairs from `start` reads.
   */
  ghost predicate KvsSoFar(file: seq<byte>, start: nat, count: nat, kvs: seq<Kv>, offset: nat, left: nat)
    requires start <= |file| && offset <= |file|
  {
    ReadKvs(file, start, count) == Prepend(kvs, ReadKvs(file, offset, left))
  }

  /** At the end of the kv loop, the pairs read so far are what the loop reads. */
  lemma KvsSoFarDone(file: seq<byte>, start: nat, count: nat, kvs: seq<Kv>, offset: nat)
    requires start <= |file| && offset <= |file| && KvsSoFar(file, start, count, kvs, offset, 0)
    ensures ReadKvs(file, start, count) == Next(kvs, offset)
  {
    PrependDone(kvs, offset);
  }

  /** One pass of the kv loop, with `left` pairs still to read from `offset`. */
  method KvPass(file: seq<byte>, start: nat, count: nat, kvs: seq<Kv>, offset: nat, left: nat) returns (kv: Step<Kv>)
    requires start <= |file| && offset <= |file| && left > 0
    requires KvsSoFar(file, start, count, kvs, offset, left)
    ensures kv.Stop? ==> ReadKvs(file, start, count) == Stop(kv.halt)
    ensures kv.Next? ==> kv.next <= |file| && KvsSoFar(file, start, count, kvs + [kv.value], kv.next, left - 1)
  {
    kv := ReadKvFields(file, offset);
    KvsAdvance(file, offset, left, kvs);
  }

  /** The kv loop of gguf_init_from_file, with its `if (!ok) break`. */
  method ReadKvSection(file: seq<byte>, off: nat, nKv: nat) returns (r: Step<seq<Kv>>)
    requires off <= |file|
    ensures r == ReadKvs(file, off, nKv)
  {
    var kvs: seq<Kv> := [];
    var offset: nat := off;
    var left: nat := nKv;
    PrependNil(ReadKvs(file, off, nKv));
    while left > 0
      invariant offset <= |file|
      invariant KvsSoFar(file, off, nKv, kvs, offset, left)
    {
      var kv := KvPass(file, off, nKv, kvs, offset, left);
      if kv.Stop? {
        return Stop(kv.halt);
      }
      kvs, offset, left := kvs + [kv.value], kv.next, left - 1;
    }
    KvsSoFarDone(file, off, nKv, kvs, offset);
    r := Next(kvs, offset);
  }

  /**
   * The tensor-info loop's invariant: the infos read so far, followed by the `left` infos read
   * from `offset`, are what the whole loop of `count` infos from `start` reads.
   */
  ghost predicate InfosSoFar(file: seq<byte>, start: nat, count: nat, infos: seq<TensorInfo>, offset: nat, left: nat)
    requires start <= |file| && offset <= |file|
  {
    ReadInfos(file, start, count) == Prepend(infos, ReadInfos(file, offset, left))
  }

  /** At the end of the tensor-info loop, the infos read so far are what the loop reads. */
  lemma InfosSoFarDone(file: seq<byte>, start: nat, count: nat, infos: seq<TensorInfo>, offset: nat)
    requires start <= |file| && offset <= |file| && InfosSoFar(file, start, count, infos, offset, 0)
    ensures ReadInfos(file, start, count) == Next(infos, offset)
  {
    PrependDone(infos, offset);
  }

  /** One pass of the tensor-info loop, with `left` infos still to read from `offset`. */
  method InfoLoopPass(file: seq<byte>, start: nat, count: nat, infos: seq<TensorInfo>, offset: nat, left: nat)
    returns (info: Step<TensorInfo>)
    requires start <= |file| && offset <= |file| && left > 0
    requires InfosSoFar(file, start, count, infos, offset, left)
    ensures info.Stop? ==> ReadInfos(file, start, count) == Stop(info.halt)
    ensures info.Next? ==> info.next <= |file| && InfosSoFar(file, start, count, infos + [info.value], info.next, left - 1)
  {
    InfosStep(file, offset, left);
    info := ReadInfoFields(file, offset);
    if info.Next? {
      PrependAssoc(infos, [info.value], ReadInfos(file, info.next, left - 1));
    }
  }

  /** The tensor-info loop of gguf_init_from_file. */
  method ReadInfoSection(file: seq<byte>, off: nat, nTensors: nat) returns (r: Step<seq<TensorInfo>>)
    requires off <= |file|
    ensures r == ReadInfos(file, off, nTensors)
  {
    var infos: seq<TensorInfo> := [];
    var offset: nat := off;
    var left: nat := nTensors;
    PrependNil(ReadInfos(file, off, nTensors));
    while left > 0
      invariant offset <= |file|
      invariant InfosSoFar(file, off, nTensors, infos, offset, left)
    {
      var info := InfoLoopPass(file, off, nTensors, infos, offset, left);
      if info.Stop? {
        return Stop(info.halt);
      }
      infos, offset, left := infos + [info.value], info.next, left - 1;
    }
    InfosSoFarDone(file, off, nTensors, infos, offset);
    r := Next(infos, offset);
  }

  /** gguf_init_from_file up to the end of the tensor-info loop. */
  method ReadTables(file: seq<byte>) returns (r: Step<Context>)
    ensures r == Tables(file)
  {
    var header := ReadHeader(file);
    if header.Stop? {
      return Stop(header.halt);
    }
    var hd := header.value;
    if hd.nKv == 0 {
      return Stop(Abort);
    }
    var kvs := ReadKvSection(file, header.next, hd.nKv);
    if kvs.Stop? {
      return Stop(kvs.halt);
    }
    if hd.nTensors == 0 {
      return Stop(Abort);
    }
    var infos := ReadInfoSection(file, kvs.next, hd.nTensors);
    if infos.Stop? {
      return Stop(infos.halt);
    }
    r := Next(Context(hd.version, hd.nTensors, hd.nKv, kvs.value, infos.value, GGUF_DEFAULT_ALIGNMENT, 0), infos.next);
  }

  /**
   * The rest of gguf_init_from_file: the alignment lookup through gguf_find_key, and the
   * padding of the offset.
   */
  method FinishContext(ctx: Context, end: nat) returns (r: Outcome)
    requires Valid(ctx)
    ensures r == Finish(ctx, end)
  {
    var alignment := GGUF_DEFAULT_ALIGNMENT;
    var idx := FindKey(ctx, ALIGNMENT_KEY);
    if idx != -1 {
      var v := GetVal(ctx, idx, GGUF_TYPE_UINT32);
      if v.Err? {
        return Halted(Abort);
      }
      alignment := v.value;
    }
    if alignment == 0 {
      return Halted(UndefinedBehaviour);
    }
    var offset := end;
    var pad := offset % alignment;
    if pad != 0 {
      offset := offset + (alignment - pad);
    }
    r := Loaded(ctx.(alignment := alignment, offset := offset));
  }

  /** gguf_init_from_file up to `ctx->offset = offset`. */
  method InitFromFile(file: seq<byte>) returns (r: Outcome)
    ensures r == Load(file)
  {
    var tables := ReadTables(file);
    if tables.Stop? {
      return Halted(tables.halt);
    }
    r := FinishContext(tables.value, tables.next);
  }

  // ---------------------------------------------------------------- LLama_mmap::align_range

  /**
   * LLama_mmap::align_range(&first, &last, page_size) on size_t values, for a page size that
   * is a power of two: first moves up to the next page boundary (the size_t sum wraps past
   * SIZE_MAX), last moves down to the previous one, and last is raised to first when it fell
   * at or below it.  When the rounded-up first fits in size_t, both ends are page boundaries.
   */
  method AlignRange(first: nat, last: nat, pageSize: nat) returns (newFirst: nat, newLast: nat)
    requires first < Pow2(WORD_BITS) && last < Pow2(WORD_BITS)
    requires IsPowerOfTwo(pageSize) && pageSize < Pow2(WORD_BITS)
    ensures newFirst == RoundUp(first, pageSize) % Pow2(WORD_BITS)
    ensures newLast == if last / pageSize * pageSize <= newFirst then newFirst else last / pageSize * pageSize
    ensures newFirst <= newLast < Pow2(WORD_BITS)
    ensures newLast == newFirst || newLast <= last
    ensures RoundUp(first, pageSize) < Pow2(WORD_BITS) ==>
              first <= newFirst < first + pageSize && newFirst % pageSize == 0 && newLast % pageSize == 0
  {
    var k := Log2(pageSize);
    Pow2Below(k, WORD_BITS);
    var offsetInPage := BitAnd(first, pageSize - 1);
    BitAndLowMask(first, k);
    var offsetToPage := if offsetInPage == 0 then 0 else pageSize - offsetInPage;
    newFirst := (first + offsetToPage) % Pow2(WORD_BITS);

    // ~(page_size - 1) is the word 2^64 - page_size.
    var lastAligned := BitAnd(last, Pow2(WORD_BITS) - pageSize);
    BitAndHighMask(last, WORD_BITS, k);
    newLast := lastAligned;
    if newLast <= newFirst {
      newLast := newFirst;
    }
    AlignedEnds(first, last, pageSize, Pow2(WORD_BITS), newFirst, lastAligned, newLast);
  }

  /** The arithmetic of align_range, for a page size p below the word modulus m. */
  lemma AlignedEnds(first: nat, last: nat, p: nat, m: nat, newFirst: nat, lastAligned: nat, newLast: nat)
    requires 0 < p < m && first < m && last < m
    requires newFirst == PadOffset(first, p) % m
    requires lastAligned == last / p * p
    requires newLast == if lastAligned <= newFirst then newFirst else lastAligned
    ensures newFirst == RoundUp(first, p) % m
    ensures newFirst <= newLast < m
    ensures newLast == newFirst || newLast <= last
    ensures RoundUp(first, p) < m ==> first <= newFirst < first + p && newFirst % p == 0 && newLast % p == 0
  {
    PadOffsetRoundsUp(first, p);
    RoundDown(last, p);
    if RoundUp(first, p) < m {
      DivUnique(PadOffset(first, p), m, 0, PadOffset(first, p));
    }
  }

  // ---------------------------------------------------------------- what a loaded context satisfies

  /** The padded offset is the first multiple of the alignment at or after the offset. */
  lemma PadOffsetRoundsUp(offset: nat, alignment: nat)
    requires alignment > 0
    ensures PadOffset(offset, alignment) == RoundUp(offset, alignment)
    ensures PadOffset(offset, alignment) % alignment == 0
    ensures offset <= PadOffset(offset, alignment) < offset + alignment
  {
    var q, m := offset / alignment, offset % alignment;
    if m == 0 {
      DivUnique(offset + alignment - 1, alignment, q, alignment - 1);
    } else {
      DivUnique(offset + alignment - 1, alignment, q + 1, m - 1);
    }
  }

  /** A sanitized tensor has fewer than 2^63 elements: the count fits int64. */
  lemma SanitizedCountFits(nDims: nat, ggmlType: nat, ne: seq<nat>)
    requires |ne| == GGML_MAX_DIMS && Sanitized(nDims, ggmlType, ne)
    requires forall i :: nDims <= i < GGML_MAX_DIMS ==> ne[i] == 1
    ensures ne[0] * ne[1] * ne[2] * ne[3] <= INT64_MAX
    ensures forall i :: 0 <= i < GGML_MAX_DIMS ==> ne[i] > 0
  {
    QuotientBound(INT64_MAX, ne[1], ne[0]);
    QuotientBound(INT64_MAX, ne[2], ne[0] * ne[1]);
    QuotientBound(INT64_MAX, ne[3], ne[0] * ne[1] * ne[2]);
  }

  /** x < m / d means x * d fits below m. */
  lemma QuotientBound(m: nat, d: nat, x: nat)
    requires d > 0 && m / d > x
    ensures x * d < m
  {
    var q := m / d;
    assert x + 1 <= q;
    assert (x + 1) * d <= q * d;
    assert q * d <= m;
  }

  /**
   * A context the loader returns: valid, with at least one key and one tensor, every kv
   * loaded and every tensor sanitized; the file starts with the magic; the alignment is not
   * zero, and the data offset is the end of the tensor infos rounded up to it.
   */
  lemma LoadedContext(file: seq<byte>)
    requires Load(file).Loaded?
    ensures var ctx := Load(file).ctx;
            && Tables(file).Next?
            && Valid(ctx) && ctx.nKv > 0 && ctx.nTensors > 0 && ctx.version != 1
            && AllLoaded(ctx.kv) && AllInfosLoaded(ctx.infos)
            && ctx.alignment > 0
            && ctx.offset == RoundUp(Tables(file).next, ctx.alignment)
            && ctx.offset % ctx.alignment == 0
            && Tables(file).next <= ctx.offset < Tables(file).next + ctx.alignment
  {
    var t := Tables(file);
    PadOffsetRoundsUp(t.next, Load(file).ctx.alignment);
  }

  /**
   * The alignment is GGUF_DEFAULT_ALIGNMENT unless one of the searched keys is
   * "general.alignment"; then the first such key holds a u32 and that value is the alignment.
   */
  lemma LoadedAlignment(file: seq<byte>)
    requires Load(file).Loaded?
    ensures var t := Tables(file).value;
            var keys := Keys(t)[..KeyBound(t)];
            var ctx := Load(file).ctx;
            && (CStr(ALIGNMENT_KEY) !in keys ==> ctx.alignment == GGUF_DEFAULT_ALIGNMENT)
            && (CStr(ALIGNMENT_KEY) in keys ==>
                  var k := FirstIndex(keys, CStr(ALIGNMENT_KEY));
                  ctx.kv[k].tag == GGUF_TYPE_UINT32 && ctx.alignment == ctx.kv[k].value.bits)
  {
  }

  /** A file of four or more bytes that does not start with the magic returns NULL. */
  lemma BadMagicIsNull(file: seq<byte>)
    requires |file| >= 4 && file[..4] != GGUF_MAGIC
    ensures Load(file) == Halted(Null)
  {
  }

  /** Version 1 files are refused with NULL once the magic matches. */
  lemma Version1IsNull(file: seq<byte>)
    requires |file| >= 8 && file[..4] == GGUF_MAGIC && LittleEndian(file[4..8]) == 1
    ensures Load(file) == Halted(Null)
  {
  }

  /** A header with no kv pairs, or kv pairs followed by no tensors, fails the allocator's M_ASSERT. */
  lemma EmptySectionIsAbort(file: seq<byte>)
    requires ReadHeader(file).Next?
    requires ReadHeader(file).value.nKv == 0
             || (ReadKvs(file, ReadHeader(file).next, ReadHeader(file).value.nKv).Next?
                 && ReadHeader(file).value.nTensors == 0)
    ensures Load(file) == Halted(Abort)
  {
  }

  /**
   * Once the tables are read, a "general.alignment" key among the searched ones whose tag is not
   * UINT32 fails gguf_get_val_u32's M_ASSERT, and a u32 alignment of zero divides by zero.
   */
  lemma AlignmentFailures(file: seq<byte>)
    requires Tables(file).Next?
    ensures var t := Tables(file).value;
            var keys := Keys(t)[..KeyBound(t)];
            var k := FirstIndex(keys, CStr(ALIGNMENT_KEY));
            && (k >= 0 && t.kv[k].tag != GGUF_TYPE_UINT32 ==> Load(file) == Halted(Abort))
            && (k >= 0 && t.kv[k].tag == GGUF_TYPE_UINT32 && t.kv[k].value.bits == 0 ==>
                  Load(file) == Halted(UndefinedBehaviour))
  {
  }

  /** The keys and tensor infos are those of the tables; only alignment and offset are new. */
  lemma LoadedKeepsTables(file: seq<byte>)
    requires Load(file).Loaded?
    ensures Tables(file).Next?
    ensures Load(file).ctx == Tables(file).value.(alignment := Load(file).ctx.alignment,
                                                  offset := Load(file).ctx.offset)
  {
  }
}
