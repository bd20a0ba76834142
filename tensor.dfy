/**
 * minfer::Tensor (src/core/tensor.cpp): a shape, a data type and a host buffer, allocated with
 * MMemoryAllocAlign when the caller gives none.
 */
module CoreTensor {
  import opened Arith
  import opened Bytes
  import opened Define
  import opened MemoryUtils
  import opened Shape

  /** Tensor::DataType values used here. */
  const DT_INVALID: nat := 0
  const DT_FLOAT: nat := 1

  /** Tensor::MemeoryType HOST_MEMORY. */
  const HOST_MEMORY: nat := 0

  /** sizeof(float). */
  const FLOAT_SIZE: nat := 4

  /** total's first dimension: -1 stands for 0. */
  function StartOf(start: int): int
  {
    if start == -1 then 0 else start
  }

  /** total's end dimension: -1 stands for the rank. */
  function EndOf(end: int, dims: nat): int
  {
    if end == -1 then dims else end
  }

  /** The dimensions total(start, end) reads lie inside the shape. */
  predicate InShape(shape: seq<int>, start: int, end: int)
  {
    shape == [] || StartOf(start) >= EndOf(end, |shape|)
    || (0 <= StartOf(start) && EndOf(end, |shape|) <= |shape|)
  }

  class Tensor {
    var shape: seq<int>
    /** Address of the buffer; 0 for none. */
    var data: nat
    var dType: nat
    var mType: nat

    /** Tensor(): no shape, no data, type DT_INVALID, host memory. */
    constructor()
      ensures shape == [] && data == 0 && dType == DT_INVALID && mType == HOST_MEMORY
    {
      shape := [];
      data := 0;
      dType := DT_INVALID;
      mType := HOST_MEMORY;
    }

    /**
     * total(start, end): 0 for an empty shape (not 1, as for a Mat); otherwise the product
     * of the extents from start (-1: the first) up to end (-1: the rank), 1 when that range
     * is empty.
     */
    method Total(start: int, end: int) returns (elems: int)
      requires InShape(shape, start, end)
      ensures shape == [] ==> elems == 0
      ensures shape != [] ==>
                var s, e := StartOf(start), EndOf(end, |shape|);
                elems == (if s < e then Product(shape[s..e]) else 1)
    {
      if shape == [] {
        return 0;
      }
      var dims := |shape|;
      var s, e := start, end;
      if s == -1 {
        s := 0;
      }
      if e == -1 {
        e := dims;
      }
      elems := 1;
      var i := s;
      while i < e
        invariant i == s || s < i <= e
        invariant elems == (if s < i then Product(shape[s..i]) else 1)
      {
        ProductExtend(shape, s, i);
        elems := elems * shape[i];
        i := i + 1;
      }
    }

    /**
     * Tensor(shape, type, data): only DT_FLOAT is supported.  Without a buffer, total()*4
     * bytes are taken from MMemoryAllocAlign with the default alignment, at the raw block
     * `origin` malloc returns; a given buffer is kept.
     */
    constructor Make(newShape: seq<int>, newType: nat, ptr: nat, mem: AlignedMemory, origin: nat)
      requires newType == DT_FLOAT
      requires ptr == 0 ==> newShape != [] && Product(newShape) > 0
      requires ptr == 0 && CheckedRawRequest(FLOAT_SIZE * Product(newShape), MEMORY_ALIGN_DEFAULT).Some? ==>
                 mem.FreshBlock(origin, CheckedRawRequest(FLOAT_SIZE * Product(newShape), MEMORY_ALIGN_DEFAULT).value)
      modifies mem
      ensures shape == newShape && dType == newType && mType == HOST_MEMORY
      ensures ptr != 0 ==> data == ptr && mem.blocks == old(mem.blocks) && mem.words == old(mem.words)
      ensures ptr == 0 ==>
                var n := FLOAT_SIZE * Product(newShape);
                && (CheckedRawRequest(n, MEMORY_ALIGN_DEFAULT).None? || origin == 0 ==> data == 0)
                && (CheckedRawRequest(n, MEMORY_ALIGN_DEFAULT).Some? && origin != 0 ==>
                      data == AlignPointer(origin + POINTER_SIZE, MEMORY_ALIGN_DEFAULT)
                      && data % MEMORY_ALIGN_DEFAULT == 0
                      && mem.blocks == old(mem.blocks)[origin := CheckedRawRequest(n, MEMORY_ALIGN_DEFAULT).value])
    {
      shape := newShape;
      data := ptr;
      dType := newType;
      mType := HOST_MEMORY;
      new;
      if data == 0 {
        var total := Total(-1, -1);
        assert newShape[0..|newShape|] == newShape;
        DefaultAlignIsPowerOfTwo();
        var aligned := mem.AllocAlign(total * FLOAT_SIZE, MEMORY_ALIGN_DEFAULT, origin);
        data := aligned;
      }
    }
  }
}
