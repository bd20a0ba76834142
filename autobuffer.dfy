/**
 * src/core/autobuffer.h: AutoBuffer<T>, a buffer of mSize elements that frees its memory
 * itself, and RefCount, an intrusive reference count that deletes its object at zero.
 *
 * The memory comes from MMemoryAllocAlign and goes back through MMemoryFreeAlign, modelled
 * by MemoryUtils.AlignedMemory; sizeof(T) is the parameter `elemSize`.  The elements of the
 * buffer are one integer each.
 */
module CoreAutoBuffer {
  import opened MemoryUtils

  /** A pointer MMemoryFreeAlign accepts: null, or one whose header word names a live raw block. */
  predicate Freeable(mem: AlignedMemory, p: nat)
    reads mem
  {
    p != 0 ==> p >= POINTER_SIZE && p - POINTER_SIZE in mem.words && mem.words[p - POINTER_SIZE] in mem.blocks
  }

  /** n elements of value 0. */
  function Zeros(n: nat): (r: seq<int>)
    ensures |r| == n && forall i :: 0 <= i < n ==> r[i] == 0
  {
    if n == 0 then [] else Zeros(n - 1) + [0]
  }

  class AutoBuffer {
    /** mSize. */
    var size: nat
    /** mData; 0 for none. */
    var data: nat
    /** The mSize elements at mData. */
    var elems: seq<int>

    /** AutoBuffer(): size 0 and no data. */
    constructor Empty()
      ensures size == 0 && data == 0 && elems == []
    {
      size := 0;
      data := 0;
      elems := [];
    }

    /**
     * AutoBuffer(size): sizeof(T) * size bytes from MMemoryAllocAlign with the default
     * alignment, at the raw block `origin` malloc returns; mSize is size even when the
     * allocation fails; the aligned buffer lies inside the raw block, with `origin` in the word
     * below it.  The new elements are whatever the block held, `initial`.
     */
    constructor (n: nat, elemSize: nat, mem: AlignedMemory, origin: nat, initial: seq<int>)
      requires n > 0 && elemSize > 0 && |initial| == n
      requires CheckedRawRequest(elemSize * n, MEMORY_ALIGN_DEFAULT).Some? ==>
                 mem.FreshBlock(origin, CheckedRawRequest(elemSize * n, MEMORY_ALIGN_DEFAULT).value)
      modifies mem
      ensures size == n && elems == initial
      ensures var r := CheckedRawRequest(elemSize * n, MEMORY_ALIGN_DEFAULT);
              && (r.None? || origin == 0 ==>
                    data == 0 && mem.blocks == old(mem.blocks) && mem.words == old(mem.words))
              && (r.Some? && origin != 0 ==>
                    origin + POINTER_SIZE <= data && data % MEMORY_ALIGN_DEFAULT == 0
                    && data + elemSize * n <= origin + r.value
                    && mem.blocks == old(mem.blocks)[origin := r.value]
                    && mem.words == old(mem.words)[data - POINTER_SIZE := origin])
      ensures Freeable(mem, data)
    {
      DefaultAlignIsPowerOfTwo();
      var p := mem.AllocAlign(elemSize * n, MEMORY_ALIGN_DEFAULT, origin);
      data := p;
      size := n;
      elems := initial;
    }

    /** size(). */
    function Size(): nat
      reads this
    {
      size
    }

    /**
     * set(d, n): the old buffer is freed unless it is null or d itself; then the buffer is
     * d with n elements, `contents`.
     */
    method Set(d: nat, n: nat, contents: seq<int>, mem: AlignedMemory)
      requires Freeable(mem, data) && |contents| == n
      modifies this, mem
      ensures data == d && size == n && elems == contents
      ensures old(data) != 0 && old(data) != d ==>
                mem.blocks == old(mem.blocks) - {old(mem.words)[old(data) - POINTER_SIZE]}
      ensures old(data) == 0 || old(data) == d ==> mem.blocks == old(mem.blocks)
      ensures mem.words == old(mem.words)
    {
      if data != 0 && data != d {
        mem.FreeAlign(data);
      }
      data := d;
      size := n;
      elems := contents;
    }

    /** release(): a non-null buffer is freed, and the buffer left null and empty. */
    method Release(mem: AlignedMemory)
      requires Freeable(mem, data)
      modifies this, mem
      ensures old(data) != 0 ==>
                data == 0 && size == 0 && elems == []
                && mem.blocks == old(mem.blocks) - {old(mem.words)[old(data) - POINTER_SIZE]}
      ensures old(data) == 0 ==>
                data == 0 && size == old(size) && elems == old(elems) && mem.blocks == old(mem.blocks)
      ensures mem.words == old(mem.words)
    {
      if data != 0 {
        mem.FreeAlign(data);
        data := 0;
        size := 0;
        elems := [];
      }
    }

    /** clear(): memset of mSize * sizeof(T) bytes: every one of the mSize elements is 0. */
    method Clear()
      modifies this
      ensures elems == Zeros(size)
      ensures size == old(size) && data == old(data)
    {
      elems := Zeros(size);
    }

    /** ~AutoBuffer(): a non-null buffer goes back to the system. */
    method Destroy(mem: AlignedMemory)
      requires Freeable(mem, data)
      modifies mem
      ensures data != 0 ==> mem.blocks == old(mem.blocks) - {old(mem.words)[data - POINTER_SIZE]}
      ensures data == 0 ==> mem.blocks == old(mem.blocks)
    {
      if data != 0 {
        mem.FreeAlign(data);
      }
    }
  }

  /** An allocated buffer holds its block until it is destroyed, and then the heap is as before. */
  method AllocateThenDestroy(n: nat, elemSize: nat, mem: AlignedMemory, origin: nat, initial: seq<int>)
    requires n > 0 && elemSize > 0 && |initial| == n
    requires CheckedRawRequest(elemSize * n, MEMORY_ALIGN_DEFAULT).Some? ==>
               mem.FreshBlock(origin, CheckedRawRequest(elemSize * n, MEMORY_ALIGN_DEFAULT).value)
    modifies mem
    ensures mem.blocks == old(mem.blocks)
  {
    var buffer := new AutoBuffer(n, elemSize, mem, origin, initial);
    ghost var held := mem.blocks;
    buffer.Destroy(mem);
    if buffer.data != 0 {
      assert mem.blocks == held - {origin};
      assert mem.blocks == old(mem.blocks);
    }
  }

  /**
   * RefCount: mNum starts at 1; addRef adds one; decRef takes one away and deletes the object
   * once the count is at most 0.  cout() reads the count.
   */
  class RefCount {
    /** mNum. */
    var num: int
    /** Whether decRef has run `delete this`. */
    var deleted: bool

    /** RefCount(): one reference. */
    constructor ()
      ensures num == 1 && !deleted
    {
      num := 1;
      deleted := false;
    }

    /** RefCount(f): the count of f. */
    constructor Copy(f: RefCount)
      ensures num == f.num && !deleted
    {
      num := f.num;
      deleted := false;
    }

    /** operator=(f): the count of f, unless f is this object. */
    method Assign(f: RefCount)
      modifies this
      ensures num == old(f.num) && deleted == old(deleted)
    {
      if this != f {
        num := f.num;
      }
    }

    /** cout(). */
    function Count(): int
      reads this
    {
      num
    }

    /** addRef(). */
    method AddRef()
      requires !deleted
      modifies this
      ensures num == old(num) + 1 && !deleted
    {
      num := num + 1;
    }

    /** decRef(): the object is deleted exactly when the new count is at most 0. */
    method DecRef()
      requires !deleted
      modifies this
      ensures num == old(num) - 1
      ensures deleted <==> num <= 0
    {
      num := num - 1;
      if 0 >= num {
        deleted := true;
      }
    }
  }

  /**
   * A new count shared k more times and then dropped k times is still alive with one
   * reference; the last decRef deletes it.
   */
  method ShareThenDrop(k: nat) returns (r: RefCount, aliveAfterDrops: bool)
    ensures aliveAfterDrops && r.deleted && r.num == 0
  {
    r := new RefCount();
    var i := 0;
    while i < k
      invariant 0 <= i <= k && r.num == 1 + i && !r.deleted
    {
      r.AddRef();
      i := i + 1;
    }
    while i > 0
      invariant 0 <= i <= k && r.num == 1 + i && !r.deleted
    {
      r.DecRef();
      i := i - 1;
    }
    aliveAfterDrops := !r.deleted && r.num == 1;
    r.DecRef();
  }
}
