/**
 * Aligned allocation with a header word (src/core/memory_utils.cpp): the raw block comes
 * from malloc/calloc, the returned pointer is rounded up to the alignment past one pointer
 * word, and that word, just below the returned pointer, remembers the raw block.
 */
module MemoryUtils {
  import opened Wrappers
  import opened Bytes
  import opened Arith
  import opened Define

  /** sizeof(void *). */
  const POINTER_SIZE: nat := 8

  /** M_MEMORY_ALIGN_DEFAULT. */
  const MEMORY_ALIGN_DEFAULT: nat := 64

  /** The default alignment is a power of two. */
  lemma DefaultAlignIsPowerOfTwo()
    ensures IsPowerOfTwo(MEMORY_ALIGN_DEFAULT)
  {
    assert IsPowerOfTwo(1);
    assert IsPowerOfTwo(2);
    assert IsPowerOfTwo(4);
    assert IsPowerOfTwo(8);
    assert IsPowerOfTwo(16);
    assert IsPowerOfTwo(32);
  }

  /** alignPointer(ptr, alignment): (ptr + alignment - 1) & -alignment on a 64-bit address. */
  function AlignPointer(ptr: nat, alignment: nat): nat
    requires ptr < Pow2(WORD_BITS) && 0 < alignment < Pow2(WORD_BITS)
  {
    PadBits(WORD_BITS, ptr, alignment)
  }

  /**
   * For a power-of-two alignment and an address that does not wrap, alignPointer gives the
   * multiple of the alignment in [ptr, ptr + alignment): the least one at or above ptr.
   */
  lemma AlignPointerRoundsUp(ptr: nat, alignment: nat)
    requires IsPowerOfTwo(alignment) && alignment < Pow2(WORD_BITS)
    requires ptr + alignment - 1 < Pow2(WORD_BITS)
    ensures AlignPointer(ptr, alignment) % alignment == 0
    ensures ptr <= AlignPointer(ptr, alignment) < ptr + alignment
  {
    var k := Log2(alignment);
    if k >= WORD_BITS {
      Pow2Mono(WORD_BITS, k);
    }
    MPadRoundsUp(ptr, k);
  }

  /** The byte count passed to malloc, `size + sizeof(void *) + alignment` in size_t. */
  function RawRequest(size: nat, alignment: nat): (r: nat)
    ensures r < Pow2(WORD_BITS)
    ensures r == size + POINTER_SIZE + alignment <==> size + POINTER_SIZE + alignment < Pow2(WORD_BITS)
  {
    var n, w := size + POINTER_SIZE + alignment, Pow2(WORD_BITS);
    if n < w then DivUnique(n, w, 0, n); n % w else n % w
  }

  /**
   * The same request, refused when the sum does not fit in size_t (the check the source
   * lacks).
   */
  function CheckedRawRequest(size: nat, alignment: nat): (r: Option<nat>)
    ensures r.Some? <==> size + POINTER_SIZE + alignment < Pow2(WORD_BITS)
    ensures r.Some? ==> r.value == size + POINTER_SIZE + alignment
  {
    if size + POINTER_SIZE + alignment < Pow2(WORD_BITS) then
      Some(size + POINTER_SIZE + alignment)
    else
      None
  }

  /**
   * When the request does not wrap, the aligned block of `size` bytes and the header word
   * below it lie inside the raw block [origin, origin + request).
   */
  lemma AlignedBlockFits(origin: nat, size: nat, alignment: nat)
    requires IsPowerOfTwo(alignment) && 0 < origin
    requires CheckedRawRequest(size, alignment).Some?
    requires origin + CheckedRawRequest(size, alignment).value <= Pow2(WORD_BITS)
    ensures AlignPointer(origin + POINTER_SIZE, alignment) % alignment == 0
    ensures origin + POINTER_SIZE <= AlignPointer(origin + POINTER_SIZE, alignment)
    ensures AlignPointer(origin + POINTER_SIZE, alignment) + size
         <= origin + CheckedRawRequest(size, alignment).value
    ensures RawRequest(size, alignment) == CheckedRawRequest(size, alignment).value
  {
    AlignPointerRoundsUp(origin + POINTER_SIZE, alignment);
    var n := size + POINTER_SIZE + alignment;
    DivUnique(n, Pow2(WORD_BITS), 0, n);
  }

  /**
   * As written the request wraps for sizes near SIZE_MAX: malloc is asked for a few bytes
   * and the aligned pointer then lies past the end of that block.
   */
  lemma RawRequestWraps()
    ensures var size := Pow2(WORD_BITS) - POINTER_SIZE;
            RawRequest(size, MEMORY_ALIGN_DEFAULT) == MEMORY_ALIGN_DEFAULT
            && CheckedRawRequest(size, MEMORY_ALIGN_DEFAULT).None?
            && MEMORY_ALIGN_DEFAULT < size
  {
    var w := Pow2(WORD_BITS);
    assert w >= 2 * MEMORY_ALIGN_DEFAULT by {
      Pow2Mono(7, WORD_BITS);
      assert Pow2(7) == 128;
    }
    var n := w - POINTER_SIZE + POINTER_SIZE + MEMORY_ALIGN_DEFAULT;
    DivUnique(n, w, 1, MEMORY_ALIGN_DEFAULT);
  }

  /**
   * The process heap as the allocators see it: the raw blocks handed out by malloc/calloc
   * and the pointer words the allocators have stored.
   */
  class AlignedMemory {
    /** Live raw blocks: address returned by malloc/calloc -> byte count. */
    var blocks: map<nat, nat>
    /** Pointer-sized words written by the allocators: address -> stored pointer. */
    var words: map<nat, nat>

    constructor()
      ensures blocks == map[] && words == map[]
    {
      blocks := map[];
      words := map[];
    }

    /**
     * A malloc result for a request of n bytes: null, or a fresh block whose bytes (and the
     * header word just past its start) are addressable.
     */
    predicate FreshBlock(origin: nat, n: nat)
      reads this
    {
      origin == 0 || (origin !in blocks && origin + n <= Pow2(WORD_BITS)
                      && origin + POINTER_SIZE < Pow2(WORD_BITS))
    }

    /**
     * Record the raw block and store `origin` in the word below the aligned pointer
     * (src/core/memory_utils.cpp:19-21 and 36-38).
     */
    method Place(origin: nat, n: nat, alignment: nat) returns (aligned: nat)
      requires 0 < origin && IsPowerOfTwo(alignment)
      requires origin + POINTER_SIZE + alignment <= Pow2(WORD_BITS)
      modifies this
      ensures aligned == AlignPointer(origin + POINTER_SIZE, alignment)
      ensures aligned % alignment == 0
      ensures origin + POINTER_SIZE <= aligned < origin + POINTER_SIZE + alignment
      ensures blocks == old(blocks)[origin := n]
      ensures words == old(words)[aligned - POINTER_SIZE := origin]
    {
      AlignPointerRoundsUp(origin + POINTER_SIZE, alignment);
      aligned := AlignPointer(origin + POINTER_SIZE, alignment);
      blocks := blocks[origin := n];
      words := words[aligned - POINTER_SIZE := origin];
    }

    /**
     * MMemoryAllocAlign(size, alignment): `origin` is what malloc returns for the raw
     * request.  The request is checked against size_t overflow first (see RawRequestWraps).
     */
    method AllocAlign(size: nat, alignment: nat, origin: nat) returns (aligned: nat)
      requires size > 0 && IsPowerOfTwo(alignment)
      requires CheckedRawRequest(size, alignment).Some? ==>
                 FreshBlock(origin, CheckedRawRequest(size, alignment).value)
      modifies this
      ensures CheckedRawRequest(size, alignment).None? || origin == 0 ==>
                aligned == 0 && blocks == old(blocks) && words == old(words)
      ensures CheckedRawRequest(size, alignment).Some? && origin != 0 ==>
                var n := CheckedRawRequest(size, alignment).value;
                aligned == AlignPointer(origin + POINTER_SIZE, alignment)
                && aligned % alignment == 0
                && origin + POINTER_SIZE <= aligned && aligned + size <= origin + n
                && blocks == old(blocks)[origin := n]
                && words == old(words)[aligned - POINTER_SIZE := origin]
    {
      var request := CheckedRawRequest(size, alignment);
      if request.None? || origin == 0 {
        return 0;
      }
      AlignedBlockFits(origin, size, alignment);
      aligned := Place(origin, request.value, alignment);
    }

    /** MMemoryCallocAlign(size, alignment): as AllocAlign, with calloc's zeroed block. */
    method CallocAlign(size: nat, alignment: nat, origin: nat) returns (aligned: nat)
      requires size > 0 && IsPowerOfTwo(alignment)
      requires CheckedRawRequest(size, alignment).Some? ==>
                 FreshBlock(origin, CheckedRawRequest(size, alignment).value)
      modifies this
      ensures CheckedRawRequest(size, alignment).None? || origin == 0 ==>
                aligned == 0 && blocks == old(blocks) && words == old(words)
      ensures CheckedRawRequest(size, alignment).Some? && origin != 0 ==>
                var n := CheckedRawRequest(size, alignment).value;
                aligned == AlignPointer(origin + POINTER_SIZE, alignment)
                && aligned % alignment == 0
                && origin + POINTER_SIZE <= aligned && aligned + size <= origin + n
                && blocks == old(blocks)[origin := n]
                && words == old(words)[aligned - POINTER_SIZE := origin]
    {
      var request := CheckedRawRequest(size, alignment);
      if request.None? || origin == 0 {
        return 0;
      }
      AlignedBlockFits(origin, size, alignment);
      aligned := Place(origin, request.value, alignment);
    }

    /**
     * MMemoryFreeAlign(aligned): null is ignored; otherwise the raw block whose address is
     * stored just below `aligned` goes back to the system.
     */
    method FreeAlign(aligned: nat)
      requires aligned != 0 ==>
                 aligned >= POINTER_SIZE && aligned - POINTER_SIZE in words
                 && words[aligned - POINTER_SIZE] in blocks
      modifies this
      ensures aligned == 0 ==> blocks == old(blocks)
      ensures aligned != 0 ==> blocks == old(blocks) - {old(words)[aligned - POINTER_SIZE]}
      ensures words == old(words)
    {
      if aligned != 0 {
        var origin := words[aligned - POINTER_SIZE];
        blocks := blocks - {origin};
      }
    }

    /** Freeing what AllocAlign returned gives back exactly the block it took. */
    method AllocThenFree(size: nat, alignment: nat, origin: nat) returns (aligned: nat)
      requires size > 0 && IsPowerOfTwo(alignment)
      requires CheckedRawRequest(size, alignment).Some? ==>
                 FreshBlock(origin, CheckedRawRequest(size, alignment).value)
      modifies this
      ensures blocks == old(blocks)
    {
      aligned := AllocAlign(size, alignment, origin);
      FreeAlign(aligned);
    }
  }
}
