/**
 * minfer::Allocator (src/core/allocator.cpp): a size-keyed pool.  Blocks handed out are kept
 * in a used list; freed blocks go to a free list and are handed out again to a request they
 * fit, the smallest first.
 *
 * The two std::multimap<size_t, void*> lists are sequences of (size, pointer) entries in the
 * multimap's iteration order: sorted by size, an inserted entry placed after every entry of
 * the same size.  Pointers are natural numbers (0 is null).  The implementation behind
 * allocImpl is DefaultAllocatorImpl; the address its MMemoryAllocAlign call returns is the
 * parameter `obtained` of the method that allocates.
 */
module CoreAllocator {
  import opened Define

  /** A list entry, or an allocation result: a size and a pointer. */
  datatype Block = Block(size: nat, ptr: nat)

  /** The multimap order: sizes never decrease along the list. */
  predicate Sorted(list: seq<Block>)
  {
    forall i, j {:trigger list[i].size, list[j].size} :: 0 <= i < j < |list| ==> list[i].size <= list[j].size
  }

  // ---------------------------------------------------------------- multimap operations

  /** lower_bound(key): the first position whose size is at least key (|list| for none). */
  function LowerBound(list: seq<Block>, key: nat): (k: nat)
    ensures k <= |list|
  {
    if list == [] then 0 else if list[0].size >= key then 0 else 1 + LowerBound(list[1..], key)
  }

  /** upper_bound(key): the first position whose size exceeds key, where insert places a new entry. */
  function UpperBound(list: seq<Block>, key: nat): (k: nat)
    ensures k <= |list|
  {
    if list == [] then 0 else if list[0].size > key then 0 else 1 + UpperBound(list[1..], key)
  }

  /** multimap::insert: the entry goes after every entry of a size at most its own. */
  function Insert(list: seq<Block>, b: Block): seq<Block>
  {
    var k := UpperBound(list, b.size);
    list[..k] + [b] + list[k..]
  }

  /** erase(iterator): the entry at position i leaves the list. */
  function RemoveAt(list: seq<Block>, i: nat): seq<Block>
    requires i < |list|
  {
    list[..i] + list[i + 1..]
  }

  /** The position of the last entry holding ptr, or -1. */
  function LastIndexOf(list: seq<Block>, ptr: nat): (r: int)
    ensures -1 <= r < |list|
  {
    if list == [] then -1
    else if list[|list| - 1].ptr == ptr then |list| - 1
    else LastIndexOf(list[..|list| - 1], ptr)
  }

  /** The sizes of the entries with a null pointer, added up. */
  function NullSize(list: seq<Block>): nat
  {
    if list == [] then 0
    else NullSize(list[..|list| - 1]) + (if list[|list| - 1].ptr == 0 then list[|list| - 1].size else 0)
  }

  /** lower_bound: every entry before the position is smaller than key, the one at it is not. */
  lemma {:induction false} LowerBoundSpec(list: seq<Block>, key: nat)
    ensures forall i :: 0 <= i < LowerBound(list, key) ==> list[i].size < key
    ensures LowerBound(list, key) < |list| ==> list[LowerBound(list, key)].size >= key
  {
    if list != [] && list[0].size < key {
      LowerBoundSpec(list[1..], key);
      forall i | 0 <= i < LowerBound(list, key) ensures list[i].size < key {
        if i > 0 {
          assert list[i] == list[1..][i - 1];
        }
      }
    }
  }

  /** upper_bound: every entry before the position is at most key, the one at it exceeds it. */
  lemma {:induction false} UpperBoundSpec(list: seq<Block>, key: nat)
    ensures forall i :: 0 <= i < UpperBound(list, key) ==> list[i].size <= key
    ensures UpperBound(list, key) < |list| ==> list[UpperBound(list, key)].size > key
  {
    if list != [] && list[0].size <= key {
      UpperBoundSpec(list[1..], key);
      forall i | 0 <= i < UpperBound(list, key) ensures list[i].size <= key {
        if i > 0 {
          assert list[i] == list[1..][i - 1];
        }
      }
    }
  }

  /**
   * On a sorted list lower_bound finds a best fit: no entry fits when it reaches the end, and
   * otherwise the entry it finds fits and is no larger than any other entry that fits.
   */
  lemma SmallestFit(list: seq<Block>, key: nat)
    requires Sorted(list)
    ensures LowerBound(list, key) == |list| <==> forall j :: 0 <= j < |list| ==> list[j].size < key
    ensures LowerBound(list, key) < |list| ==>
              && list[LowerBound(list, key)].size >= key
              && forall j :: 0 <= j < |list| && list[j].size >= key ==> list[LowerBound(list, key)].size <= list[j].size
  {
    LowerBoundSpec(list, key);
  }

  /** insert keeps the list sorted. */
  lemma InsertSorted(list: seq<Block>, b: Block)
    requires Sorted(list)
    ensures Sorted(Insert(list, b))
  {
    var k := UpperBound(list, b.size);
    UpperBoundSpec(list, b.size);
    var r := Insert(list, b);
    forall i, j | 0 <= i < j < |r| ensures r[i].size <= r[j].size {
      var li := if i < k then list[i] else if i == k then b else list[i - 1];
      var lj := if j < k then list[j] else if j == k then b else list[j - 1];
      assert r[i] == li && r[j] == lj;
    }
  }

  /** insert adds exactly the one entry. */
  lemma InsertAdds(list: seq<Block>, b: Block)
    ensures |Insert(list, b)| == |list| + 1
    ensures multiset(Insert(list, b)) == multiset(list) + multiset{b}
  {
    var k := UpperBound(list, b.size);
    assert list == list[..k] + list[k..];
  }

  /** insert keeps the list sorted and adds exactly the one entry. */
  lemma InsertSpec(list: seq<Block>, b: Block)
    requires Sorted(list)
    ensures Sorted(Insert(list, b))
    ensures |Insert(list, b)| == |list| + 1
    ensures multiset(Insert(list, b)) == multiset(list) + multiset{b}
  {
    InsertSorted(list, b);
    InsertAdds(list, b);
  }

  /** erase keeps the list sorted and takes away exactly that entry. */
  lemma RemoveAtSpec(list: seq<Block>, i: nat)
    requires Sorted(list) && i < |list|
    ensures Sorted(RemoveAt(list, i))
    ensures multiset(RemoveAt(list, i)) == multiset(list) - multiset{list[i]}
  {
    var r := RemoveAt(list, i);
    assert forall j :: 0 <= j < i ==> r[j] == list[j];
    assert forall j :: i <= j < |r| ==> r[j] == list[j + 1];
    assert list == list[..i] + [list[i]] + list[i + 1..];
  }

  /** A block at least as large as every entry goes to the end. */
  lemma InsertLargest(list: seq<Block>, b: Block)
    requires forall i :: 0 <= i < |list| ==> list[i].size <= b.size
    ensures Insert(list, b) == list + [b]
  {
    UpperBoundSpec(list, b.size);
    assert list[..|list|] == list;
  }

  /** A block just inserted serves any request it is large enough for. */
  lemma InsertedFits(list: seq<Block>, b: Block, key: nat)
    requires Sorted(list) && key <= b.size
    ensures LowerBound(Insert(list, b), key) < |Insert(list, b)|
  {
    InsertSpec(list, b);
    var r := Insert(list, b);
    assert r[UpperBound(list, b.size)] == b;
    LowerBoundSpec(r, key);
  }

  /** The last entry holding ptr: -1 exactly when none does, and no later entry holds it. */
  lemma {:induction false} LastIndexOfSpec(list: seq<Block>, ptr: nat)
    ensures LastIndexOf(list, ptr) == -1 <==> forall i :: 0 <= i < |list| ==> list[i].ptr != ptr
    ensures LastIndexOf(list, ptr) != -1 ==>
              && list[LastIndexOf(list, ptr)].ptr == ptr
              && forall i :: LastIndexOf(list, ptr) < i < |list| ==> list[i].ptr != ptr
  {
    if list != [] && list[|list| - 1].ptr != ptr {
      var init := list[..|list| - 1];
      LastIndexOfSpec(init, ptr);
      assert forall i :: 0 <= i < |init| ==> init[i] == list[i];
    }
  }

  /** The last match in a list one entry longer. */
  lemma LastIndexOfSnoc(list: seq<Block>, i: nat, ptr: nat)
    requires i < |list|
    ensures LastIndexOf(list[..i + 1], ptr) == if list[i].ptr == ptr then i else LastIndexOf(list[..i], ptr)
  {
    assert list[..i + 1][..i] == list[..i];
  }

  /** The null entries of a prefix cannot add up to more than those of the whole list. */
  lemma {:induction false} NullSizePrefix(list: seq<Block>, i: nat)
    requires i <= |list|
    ensures NullSize(list[..i]) <= NullSize(list)
    decreases |list|
  {
    if i < |list| {
      var init := list[..|list| - 1];
      assert list[..i] == init[..i];
      NullSizePrefix(init, i);
    } else {
      assert list[..i] == list;
    }
  }

  /** The null entries of a prefix one entry longer. */
  lemma NullSizeSnoc(list: seq<Block>, i: nat)
    requires i < |list|
    ensures NullSize(list[..i + 1]) == NullSize(list[..i]) + (if list[i].ptr == 0 then list[i].size else 0)
  {
    assert list[..i + 1][..i] == list[..i];
  }

  /** getFromFreeList's request: one alignment unit more when the pool alignment is not a multiple of align. */
  function RealSize(size: nat, align: nat, poolAlign: nat): (r: nat)
    requires align > 0
    ensures size <= r < size + align
    ensures r == size <==> poolAlign % align == 0
  {
    if poolAlign % align != 0 then size + align - 1 else size
  }

  /**
   * DefaultAllocatorImpl::alloc's size: the request rounded up to a multiple of align, so it
   * covers the request with less than align to spare.
   */
  function AlignedSize(size: nat, align: nat): (r: nat)
    requires align > 0
    ensures r % align == 0
    ensures size <= r < size + align
  {
    assert UpDiv(size, align) * align == RoundUp(size, align);
    UpDiv(size, align) * align
  }

  /** The alignment alloc uses: the one asked for, or the pool's when 0 is asked for. */
  function EffectiveAlign(align: nat, poolAlign: nat): nat
  {
    if align == 0 then poolAlign else align
  }

  class Allocator {
    /** mAlign: the pool's alignment, also the default for alloc. */
    const poolAlign: nat
    /** usedList: the blocks handed out, by size. */
    var usedList: seq<Block>
    /** freeList: the blocks given back, by size. */
    var freeList: seq<Block>
    /** mTotalSize: the bytes requested from the system so far. */
    var totalSize: nat

    /** Both lists are in multimap order. */
    predicate Valid()
      reads this
    {
      Sorted(usedList) && Sorted(freeList)
    }

    /** Allocator(impl, align): empty lists and a zero total. */
    constructor(align: nat)
      ensures poolAlign == align && usedList == [] && freeList == [] && totalSize == 0
      ensures Valid()
    {
      poolAlign := align;
      usedList := [];
      freeList := [];
      totalSize := 0;
    }

    /** totalSize(). */
    function TotalSize(): nat
      reads this
    {
      totalSize
    }

    /**
     * getFromFreeList(size, align): the first free entry of at least RealSize bytes moves to
     * the used list and is returned as (pointer, size); with none, (null, 0) and nothing
     * changes.
     */
    method GetFromFreeList(size: nat, align: nat) returns (p: Block)
      requires Valid() && align > 0
      modifies this
      ensures Valid() && totalSize == old(totalSize)
      ensures var k := LowerBound(old(freeList), RealSize(size, align, poolAlign));
              if k == |old(freeList)| then
                p == Block(0, 0) && usedList == old(usedList) && freeList == old(freeList)
              else
                && p == old(freeList)[k]
                && usedList == Insert(old(usedList), p)
                && freeList == RemoveAt(old(freeList), k)
    {
      var realSize := size;
      var needExtraSize := poolAlign % align != 0;
      if needExtraSize {
        realSize := realSize + align - 1;
      }
      var x := LowerBound(freeList, realSize);
      if x == |freeList| {
        return Block(0, 0);
      }
      p := freeList[x];
      InsertSpec(usedList, p);
      RemoveAtSpec(freeList, x);
      usedList := Insert(usedList, p);
      freeList := RemoveAt(freeList, x);
    }

    /**
     * alloc(size, align): a free block that fits (see GetFromFreeList) is handed out again
     * and the total is unchanged.  Failing that, DefaultAllocatorImpl allocates: `obtained` is
     * what its MMemoryAllocAlign returns; null is passed back as (null, rounded size) with
     * nothing else changed, and otherwise the block, of the rounded size, enters the used
     * list and the requested size is added to the total.  MMemoryAllocAlign asserts a
     * positive size.
     */
    method Alloc(size: nat, align: nat, obtained: nat) returns (p: Block)
      requires Valid() && EffectiveAlign(align, poolAlign) > 0
      requires var a := EffectiveAlign(align, poolAlign);
               var k := LowerBound(freeList, RealSize(size, a, poolAlign));
               size > 0 || (k < |freeList| && freeList[k].ptr != 0)
      modifies this
      ensures Valid()
      ensures var a := EffectiveAlign(align, poolAlign);
              var k := LowerBound(old(freeList), RealSize(size, a, poolAlign));
              if k < |old(freeList)| && old(freeList)[k].ptr != 0 then
                && p == old(freeList)[k]
                && usedList == Insert(old(usedList), p)
                && freeList == RemoveAt(old(freeList), k)
                && totalSize == old(totalSize)
              else
                var used := if k < |old(freeList)| then Insert(old(usedList), old(freeList)[k]) else old(usedList);
                var remaining := if k < |old(freeList)| then RemoveAt(old(freeList), k) else old(freeList);
                && p == Block(AlignedSize(size, a), obtained)
                && (obtained == 0 ==> usedList == used && freeList == remaining && totalSize == old(totalSize))
                && (obtained != 0 ==>
                      usedList == Insert(used, p) && freeList == remaining && totalSize == old(totalSize) + size)
    {
      var a := align;
      if a == 0 {
        a := poolAlign;
      }
      p := GetFromFreeList(size, a);
      if p.ptr != 0 {
        return p;
      }
      var newSize := UpDiv(size, a) * a;
      assert newSize == AlignedSize(size, a);
      p := Block(newSize, obtained);
      if p.ptr == 0 {
        return p;
      }
      totalSize := totalSize + size;
      InsertSpec(usedList, p);
      usedList := Insert(usedList, p);
      assert p.size % a == 0;
    }

    /** returnMemory(pointer): the entry (pointer.second, pointer.first) joins the free list. */
    method ReturnMemory(pointer: Block)
      requires Valid()
      modifies this
      ensures Valid()
      ensures freeList == Insert(old(freeList), pointer)
      ensures usedList == old(usedList) && totalSize == old(totalSize)
    {
      InsertSpec(freeList, pointer);
      freeList := Insert(freeList, pointer);
    }

    /** free's search loop: the last used entry that holds ptr. */
    method FindUsed(ptr: nat) returns (foundUsed: bool, x: nat)
      ensures foundUsed <==> LastIndexOf(usedList, ptr) != -1
      ensures foundUsed ==> x == LastIndexOf(usedList, ptr)
    {
      foundUsed := false;
      x := 0;
      var i := 0;
      while i < |usedList|
        invariant 0 <= i <= |usedList|
        invariant foundUsed <==> LastIndexOf(usedList[..i], ptr) != -1
        invariant foundUsed ==> x == LastIndexOf(usedList[..i], ptr)
      {
        LastIndexOfSnoc(usedList, i, ptr);
        if usedList[i].ptr == ptr {
          foundUsed := true;
          x := i;
        }
        i := i + 1;
      }
      assert usedList[..i] == usedList;
    }

    /**
     * free(pointer): false, with nothing changed, when no used entry holds pointer.first;
     * otherwise the last such entry leaves the used list and (pointer.second, pointer.first)
     * joins the free list.  The memory does not go back to the system.
     */
    method Free(pointer: Block) returns (ok: bool)
      requires Valid()
      modifies this
      ensures Valid() && totalSize == old(totalSize)
      ensures ok <==> LastIndexOf(old(usedList), pointer.ptr) != -1
      ensures !ok ==> usedList == old(usedList) && freeList == old(freeList)
      ensures ok ==> && usedList == RemoveAt(old(usedList), LastIndexOf(old(usedList), pointer.ptr))
                     && freeList == Insert(old(freeList), pointer)
    {
      var foundUsed, x := FindUsed(pointer.ptr);
      if !foundUsed {
        return false;
      }
      RemoveAtSpec(usedList, x);
      usedList := RemoveAt(usedList, x);
      ReturnMemory(pointer);
      return true;
    }

    /**
     * release(allRelease): with allRelease both lists are emptied and the total reset;
     * otherwise the free list is emptied after the sizes of its null entries are taken off
     * the total, which mTotalSize >= size asserts for each.
     */
    method Release(allRelease: bool)
      requires Valid()
      requires !allRelease ==> NullSize(freeList) <= totalSize
      modifies this
      ensures Valid() && freeList == []
      ensures allRelease ==> usedList == [] && totalSize == 0
      ensures !allRelease ==> usedList == old(usedList) && totalSize == old(totalSize) - NullSize(old(freeList))
    {
      if allRelease {
        usedList := [];
        freeList := [];
        totalSize := 0;
        return;
      }
      var i := 0;
      while i < |freeList|
        invariant 0 <= i <= |freeList|
        invariant freeList == old(freeList) && usedList == old(usedList)
        invariant NullSize(freeList[..i]) <= old(totalSize)
        invariant totalSize == old(totalSize) - NullSize(freeList[..i])
      {
        NullSizeSnoc(freeList, i);
        NullSizePrefix(freeList, i + 1);
        var f := freeList[i];
        if f.ptr == 0 {
          totalSize := totalSize - f.size;
        }
        i := i + 1;
      }
      assert freeList[..i] == freeList;
      freeList := [];
    }
  }

  /** The sizes DefaultAllocatorImpl reports for the scenario's requests at alignment 64. */
  lemma ScenarioSizes()
    ensures AlignedSize(1000, 64) == 1024 && AlignedSize(2000, 64) == 2048 && AlignedSize(3000, 64) == 3008
    ensures RealSize(1000, 64, 64) == 1000 && RealSize(2000, 64, 64) == 2000 && RealSize(3000, 64, 64) == 3000
    ensures AlignedSize(1100, 64) == 1152 && RealSize(1100, 64, 64) == 1100
  {
  }

  /**
   * alloc(size) with an empty free list: the system's block, of the rounded size, joins the
   * end of the used list when it is at least as large as every used block.
   */
  method AllocGrowing(allocator: Allocator, size: nat, f: nat) returns (p: Block)
    requires allocator.Valid() && allocator.freeList == [] && allocator.poolAlign == 64
    requires size > 0 && f != 0
    requires forall i :: 0 <= i < |allocator.usedList| ==> allocator.usedList[i].size <= AlignedSize(size, 64)
    modifies allocator
    ensures allocator.Valid() && allocator.freeList == []
    ensures p == Block(AlignedSize(size, 64), f) && allocator.usedList == old(allocator.usedList) + [p]
  {
    p := allocator.Alloc(size, 0, f);
    InsertLargest(old(allocator.usedList), p);
  }

  /** alloc(1000), alloc(2000), alloc(3000) on a new pool of alignment 64, with the system handing out f1, f2 and f3. */
  method AllocThree(f1: nat, f2: nat, f3: nat) returns (allocator: Allocator, p1: Block, p2: Block)
    requires f1 != 0 && f2 != 0 && f3 != 0
    ensures fresh(allocator) && allocator.Valid() && allocator.poolAlign == 64
    ensures p1 == Block(1024, f1) && p2 == Block(2048, f2)
    ensures allocator.usedList == [p1, p2, Block(3008, f3)] && allocator.freeList == []
  {
    allocator := new Allocator(64);
    ScenarioSizes();
    p1 := AllocGrowing(allocator, 1000, f1);
    p2 := AllocGrowing(allocator, 2000, f2);
    var p3 := AllocGrowing(allocator, 3000, f3);
  }

  /** Then free(p1) and free(p2): both succeed and the free list holds the two blocks by size. */
  method FreeTwo(allocator: Allocator, b1: Block, b2: Block, b3: Block)
    requires allocator.Valid() && allocator.usedList == [b1, b2, b3] && allocator.freeList == []
    requires b1.ptr != b2.ptr && b1.ptr != b3.ptr && b2.ptr != b3.ptr && b1.size <= b2.size
    modifies allocator
    ensures allocator.Valid()
    ensures allocator.usedList == [b3] && allocator.freeList == [b1, b2]
  {
    assert [b1, b2, b3][..2] == [b1, b2] && [b1, b2][..1] == [b1];
    assert LastIndexOf([b1, b2], b1.ptr) == 0;
    assert LastIndexOf([b1, b2, b3], b1.ptr) == 0;
    var ok1 := allocator.Free(b1);
    assert RemoveAt([b1, b2, b3], 0) == [b2, b3];
    InsertLargest([], b1);
    assert allocator.usedList == [b2, b3] && allocator.freeList == [b1];
    assert [b2, b3][..1] == [b2];
    assert LastIndexOf([b2, b3], b2.ptr) == 0;
    var ok2 := allocator.Free(b2);
    assert RemoveAt([b2, b3], 0) == [b3];
    assert [b1][0] == b1;
    InsertLargest([b1], b2);
    assert [b1] + [b2] == [b1, b2];
  }

  /**
   * The allocator scenario: alloc(1000), alloc(2000), alloc(3000) with a pool alignment of
   * 64, then free the first two; alloc(1100) hands out the second block again, the smallest
   * free block it fits (1024 < 1100 <= 2048), and asks nothing of the system.
   */
  method ReuseScenario(f1: nat, f2: nat, f3: nat, f4: nat) returns (p2: Block, p4: Block)
    requires f1 != 0 && f2 != 0 && f3 != 0 && f1 != f2 && f1 != f3 && f2 != f3
    ensures p2 == Block(2048, f2) && p4 == p2
  {
    var allocator, p1;
    allocator, p1, p2 := AllocThree(f1, f2, f3);
    FreeTwo(allocator, p1, p2, Block(3008, f3));
    assert LowerBound([p1, p2], 1100) == 1;
    p4 := allocator.Alloc(1100, 0, f4);
  }

  // ---------------------------------------------------------------- DefaultAllocatorImpl

  /**
   * DefaultAllocatorImpl::release(ptr) asserts ptr.second == 0 before MMemoryFreeAlign, so
   * only an entry of size 0 can be given back to the system through it.
   */
  predicate DefaultReleaseAccepts(ptr: Block)
  {
    ptr.size == 0
  }
}
