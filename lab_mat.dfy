/**
 * The prototype Mat of test/opencv_lab/mat_test (namespace opencv_lab): extents kept in a
 * MatSize header, a shared MatData record counted by reference, and the standard allocator
 * that sizes every element at four bytes.
 *
 * The record is CoreMat.MatData, whose unmap is the same as this allocator's.  Addresses are
 * natural numbers; malloc's block is the parameter `raw`, 0 when malloc failed.  Element types
 * are the MatType codes, FloatType and IntType; a cast of any other int is kept as it is.
 */
module LabMat {
  import opened Wrappers
  import opened Bytes
  import opened Define
  import opened MemoryUtils
  import opened Shape
  import CoreMat

  /** CV_MAX_DIM. */
  const CV_MAX_DIM: nat := 8
  /** MatType::FloatType and MatType::IntType. */
  const FLOAT_TYPE: int := 0
  const INT_TYPE: int := 1
  /** sizeof(float) and sizeof(int): the allocator's bytes per element for either type. */
  const ELEM_BYTES: nat := 4
  /** INT_MAX, the default endDim of total(startDim, endDim). */
  const INT_MAX: int := 0x7fff_ffff

  /** Every extent is at least zero, as setSize asserts. */
  predicate NonNegative(s: seq<int>)
  {
    forall i :: 0 <= i < |s| ==> s[i] >= 0
  }

  /** What malloc may return: null, or a block the aligned pointer and its header fit after. */
  predicate MallocResult(raw: nat)
  {
    raw == 0 || (0 < raw && raw + POINTER_SIZE + CoreMat.MAT_MALLOC_ALIGN <= Pow2(WORD_BITS))
  }

  /** The pointer fastMalloc returns for malloc's block `raw`. */
  function FastMalloc(raw: nat): nat
    requires MallocResult(raw)
  {
    if raw == 0 then 0 else CoreMat.FastMallocPointer(raw)
  }

  // ---------------------------------------------------------------- StdMatAllocator

  /**
   * StdMatAllocator::allocate(dims, sizes, type, data0): a record of 4 * product-of-extents
   * bytes, over data0 when it is given (and then marked as user memory), else over a new
   * fastMalloc block; its count starts at 0.
   */
  method StdAllocate(sizes: seq<int>, t: int, data0: nat, raw: nat) returns (u: CoreMat.MatData)
    requires NonNegative(sizes) && MallocResult(raw)
    ensures fresh(u) && fresh(u.cells)
    ensures u.refcount == 0 && !u.deleted && u.userMemory == (data0 != 0)
    ensures u.size == ELEM_BYTES * Product(sizes) && u.cells.Length == Product(sizes)
    ensures u.data == (if data0 != 0 then data0 else FastMalloc(raw))
  {
    var total := if t == FLOAT_TYPE then ELEM_BYTES else ELEM_BYTES;
    var i := |sizes| - 1;
    while i >= 0
      invariant -1 <= i < |sizes|
      invariant total == ELEM_BYTES * Product(sizes[i + 1..])
    {
      ProductFrom(sizes, i);
      total := total * sizes[i];
      i := i - 1;
    }
    assert sizes[0..] == sizes;
    ProductNonNegative(sizes);
    var addr := if data0 != 0 then data0 else FastMalloc(raw);
    u := new CoreMat.MatData(addr, total, Product(sizes));
    if data0 != 0 {
      u.userMemory := true;
    }
  }

  // ---------------------------------------------------------------- MatSize

  /** The MatSize buffer p0: the dimension count, then the extents, which p points at. */
  function Header(dims: int, sizes: seq<int>): seq<int>
  {
    [dims] + sizes
  }

  /** MatSize::dims() as written: p[0], which is the first extent. */
  function SizeDimsAsWritten(p0: seq<int>): int
    requires |p0| >= 2
  {
    p0[1]
  }

  /** The dimension count a MatSize holds: p0[0]. */
  function SizeDims(p0: seq<int>): int
    requires |p0| >= 1
  {
    p0[0]
  }

  /** The header keeps the dimension count in front of the extents. */
  lemma HeaderDims(dims: nat, sizes: seq<int>)
    requires |sizes| == dims
    ensures SizeDims(Header(dims, sizes)) == dims
    ensures Header(dims, sizes)[1..] == sizes
  {
  }

  /** dims() as written reports the first extent: a [1, 3, 4] Mat has 1 dimension by it. */
  lemma SizeDimsAsWrittenMisreads()
    ensures SizeDimsAsWritten(Header(3, [1, 3, 4])) == 1
    ensures SizeDims(Header(3, [1, 3, 4])) == 3
  {
  }

  /**
   * MatSize::operator== as written: the two dims() values compared, then the extents
   * scanned from the first (ScanExtentsAsWritten).
   */
  function SizeEqualAsWritten(p0: seq<int>, q0: seq<int>): (r: Option<bool>)
    requires |p0| >= 2 && |q0| >= 2
    ensures r == Some(false) ==> p0[1..] != q0[1..]
    ensures r == Some(true) ==> p0[1] == q0[1]
  {
    var d, dsz := SizeDimsAsWritten(p0), SizeDimsAsWritten(q0);
    if d != dsz then Some(false) else ScanExtentsAsWritten(p0, q0, 0, d)
  }

  /**
   * The extent loop of MatSize::operator== from index i to d, where p[i] is p0[1 + i]: false
   * at the first pair of extents that differ, None when it reaches past one of the buffers before that (a read
   * out of bounds), true when all d pairs agree.
   */
  function ScanExtentsAsWritten(p0: seq<int>, q0: seq<int>, i: nat, d: int): (r: Option<bool>)
    ensures r == Some(true) ==> i >= d || (d < |p0| && d < |q0| && p0[i + 1..d + 1] == q0[i + 1..d + 1])
    ensures r == Some(false) ==> exists k :: i < k <= d && k < |p0| && k < |q0| && p0[k] != q0[k]
    decreases d - i
  {
    if i >= d then Some(true)
    else if 1 + i >= |p0| || 1 + i >= |q0| then None
    else if p0[1 + i] != q0[1 + i] then Some(false)
    else
      ScanExtentsAsWritten(p0, q0, i + 1, d)
  }

  /** As written, a [1, 3, 4] Mat and a [1, 5, 6] Mat have equal sizes. */
  lemma SizeEqualAsWrittenConfuses()
    ensures SizeEqualAsWritten(Header(3, [1, 3, 4]), Header(3, [1, 5, 6])) == Some(true)
    ensures Header(3, [1, 3, 4]) != Header(3, [1, 5, 6])
  {
    assert Header(3, [1, 3, 4])[1..2] == [1] == Header(3, [1, 5, 6])[1..2];
    assert Header(3, [1, 3, 4])[2] != Header(3, [1, 5, 6])[2];
  }

  /** A header whose dimension count is the number of extents after it. */
  predicate WellFormed(p0: seq<int>)
  {
    |p0| >= 1 && p0[0] == |p0| - 1
  }

  /**
   * operator== reading the dimension count from p0[0]: equal counts, then every extent in
   * turn.  Two headers are equal by it exactly when they hold the same extents.
   */
  method SizeEqual(p0: seq<int>, q0: seq<int>) returns (eq: bool)
    requires WellFormed(p0) && WellFormed(q0)
    ensures eq <==> p0[1..] == q0[1..]
  {
    if SizeDims(p0) != SizeDims(q0) {
      return false;
    }
    eq := CoreMat.MatSizeEqual(p0[1..], q0[1..]);
  }

  // ---------------------------------------------------------------- total(startDim, endDim)

  /**
   * total(startDim, endDim) as written: the loop runs to endDim, not to endDim_ (endDim cut
   * back to dims), so an end past the extents reads past them; None for that read.  An empty
   * range runs no iteration and gives 1 wherever it lies, so the read past the extents
   * happens exactly for a range that is not empty and ends past them.
   */
  function TotalRangeAsWritten(sizes: seq<int>, startDim: nat, endDim: int): (r: Option<int>)
    requires startDim <= endDim
    ensures r.None? <==> startDim < endDim && |sizes| < endDim
  {
    if startDim == endDim then Some(1)
    else if endDim <= |sizes| then Some(Product(sizes[startDim..endDim]))
    else None
  }

  /**
   * Inside the extents, and for any empty range, the loop as written gives the product over
   * the clamped range.
   */
  lemma TotalRangeAsWrittenAgrees(sizes: seq<int>, startDim: nat, endDim: nat)
    requires startDim <= endDim && (endDim <= |sizes| || startDim == endDim)
    ensures TotalRangeAsWritten(sizes, startDim, endDim) == Some(Product(CoreMat.Span(sizes, startDim, endDim)))
  {
    if startDim == endDim {
      assert CoreMat.Span(sizes, startDim, endDim) == [];
    }
  }

  /** With the default end, INT_MAX, the loop as written reads past a [2, 3] Mat's extents. */
  lemma TotalRangeAsWrittenOverruns()
    ensures TotalRangeAsWritten([2, 3], 0, INT_MAX).None?
    ensures Product(CoreMat.Span([2, 3], 0, INT_MAX)) == 6
  {
    assert CoreMat.Span([2, 3], 0, INT_MAX) == [2, 3];
  }

  // ---------------------------------------------------------------- setSize's size buffer

  /**
   * What `size.p0` points at when setSize runs: nothing (the `size(0)` of Mat() and
   * Mat(sizes, type)), a block fastMalloc returned, or the Mat's own `dims` field (the
   * `size(&dims)` of the constructors over a caller's buffer).
   */
  datatype SizeBuffer = NoBuffer | OwnBuffer | DimsField

  /** How setSize can stop before it writes an extent. */
  datatype SetSizeStop = DimAssertFails | FreesForeignPointer

  /**
   * The start of setSize(m, dim, sz): the assertion 0 < dim <= CV_MAX_DIM, then, for a new
   * dimension count, fastFree(size.p0).  fastFree of null does nothing and of a fastMalloc
   * block frees it; of the `dims` field it reads the word below it as a block's origin,
   * which is undefined behaviour.  None when setSize goes on to write the extents.
   */
  function SetSizeStart(current: int, buf: SizeBuffer, dim: int): (r: Option<SetSizeStop>)
    ensures r == Some(DimAssertFails) <==> !(0 < dim <= CV_MAX_DIM)
    ensures r == Some(FreesForeignPointer) <==> 0 < dim <= CV_MAX_DIM && dim != current && buf == DimsField
  {
    if !(0 < dim <= CV_MAX_DIM) then Some(DimAssertFails)
    else if dim != current && buf == DimsField then Some(FreesForeignPointer)
    else None
  }

  /**
   * Mat(dims, sizes, type, data) and its vector overload as written: dims(0) and
   * size(&dims), then setSize(*this, dims, sizes).
   */
  function OverAsWritten(newSizes: seq<int>): Option<SetSizeStop>
  {
    SetSizeStart(0, DimsField, |newSizes|)
  }

  /**
   * As written, no Mat over a caller's buffer is ever built: no extents fail the assertion,
   * and any other count frees the `dims` field; [2, 3] shows it.
   */
  lemma OverAsWrittenNeverBuilds(newSizes: seq<int>)
    ensures OverAsWritten(newSizes).Some?
    ensures 0 < |newSizes| <= CV_MAX_DIM ==> OverAsWritten(newSizes) == Some(FreesForeignPointer)
    ensures OverAsWritten([2, 3]) == Some(FreesForeignPointer)
  {
  }

  /** With the `size(0)` of the other constructors, setSize passes to the extents for every allowed count. */
  lemma SetSizeFromNoBuffer(dim: int)
    requires 0 < dim <= CV_MAX_DIM
    ensures SetSizeStart(0, NoBuffer, dim).None?
    ensures SetSizeStart(0, DimsField, dim).Some?
  {
  }

  // ---------------------------------------------------------------- Mat

  class Mat {
    var dims: int
    /** size.p: one extent per dimension. */
    var sizes: seq<int>
    /** Address of the first element; 0 for none. */
    var data: nat
    /** The shared record, or null. */
    var u: CoreMat.MatData?
    var matType: int

    predicate Valid()
      reads this
    {
      0 <= dims <= CV_MAX_DIM && |sizes| == dims && NonNegative(sizes)
    }

    /** empty(): no data, no element or no dimension. */
    predicate IsEmpty()
      reads this
    {
      data == 0 || Product(sizes) == 0 || dims == 0
    }

    /** The Mat owns a record with one cell per element. */
    predicate Backed()
      reads this, u
    {
      Valid() && u != null && u.cells.Length == Product(sizes)
    }

    /** Mat(): no dimensions, no data, no record, FloatType. */
    constructor()
      ensures Valid() && IsEmpty()
      ensures dims == 0 && sizes == [] && data == 0 && u == null && matType == FLOAT_TYPE
    {
      dims := 0;
      sizes := [];
      data := 0;
      u := null;
      matType := FLOAT_TYPE;
    }

    /**
     * Mat(sizes, type, data): a Mat over the caller's buffer, with no record, its size
     * buffer starting empty as in the other constructors (Findings row 15: as written it
     * starts at the `dims` field; see OverAsWritten).
     */
    constructor Over(newSizes: seq<int>, t: int, ptr: nat)
      requires 0 < |newSizes| <= CV_MAX_DIM && NonNegative(newSizes)
      ensures Valid() && dims == |newSizes| && sizes == newSizes
      ensures data == ptr && u == null && matType == t
    {
      dims := 0;
      sizes := [];
      data := ptr;
      u := null;
      matType := t;
      new;
      SetSize(|newSizes|, newSizes);
      assert newSizes[..|newSizes|] == newSizes;
    }

    /**
     * setSize(m, dim, sz): asserts 0 < dim <= CV_MAX_DIM; a new dimension count gets a new
     * size buffer; the extents are written from the last one down, each asserted to be at
     * least zero.
     */
    method SetSize(dim: nat, sz: seq<int>)
      requires 0 < dim <= CV_MAX_DIM && dim <= |sz| && NonNegative(sz[..dim])
      requires |sizes| == dims
      modifies this
      ensures Valid() && dims == dim && sizes == sz[..dim]
      ensures data == old(data) && u == old(u) && matType == old(matType)
    {
      var p := if dim == dims then sizes else Zeros(dim);
      dims := dim;
      var i := dim - 1;
      while i >= 0
        invariant -1 <= i < dim && |p| == dim
        invariant forall k :: i < k < dim ==> p[k] == sz[k]
      {
        p := p[i := sz[i]];
        i := i - 1;
      }
      assert p == sz[..dim];
      sizes := p;
    }

    /** total(): the product of the extents, multiplied from the last one down. */
    method Total() returns (p: int)
      requires Valid()
      ensures p == Product(sizes)
    {
      p := 1;
      var i := dims - 1;
      while i >= 0
        invariant -1 <= i < dims
        invariant p == Product(sizes[i + 1..])
      {
        ProductFrom(sizes, i);
        p := p * sizes[i];
        i := i - 1;
      }
      assert sizes[0..] == sizes;
    }

    /**
     * total(startDim, endDim) with the loop running to endDim_, endDim cut back to dims: the
     * product over [startDim, min(endDim, dims)).
     */
    method TotalRange(startDim: int, endDim: int) returns (p: int)
      requires Valid() && 0 <= startDim <= endDim
      ensures p == Product(CoreMat.Span(sizes, startDim, endDim))
    {
      p := 1;
      var last := if endDim <= dims then endDim else dims;
      var i := startDim;
      while i < last
        invariant i == startDim || startDim < i <= last
        invariant p == Product(CoreMat.Span(sizes, startDim, i))
      {
        CoreMat.SpanSnoc(sizes, startDim, i);
        p := p * sizes[i];
        i := i + 1;
      }
      assert CoreMat.Span(sizes, startDim, i) == CoreMat.Span(sizes, startDim, endDim);
    }

    /** addref(): one more reference to the record, if there is one. */
    method AddRef()
      modifies u
      ensures u != null ==> u.refcount == old(u.refcount) + 1 && u.deleted == old(u.deleted)
                            && u.data == old(u.data) && u.size == old(u.size)
                            && u.userMemory == old(u.userMemory)
    {
      if u != null {
        u.refcount := u.refcount + 1;
      }
    }

    /**
     * release(): the count goes down by one and, when it was 1, deallocate hands the record
     * to unmap; the Mat is left without record or data and with every extent zero.
     */
    method Release()
      requires Valid()
      modifies this, u
      ensures Valid()
      ensures u == null && data == 0 && dims == old(dims) && sizes == Zeros(old(dims))
      ensures matType == old(matType)
      ensures old(u) != null ==>
                && old(u).refcount == old(u.refcount) - 1
                && old(u).deleted == (old(u.refcount) == 1 || old(u.deleted))
                && old(u).data == (if old(u.refcount) == 1 && !old(u.userMemory) then 0 else old(u.data))
    {
      if u != null {
        var before := u.refcount;
        u.refcount := before - 1;
        if before == 1 {
          var dropped := u;
          u := null;
          dropped.Unmap();
        }
      }
      u := null;
      data := 0;
      sizes := Zeros(dims);
    }

    /**
     * The part of create after the same-Mat test, as written: release, the new type and
     * extents, a record from the allocator when there are elements, and addref.  data is
     * not assigned, so it stays null.
     */
    method Reallocate(newSizes: seq<int>, t: int, raw: nat)
      requires Valid() && 0 < |newSizes| <= CV_MAX_DIM && NonNegative(newSizes) && MallocResult(raw)
      modifies this, u
      ensures Valid() && dims == |newSizes| && sizes == newSizes && matType == t && data == 0
      ensures old(u) != null ==>
                old(u).refcount == old(u.refcount) - 1
                && old(u).deleted == (old(u.refcount) == 1 || old(u.deleted))
      ensures Product(sizes) == 0 ==> u == null
      ensures Product(sizes) != 0 ==>
                && u != null && fresh(u) && fresh(u.cells)
                && u.refcount == 1 && !u.deleted && !u.userMemory
                && u.cells.Length == Product(sizes) && u.size == ELEM_BYTES * Product(sizes)
                && u.data == FastMalloc(raw)
    {
      Release();
      matType := t;
      SetSize(|newSizes|, newSizes);
      assert newSizes[..|newSizes|] == newSizes;
      var total := Total();
      ProductNonNegative(sizes);
      if total > 0 {
        u := StdAllocate(sizes, t, 0, raw);
      }
      AddRef();
    }

    /** The same-Mat test of create: data present, and the same dimensions, type and extents. */
    predicate SameMat(newSizes: seq<int>, t: int)
      reads this
    {
      data != 0 && dims == |newSizes| && matType == t && sizes == newSizes
    }

    /**
     * create(dims, sizes, type) as written: left as it is when it is the same Mat; otherwise
     * reallocated, with data never taken from the new record, so the Mat stays empty.
     */
    method CreateAsWritten(newSizes: seq<int>, t: int, raw: nat)
      requires Valid() && 0 < |newSizes| <= CV_MAX_DIM && NonNegative(newSizes) && MallocResult(raw)
      modifies this, u
      ensures Valid()
      ensures old(SameMat(newSizes, t)) ==> unchanged(this)
      ensures !old(SameMat(newSizes, t)) ==>
                && dims == |newSizes| && sizes == newSizes && matType == t
                && data == 0 && IsEmpty()
                && (Product(sizes) != 0 ==> u != null && fresh(u) && u.refcount == 1)
    {
      if data != 0 && |newSizes| == dims && matType == t {
        var same := CoreMat.MatSizeEqual(sizes, newSizes);
        if same {
          return;
        }
      }
      Reallocate(newSizes, t, raw);
    }

    /**
     * c = Mat(sizes, type): this Mat drops its reference and takes a new Mat's extents, type
     * and record, with data pointing at the record's buffer.
     */
    method Take(newSizes: seq<int>, t: int, raw: nat)
      requires Valid() && 0 < |newSizes| <= CV_MAX_DIM && NonNegative(newSizes) && MallocResult(raw)
      modifies this, u
      ensures Valid() && dims == |newSizes| && sizes == newSizes && matType == t
      ensures old(u) != null ==>
                old(u).refcount == old(u.refcount) - 1
                && old(u).deleted == (old(u.refcount) == 1 || old(u.deleted))
      ensures Product(sizes) == 0 ==> u == null && data == 0
      ensures Product(sizes) != 0 ==>
                && u != null && fresh(u) && fresh(u.cells)
                && u.refcount == 1 && !u.deleted && !u.userMemory
                && u.cells.Length == Product(sizes) && u.size == ELEM_BYTES * Product(sizes)
                && data == u.data == FastMalloc(raw)
    {
      Reallocate(newSizes, t, raw);
      if u != null {
        data := u.data;
      }
    }

    /**
     * create(dims, sizes, type) with data taken from the new record: a Mat with elements and
     * a buffer malloc provided is then not empty.
     */
    method Create(newSizes: seq<int>, t: int, raw: nat)
      requires Valid() && 0 < |newSizes| <= CV_MAX_DIM && NonNegative(newSizes) && MallocResult(raw)
      modifies this, u
      ensures Valid()
      ensures old(SameMat(newSizes, t)) ==> unchanged(this)
      ensures !old(SameMat(newSizes, t)) ==>
                && dims == |newSizes| && sizes == newSizes && matType == t
                && (Product(sizes) == 0 ==> u == null && data == 0)
                && (Product(sizes) != 0 ==>
                      u != null && fresh(u) && u.refcount == 1 && u.cells.Length == Product(sizes)
                      && data == u.data == FastMalloc(raw))
                && (Product(sizes) != 0 && raw != 0 ==> !IsEmpty())
    {
      if data != 0 && |newSizes| == dims && matType == t {
        var same := CoreMat.MatSizeEqual(sizes, newSizes);
        if same {
          return;
        }
      }
      Take(newSizes, t, raw);
      if Product(sizes) != 0 && raw != 0 {
        CoreMat.FastMallocNonNull(raw);
      }
    }

    /** Mat(sizes, type): an empty Mat, then create. */
    constructor Sized(newSizes: seq<int>, t: int, raw: nat)
      requires 0 < |newSizes| <= CV_MAX_DIM && NonNegative(newSizes) && MallocResult(raw)
      ensures Valid() && dims == |newSizes| && sizes == newSizes && matType == t
      ensures Product(sizes) == 0 ==> u == null && data == 0
      ensures Product(sizes) != 0 ==>
                u != null && fresh(u) && u.refcount == 1 && u.cells.Length == Product(sizes)
                && data == u.data == FastMalloc(raw)
    {
      dims := 0;
      sizes := [];
      data := 0;
      u := null;
      matType := FLOAT_TYPE;
      new;
      Create(newSizes, t, raw);
    }
  }
}
