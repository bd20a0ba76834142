/**
 * minfer::Mat (src/core/mat.cpp): an n-dimensional array of at most MAT_MAX_DIM extents whose
 * element buffer is shared, with a reference count, between the Mats that copy it.
 *
 * Addresses are natural numbers (0 is the null pointer).  malloc is not modelled: the methods
 * that allocate take the address malloc returns as the parameter `raw`.  The elements of a
 * buffer are one integer cell each, whatever the element type.
 */
module CoreMat {
  import opened Arith
  import opened Bytes
  import opened Define
  import opened MemoryUtils
  import opened Shape

  // ---------------------------------------------------------------- fastMalloc / fastFree

  /** MAT_MALLOC_ALIGN. */
  const MAT_MALLOC_ALIGN: nat := 64

  /** The pointer fastMalloc returns for the raw block at udata: alignPtr(udata + 1 word, 64). */
  function FastMallocPointer(udata: nat): nat
    requires udata + POINTER_SIZE + MAT_MALLOC_ALIGN <= Pow2(WORD_BITS)
  {
    AlignPointer(udata + POINTER_SIZE, MAT_MALLOC_ALIGN)
  }

  /** A block malloc returns, not null, gives a pointer that is not null either. */
  lemma FastMallocNonNull(udata: nat)
    requires 0 < udata && udata + POINTER_SIZE + MAT_MALLOC_ALIGN <= Pow2(WORD_BITS)
    ensures FastMallocPointer(udata) != 0
  {
    FastMallocFits(udata, 0);
  }

  /** fastFree's assert: the raw block lies below the pointer, within one word plus 64 bytes. */
  predicate FastFreeAccepts(udata: nat, ptr: nat)
  {
    udata < ptr && ptr - udata <= POINTER_SIZE + MAT_MALLOC_ALIGN
  }

  /**
   * fastMalloc(size) asks malloc for size + 8 + 64 bytes; the pointer it returns is 64-aligned,
   * leaves room for the header word below it and for `size` bytes above it inside the raw
   * block, and fastFree's assert holds for it.
   */
  lemma FastMallocFits(udata: nat, size: nat)
    requires 0 < udata && udata + size + POINTER_SIZE + MAT_MALLOC_ALIGN <= Pow2(WORD_BITS)
    ensures var ptr := FastMallocPointer(udata);
            && ptr % MAT_MALLOC_ALIGN == 0
            && udata + POINTER_SIZE <= ptr
            && ptr + size <= udata + size + POINTER_SIZE + MAT_MALLOC_ALIGN
            && FastFreeAccepts(udata, ptr)
  {
    DefaultAlignIsPowerOfTwo();
    AlignPointerRoundsUp(udata + POINTER_SIZE, MAT_MALLOC_ALIGN);
  }

  // ---------------------------------------------------------------- MatSize

  /** MatSize::operator==: equal dims, then every extent compared in turn. */
  method MatSizeEqual(p: seq<int>, q: seq<int>) returns (eq: bool)
    ensures eq <==> p == q
  {
    if |p| != |q| {
      return false;
    }
    var i := 0;
    while i < |p|
      invariant 0 <= i <= |p|
      invariant p[..i] == q[..i]
    {
      if p[i] != q[i] {
        return false;
      }
      i := i + 1;
    }
    assert p == p[..i] && q == q[..i];
    return true;
  }

  // ---------------------------------------------------------------- total

  /**
   * The extents total(startDim, endDim) multiplies: those from startDim up to endDim, where
   * endDim is cut back to the number of extents.
   */
  function Span(s: seq<int>, startDim: nat, endDim: nat): (r: seq<int>)
    ensures var e := if endDim <= |s| then endDim else |s|;
            startDim < e ==> r == s[startDim..e]
    ensures |r| <= |s|
  {
    var e := if endDim <= |s| then endDim else |s|;
    if startDim < e then s[startDim..e] else []
  }

  /** A span that grows by one extent multiplies the product by it. */
  lemma SpanSnoc(s: seq<int>, a: nat, i: nat)
    requires a <= i < |s|
    ensures Product(Span(s, a, i + 1)) == Product(Span(s, a, i)) * s[i]
  {
    assert Span(s, a, i + 1) == Span(s, a, i) + [s[i]];
    ProductSnoc(Span(s, a, i), s[i]);
  }

  /** A span that runs to the end covers all extents from startDim on. */
  lemma SpanToEnd(s: seq<int>, startDim: nat, endDim: nat)
    requires |s| <= endDim && startDim <= |s|
    ensures Span(s, startDim, endDim) == s[startDim..]
  {
  }

  /** Splitting a span at a middle dimension splits the product. */
  lemma SpanSplit(s: seq<int>, a: nat, b: nat, c: nat)
    requires a <= b <= c <= |s|
    ensures Product(Span(s, a, c)) == Product(Span(s, a, b)) * Product(Span(s, b, c))
  {
    if a < b && b < c {
      assert s[a..c] == s[a..b] + s[b..c];
      ProductAppend(s[a..b], s[b..c]);
    }
  }

  /**
   * The free total(shape, startDim, endDim): endDim -1 stands for the number of extents;
   * then the product over [startDim, min(endDim, |shape|)), multiplied from startDim up.
   */
  method ShapeTotal(shape: seq<int>, startDim: int, endDim: int) returns (p: int)
    requires 0 <= startDim
    requires if endDim == -1 then startDim <= |shape| else startDim <= endDim
    ensures p == Product(Span(shape, startDim, if endDim == -1 then |shape| else endDim))
  {
    var e := if endDim == -1 then |shape| else endDim;
    p := 1;
    var last := if e <= |shape| then e else |shape|;
    var i := startDim;
    while i < last
      invariant i == startDim || startDim < i <= last
      invariant p == Product(Span(shape, startDim, i))
    {
      SpanSnoc(shape, startDim, i);
      p := p * shape[i];
      i := i + 1;
    }
    assert Span(shape, startDim, i) == Span(shape, startDim, e);
  }

  /**
   * _setSize's loop: the extents of sz are written into p from the last one down, and the
   * loop stops at the first non-positive one; it reports whether it ran to the end.
   */
  method WriteExtents(p: seq<int>, sz: seq<int>, dim: nat) returns (q: seq<int>, complete: bool)
    requires |p| == dim <= |sz|
    ensures |q| == dim
    ensures complete <==> AllPositive(sz[..dim])
    ensures complete ==> q == sz[..dim]
  {
    q := p;
    var i := dim - 1;
    while i >= 0
      invariant -1 <= i < dim && |q| == dim
      invariant q[i + 1..] == sz[i + 1..dim]
      invariant forall k :: i < k < dim ==> sz[k] > 0
    {
      if sz[i] <= 0 {
        assert sz[..dim][i] == sz[i];
        return q, false;
      }
      q := q[i := sz[i]];
      i := i - 1;
    }
    assert q == q[0..] == sz[..dim];
    return q, true;
  }

  // ---------------------------------------------------------------- MatData

  /** The shared buffer record: its reference count, buffer address, byte size and elements. */
  class MatData {
    var refcount: int
    /** Address of the buffer; 0 once it is freed, or when fastMalloc failed. */
    var data: nat
    /** Bytes allocated: DT_ELEM_SIZE(type) times the number of elements. */
    var size: nat
    /** USER_MEMORY: the buffer belongs to the caller and is not freed. */
    var userMemory: bool
    /** The MatData has been deleted by its allocator. */
    var deleted: bool
    /** The elements of the buffer. */
    const cells: array<int>

    /** StdMatAllocator::allocate: a new record over a freshly allocated buffer, refcount 0. */
    constructor(data: nat, size: nat, count: nat)
      ensures this.refcount == 0 && this.data == data && this.size == size
      ensures !userMemory && !deleted
      ensures fresh(cells) && cells.Length == count
    {
      this.refcount := 0;
      this.data := data;
      this.size := size;
      this.userMemory := false;
      this.deleted := false;
      this.cells := new int[count];
    }

    /**
     * MatAllocator::unmap: a record nobody refers to any more is deallocated; its buffer is
     * freed unless it is user memory.
     */
    method Unmap()
      modifies this
      ensures refcount == old(refcount) && size == old(size) && userMemory == old(userMemory)
      ensures refcount == 0 ==> deleted && data == (if userMemory then old(data) else 0)
      ensures refcount != 0 ==> deleted == old(deleted) && data == old(data)
    {
      if refcount == 0 {
        if !userMemory {
          data := 0;
        }
        deleted := true;
      }
    }
  }

  /** The fill constructor's loop: the first n elements set to v, the others kept. */
  method Fill(a: array<int>, n: nat, v: int)
    requires n <= a.Length
    modifies a
    ensures forall i :: 0 <= i < a.Length ==> a[i] == (if i < n then v else old(a[i]))
  {
    var i := 0;
    while i < n
      invariant 0 <= i <= n
      invariant forall k :: 0 <= k < a.Length ==> a[k] == (if k < i then v else old(a[k]))
    {
      a[i] := v;
      i := i + 1;
    }
  }

  // ---------------------------------------------------------------- Mat

  class Mat {
    var dims: int
    /** size.p: one extent per dimension. */
    var sizes: seq<int>
    /** Address of the first element; 0 for none. */
    var data: nat
    /** The shared record, or null for a Mat that owns no buffer. */
    var u: MatData?
    var matType: nat

    predicate Valid()
      reads this
    {
      0 <= dims <= MAT_MAX_DIM && |sizes| == dims && matType < 16
    }

    /** Mat(): no dimensions, no data, type DT_32F. */
    constructor()
      ensures Valid()
      ensures dims == 0 && sizes == [] && data == 0 && u == null && matType == DT_32F
    {
      dims := 0;
      sizes := [];
      data := 0;
      u := null;
      matType := DT_32F;
    }

    /** total(): the product of the extents, multiplied from the last one down. */
    method Total() returns (p: int)
      requires Valid()
      ensures p == Product(sizes)
    {
      p := 1;
      var i := dims - 1;
      while i >= 0
        invariant -1 <= i < dims
        invariant p == Product(sizes[i + 1..])
      {
        ProductFrom(sizes, i);
        p := p * sizes[i];
        i := i - 1;
      }
      assert sizes[0..] == sizes;
    }

    /** total(startDim, endDim): the product over [startDim, min(endDim, dims)). */
    method TotalRange(startDim: int, endDim: int) returns (p: int)
      requires Valid() && 0 <= startDim <= endDim
      ensures p == Product(Span(sizes, startDim, endDim))
    {
      p := 1;
      var last := if endDim <= dims then endDim else dims;
      var i := startDim;
      while i < last
        invariant i == startDim || startDim < i <= last
        invariant p == Product(Span(sizes, startDim, i))
      {
        SpanSnoc(sizes, startDim, i);
        p := p * sizes[i];
        i := i + 1;
      }
      assert Span(sizes, startDim, i) == Span(sizes, startDim, endDim);
    }

    /**
     * empty(): no data, no element or no dimension.  A Mat is empty exactly when one of
     * these holds: its data is null, it has no dimension, or one of its extents is zero.
     */
    predicate IsEmpty()
      reads this
    {
      data == 0 || Product(sizes) == 0 || dims == 0
    }

    /** IsEmpty in terms of the extents themselves rather than their product. */
    lemma EmptyIff()
      ensures IsEmpty() <==> data == 0 || dims == 0 || exists i :: 0 <= i < |sizes| && sizes[i] == 0
    {
      ProductZeroIff(sizes);
    }

    /** shape(): the extents, or [] for an empty Mat. */
    function Shape(): (r: seq<int>)
      requires Valid()
      reads this
      ensures r == [] <==> IsEmpty()
      ensures r != [] ==> r == sizes && Product(r) != 0
    {
      if IsEmpty() then [] else sizes
    }

    /**
     * release(): drop this Mat's reference.  The record is deallocated when the count was 1;
     * the Mat is left without data and with every extent zero.
     */
    method Release()
      requires Valid()
      modifies this, u
      ensures Valid()
      ensures u == null && data == 0 && dims == old(dims) && sizes == Zeros(old(dims))
      ensures matType == old(matType)
      ensures old(u) != null ==>
                && old(u).refcount == old(u.refcount) - 1
                && old(u).deleted == (old(u.refcount) == 1 || old(u.deleted))
                && old(u).data == (if old(u.refcount) == 1 && !old(u.userMemory) then 0 else old(u.data))
                && old(u).userMemory == old(u.userMemory)
    {
      if u != null {
        var before := u.refcount;
        u.refcount := before - 1;
        if before == 1 {
          u.Unmap();
        }
      }
      u := null;
      data := 0;
      sizes := Zeros(dims);
    }

    /**
     * _setSize(m, dim, sz) with extents given: the extents are written from the last one
     * down, and a non-positive one releases the Mat, which zeroes them all.
     */
    method SetSize(dim: nat, sz: seq<int>)
      requires Valid() && dim <= MAT_MAX_DIM && dim <= |sz|
      modifies this, u
      ensures Valid()
      ensures dims == dim && sizes == SetSizeExtents(sz, dim) && matType == old(matType)
      ensures AllPositive(sz[..dim]) ==> u == old(u) && data == old(data)
      ensures AllPositive(sz[..dim]) && old(u) != null ==>
                old(u).refcount == old(u.refcount) && old(u).deleted == old(u.deleted)
                && old(u).data == old(u.data)
      ensures !AllPositive(sz[..dim]) ==> u == null && data == 0
      ensures !AllPositive(sz[..dim]) && old(u) != null ==>
                && old(u).refcount == old(u.refcount) - 1
                && old(u).deleted == (old(u.refcount) == 1 || old(u.deleted))
                && old(u).data == (if old(u.refcount) == 1 && !old(u.userMemory) then 0 else old(u.data))
    {
      dims := dim;
      var p, complete := WriteExtents(if |sizes| == dim then sizes else Zeros(dim), sz, dim);
      sizes := p;
      if !complete {
        Release();
      }
    }

    /** copySize(m): this Mat takes m's dimension count and extents. */
    method CopySize(m: Mat)
      requires m.Valid()
      modifies this
      ensures dims == m.dims && sizes == m.sizes
      ensures data == old(data) && u == old(u) && matType == old(matType)
    {
      dims := m.dims;
      sizes := m.sizes;
    }

    /** Mat(const Mat& m): shares m's buffer and adds one to its reference count. */
    constructor Copy(m: Mat)
      requires m.Valid()
      modifies m.u
      ensures Valid()
      ensures dims == m.dims && sizes == m.sizes && data == m.data && u == m.u && matType == m.matType
      ensures m.u != null ==> m.u.refcount == old(m.u.refcount) + 1 && m.u.deleted == old(m.u.deleted)
    {
      dims := m.dims;
      sizes := m.sizes;
      data := m.data;
      u := m.u;
      matType := m.matType;
      new;
      if u != null {
        u.refcount := u.refcount + 1;
      }
    }

    /**
     * operator=(m): for another Mat, m's count goes up, then this Mat's own reference is
     * released, then it takes m's extents, data, record and type.  Assigning a Mat to itself
     * changes nothing.
     */
    method Assign(m: Mat)
      requires Valid() && m.Valid()
      modifies this, u, m.u
      ensures this == m ==> dims == old(dims) && sizes == old(sizes) && data == old(data)
                            && u == old(u) && matType == old(matType)
                            && (u != null ==> u.refcount == old(u.refcount))
      ensures Valid()
      ensures this != m ==>
                dims == old(m.dims) && sizes == old(m.sizes) && data == old(m.data)
                && u == old(m.u) && matType == old(m.matType)
      ensures this != m && old(m.u) != null && old(m.u) != old(u) ==>
                old(m.u).refcount == old(m.u.refcount) + 1
      ensures this != m && old(u) != null && old(u) != old(m.u) ==>
                old(u).refcount == old(u.refcount) - 1
                && old(u).deleted == (old(u.refcount) == 1 || old(u.deleted))
      ensures this != m && old(u) != null && old(u) == old(m.u) ==>
                old(u).refcount == old(u.refcount)
                && old(u).deleted == (old(u.refcount) == 0 || old(u.deleted))
    {
      if this != m {
        if m.u != null {
          m.u.refcount := m.u.refcount + 1;
        }
        var mu, md, mt := m.u, m.data, m.matType;
        Release();
        CopySize(m);
        data := md;
        u := mu;
        matType := mt;
      }
    }

    /**
     * create(dims, sizes, type): a Mat that already has data of this dimension count, type
     * and extents is left as it is.  Otherwise it is released, given the new type and
     * extents, and, when it then has elements, a new record of DT_ELEM_SIZE(type) * total
     * bytes at the address fastMalloc makes of `raw` (null when malloc failed), whose count
     * addref sets to 1.
     */
    method Create(newSizes: seq<int>, newType: nat, raw: nat)
      requires Valid() && 0 < |newSizes| <= MAT_MAX_DIM && newType < 16
      requires raw == 0 || (0 < raw && raw + POINTER_SIZE + MAT_MALLOC_ALIGN <= Pow2(WORD_BITS))
      modifies this, u
      ensures Valid()
      ensures old(data) != 0 && old(dims) == |newSizes| && old(matType) == newType
              && old(sizes) == newSizes ==>
                dims == old(dims) && sizes == old(sizes) && data == old(data) && u == old(u)
                && matType == old(matType)
                && (old(u) != null ==> old(u).refcount == old(u.refcount))
      ensures !(old(data) != 0 && old(dims) == |newSizes| && old(matType) == newType
                && old(sizes) == newSizes) ==>
                && dims == |newSizes| && sizes == SetSizeExtents(newSizes, |newSizes|)
                && matType == newType
                && (old(u) != null ==> old(u).refcount == old(u.refcount) - 1
                                       && old(u).deleted == (old(u.refcount) == 1 || old(u.deleted)))
                && (Product(sizes) == 0 ==> u == null && data == 0)
                && (Product(sizes) != 0 ==>
                      && u != null && fresh(u) && fresh(u.cells)
                      && u.refcount == 1 && !u.deleted && !u.userMemory
                      && u.cells.Length == Product(sizes)
                      && u.size == ElemSize(newType) * Product(sizes)
                      && u.data == (if raw == 0 then 0 else FastMallocPointer(raw))
                      && data == u.data)
    {
      if data != 0 && |newSizes| == dims && matType == newType {
        var same := MatSizeEqual(sizes, newSizes);
        if same {
          return;
        }
      }
      Release();
      matType := newType;
      SetSize(|newSizes|, newSizes);
      SetSizeProduct(newSizes, |newSizes|);
      assert newSizes[..|newSizes|] == newSizes;
      if AllPositive(newSizes) {
        ProductPositive(newSizes);
      }
      Allocate(raw);
    }

    /** create on a Mat that holds no data: it takes the new extents, type and record. */
    method CreateFromEmpty(newSizes: seq<int>, newType: nat, raw: nat)
      requires Valid() && data == 0 && u == null && 0 < |newSizes| <= MAT_MAX_DIM && newType < 16
      requires raw == 0 || (0 < raw && raw + POINTER_SIZE + MAT_MALLOC_ALIGN <= Pow2(WORD_BITS))
      modifies this
      ensures Valid()
      ensures dims == |newSizes| && sizes == SetSizeExtents(newSizes, |newSizes|) && matType == newType
      ensures Product(sizes) == 0 ==> u == null && data == 0
      ensures Product(sizes) != 0 ==>
                && u != null && fresh(u) && fresh(u.cells)
                && u.refcount == 1 && !u.deleted && !u.userMemory
                && u.cells.Length == Product(sizes)
                && u.size == ElemSize(newType) * Product(sizes)
                && u.data == (if raw == 0 then 0 else FastMallocPointer(raw))
                && data == u.data
    {
      Create(newSizes, newType, raw);
    }

    /**
     * The end of create, on a released Mat: a new record when there are elements, its count
     * raised to 1 by addref, and the data taken from it.
     */
    method Allocate(raw: nat)
      requires Valid() && u == null && data == 0
      requires raw == 0 || (0 < raw && raw + POINTER_SIZE + MAT_MALLOC_ALIGN <= Pow2(WORD_BITS))
      modifies this
      ensures Valid() && dims == old(dims) && sizes == old(sizes) && matType == old(matType)
      ensures Product(sizes) <= 0 ==> u == null && data == 0
      ensures Product(sizes) > 0 ==>
                && u != null && fresh(u) && fresh(u.cells)
                && u.refcount == 1 && !u.deleted && !u.userMemory
                && u.cells.Length == Product(sizes)
                && u.size == ElemSize(matType) * Product(sizes)
                && u.data == (if raw == 0 then 0 else FastMallocPointer(raw))
                && data == u.data
    {
      var total := Total();
      if total > 0 {
        var addr := if raw == 0 then 0 else FastMallocPointer(raw);
        u := new MatData(addr, ElemSize(matType) * total, total);
      }
      if u != null {
        u.refcount := u.refcount + 1;
        data := u.data;
      }
    }

    /** Mat(sizes, type): an empty Mat, then create. */
    constructor Sized(newSizes: seq<int>, newType: nat, raw: nat)
      requires 0 < |newSizes| <= MAT_MAX_DIM && newType < 16
      requires raw == 0 || (0 < raw && raw + POINTER_SIZE + MAT_MALLOC_ALIGN <= Pow2(WORD_BITS))
      ensures Valid()
      ensures dims == |newSizes| && sizes == SetSizeExtents(newSizes, |newSizes|) && matType == newType
      ensures Product(sizes) == 0 ==> u == null && data == 0
      ensures Product(sizes) != 0 ==>
                u != null && fresh(u) && u.refcount == 1 && u.cells.Length == Product(sizes)
                && data == u.data
    {
      dims := 0;
      sizes := [];
      data := 0;
      u := null;
      matType := DT_32F;
      new;
      Create(newSizes, newType, raw);
    }

    /**
     * Mat(sizes, type, v): a 32-bit type, create, then every one of the total() elements set
     * to v.  malloc's block `raw` must not be null, since the elements are then written.
     */
    constructor Filled(newSizes: seq<int>, newType: nat, v: int, raw: nat)
      requires newType == DT_32S || newType == DT_32U || newType == DT_32F
      requires 0 < |newSizes| <= MAT_MAX_DIM
      requires 0 < raw && raw + POINTER_SIZE + MAT_MALLOC_ALIGN <= SIZE_T_SPAN
      ensures Valid()
      ensures dims == |newSizes| && sizes == SetSizeExtents(newSizes, |newSizes|) && matType == newType
      ensures Product(sizes) == 0 ==> u == null && data == 0
      ensures Product(sizes) != 0 ==>
                u != null && fresh(u) && u.refcount == 1 && data == u.data != 0
                && u.cells.Length == Product(sizes)
                && forall i :: 0 <= i < u.cells.Length ==> u.cells[i] == v
    {
      dims := 0;
      sizes := [];
      data := 0;
      u := null;
      matType := newType;
      new;
      WordModulus();
      CreateFromEmpty(newSizes, newType, raw);
      FastMallocNonNull(raw);
      var all := Total();
      if u != null {
        var cells := u.cells;
        Fill(cells, all, v);
      }
    }

    /**
     * Mat(sizes, type, data): a Mat over the caller's buffer, with no record; a non-positive
     * extent releases it at once, which nulls the data.
     */
    constructor Wrap(newSizes: seq<int>, newType: nat, ptr: nat)
      requires |newSizes| <= MAT_MAX_DIM && newType < 16
      ensures Valid()
      ensures dims == |newSizes| && sizes == SetSizeExtents(newSizes, |newSizes|) && matType == newType
      ensures u == null && data == (if AllPositive(newSizes) then ptr else 0)
    {
      dims := 0;
      sizes := [];
      data := ptr;
      u := null;
      matType := newType;
      new;
      assert newSizes[..|newSizes|] == newSizes;
      SetSize(|newSizes|, newSizes);
    }
  }

  // ---------------------------------------------------------------- reshape

  /** The product of the new extents, multiplied from the first one. */
  method NewTotal(s: seq<int>) returns (p: int)
    ensures p == Product(s)
  {
    p := 1;
    var i := 0;
    while i < |s|
      invariant 0 <= i <= |s|
      invariant p == Product(s[..i])
    {
      assert s[..i + 1] == s[..i] + [s[i]];
      ProductSnoc(s[..i], s[i]);
      p := p * s[i];
      i := i + 1;
    }
    assert s[..i] == s;
  }

  /**
   * reshape(newSizes): with a different product of extents, an error message and a new empty
   * Mat.  Otherwise a new Mat assigned from m, so sharing its buffer and record, then given
   * the new extents; setSize asserts that there is at least one.  m itself is not changed.
   */
  method Reshape(m: Mat, newSizes: seq<int>) returns (r: Mat)
    requires m.Valid() && |newSizes| <= MAT_MAX_DIM
    requires Product(newSizes) == Product(m.sizes) ==> 0 < |newSizes|
    modifies m.u
    ensures fresh(r) && r.Valid()
    ensures m.dims == old(m.dims) && m.sizes == old(m.sizes) && m.data == old(m.data)
            && m.u == old(m.u) && m.matType == old(m.matType)
    ensures Product(newSizes) != Product(m.sizes) ==>
              r.dims == 0 && r.sizes == [] && r.data == 0 && r.u == null && r.matType == DT_32F
              && (m.u != null ==> m.u.refcount == old(m.u.refcount))
    ensures Product(newSizes) == Product(m.sizes) ==>
              r.dims == |newSizes| && r.sizes == SetSizeExtents(newSizes, |newSizes|)
              && r.matType == m.matType
              && (AllPositive(newSizes) ==> r.data == m.data && r.u == m.u)
              && (!AllPositive(newSizes) ==> r.data == 0 && r.u == null)
              && (m.u != null ==> m.u.refcount == old(m.u.refcount) + (if AllPositive(newSizes) then 1 else 0))
  {
    var newTotal := NewTotal(newSizes);
    var total := m.Total();
    if newTotal != total {
      r := new Mat();
      return;
    }
    r := new Mat();
    r.Assign(m);
    assert newSizes[..|newSizes|] == newSizes;
    r.SetSize(|newSizes|, newSizes);
  }
}
