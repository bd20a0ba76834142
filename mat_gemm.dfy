/**
 * Batched matrix products (src/core/mat_gemm.cpp).  The last two dimensions of an operand
 * are its matrix; the dimensions before them are batch dimensions, broadcast as numpy
 * broadcasts them.  Operands are values here: their extents, element type and elements in
 * row-major order.  The source's elements are fp32; the model's are integers, so every
 * sum is exact.
 */
module MatGemm {
  import opened Wrappers
  import opened Arith
  import opened Define
  import opened Shape
  import opened CoreUtils
  import opened CoreMat
  import BasicOp

  // ---------------------------------------------------------------- make_strides

  /** The batch dimensions of a shape: all but the last two. */
  function Batch(s: seq<int>): (r: seq<int>)
    requires |s| >= 2
    ensures |r| == |s| - 2
  {
    s[..|s| - 2]
  }

  /** Row-major strides of a list of extents: the product of the extents after each one. */
  function Strides(extents: seq<int>): (r: seq<int>)
    ensures |r| == |extents|
  {
    seq(|extents|, d requires 0 <= d < |extents| => Product(extents[d + 1..]))
  }

  /** What make_strides(shape) returns: the strides of the batch dimensions, or [1]. */
  function BatchStrides(shape: seq<int>): (r: seq<int>)
    requires |shape| >= 2
  {
    if |shape| == 2 then [1] else Strides(Batch(shape))
  }

  /**
   * make_strides(shape): one stride per batch dimension, filled from the last batch
   * dimension down with the running product, and [1] when there is no batch dimension.
   */
  method MakeStrides(shape: seq<int>) returns (strides: seq<int>)
    requires |shape| >= 2
    ensures strides == BatchStrides(shape)
  {
    var batch := shape[..|shape| - 2];
    strides := seq(|batch|, d => 0);
    var stride := 1;
    var i := |batch| - 1;
    while i >= 0
      invariant -1 <= i < |batch| && |strides| == |batch|
      invariant stride == Product(batch[i + 1..])
      invariant forall d :: i < d < |batch| ==> strides[d] == Product(batch[d + 1..])
    {
      strides := strides[i := stride];
      ProductFrom(batch, i);
      stride := stride * shape[i];
      i := i - 1;
    }
    if strides == [] {
      strides := strides + [1];
    }
  }

  /** Each stride is the next one times the next extent. */
  lemma StridesStep(extents: seq<int>, d: nat)
    requires d + 1 < |extents|
    ensures Strides(extents)[d] == Strides(extents)[d + 1] * extents[d + 1]
  {
    ProductFrom(extents, d + 1);
  }

  /** The last stride is 1. */
  lemma StridesLast(extents: seq<int>)
    requires extents != []
    ensures Strides(extents)[|extents| - 1] == 1
  {
    assert extents[|extents|..] == [];
  }

  /**
   * The strides make_strides promises: the last batch dimension has stride 1 and each
   * other one the next one's stride times the next extent.
   */
  lemma StridesRecurrence(shape: seq<int>)
    requires |shape| > 2
    ensures |BatchStrides(shape)| == |shape| - 2
    ensures BatchStrides(shape)[|shape| - 3] == 1
    ensures forall d :: 0 <= d < |shape| - 3 ==>
              BatchStrides(shape)[d] == BatchStrides(shape)[d + 1] * shape[d + 1]
  {
    var batch := Batch(shape);
    StridesLast(batch);
    forall d | 0 <= d < |shape| - 3
      ensures BatchStrides(shape)[d] == BatchStrides(shape)[d + 1] * shape[d + 1]
    {
      StridesStep(batch, d);
    }
  }

  /** Positive extents have positive strides. */
  lemma StridesPositive(extents: seq<int>)
    requires AllPositive(extents)
    ensures AllPositive(Strides(extents))
  {
    forall d | 0 <= d < |extents|
      ensures Strides(extents)[d] > 0
    {
      ProductPositive(extents[d + 1..]);
    }
  }

  /** Non-negative extents with a positive product are all positive. */
  lemma PositiveExtents(s: seq<int>)
    requires forall d :: 0 <= d < |s| ==> s[d] >= 0
    requires Product(s) > 0
    ensures AllPositive(s)
  {
    forall d | 0 <= d < |s|
      ensures s[d] > 0
    {
      if s[d] == 0 {
        ProductZero(s, d);
      }
    }
  }

  // ---------------------------------------------------------------- batch index

  /** The digits of t in the mixed radix the strides give, most significant first. */
  function Digits(t: int, strides: seq<int>): (r: seq<int>)
    requires AllPositive(strides)
    ensures |r| == |strides|
    decreases |strides|
  {
    if strides == [] then [] else [t / strides[0]] + Digits(t % strides[0], strides[1..])
  }

  /** One step of the digit loop. */
  lemma DigitsStep(t: int, strides: seq<int>, d: nat)
    requires AllPositive(strides) && d < |strides|
    ensures Digits(t, strides[d..]) == [t / strides[d]] + Digits(t % strides[d], strides[d + 1..])
  {
    assert strides[d..][1..] == strides[d + 1..];
  }

  /** The idx_c loop: batch i as one coordinate per batch dimension of the product. */
  method BatchIndex(i: nat, strides: seq<int>) returns (idx: seq<int>)
    requires AllPositive(strides)
    ensures idx == Digits(i, strides)
  {
    var tmp := i;
    idx := seq(|strides|, d => 0);
    var d := 0;
    while d < |strides|
      invariant 0 <= d <= |strides| && |idx| == |strides|
      invariant idx[..d] + Digits(tmp, strides[d..]) == Digits(i, strides)
    {
      DigitsStep(tmp, strides, d);
      ghost var before := idx[..d];
      idx := idx[d := tmp / strides[d]];
      assert idx[..d + 1] == before + [tmp / strides[d]];
      tmp := tmp % strides[d];
      d := d + 1;
    }
    assert idx[..d] == idx;
  }

  /**
   * The strides' own tail is the strides of the tail: dropping the leading extent keeps
   * every later stride.
   */
  lemma StridesTail(extents: seq<int>)
    requires extents != []
    ensures Strides(extents)[1..] == Strides(extents[1..])
  {
    forall d | 0 <= d < |extents| - 1
      ensures Strides(extents)[1..][d] == Strides(extents[1..])[d]
    {
      assert extents[d + 2..] == extents[1..][d + 1..];
    }
  }

  /** Each digit of an index below the product of the extents is below its extent. */
  lemma {:induction false} DigitsFit(extents: seq<int>, t: int)
    requires AllPositive(extents) && 0 <= t < Product(extents)
    ensures AllPositive(Strides(extents))
    ensures forall d :: 0 <= d < |extents| ==> 0 <= Digits(t, Strides(extents))[d] < extents[d]
  {
    StridesPositive(extents);
    if extents != [] {
      var rest := extents[1..];
      var p := Product(rest);
      ProductPositive(rest);
      StridesTail(extents);
      assert Strides(extents)[0] == p;
      DivBelow(t, extents[0], p);
      DigitsFit(rest, t % p);
      var ds := Digits(t, Strides(extents));
      assert ds == [t / p] + Digits(t % p, Strides(rest));
      forall d | 0 <= d < |extents|
        ensures 0 <= ds[d] < extents[d]
      {
        if d > 0 {
          assert ds[d] == Digits(t % p, Strides(rest))[d - 1];
        }
      }
    }
  }

  /** t / p is below n when t is below n * p. */
  lemma DivBelow(t: int, n: int, p: int)
    requires p > 0 && 0 <= t < n * p
    ensures 0 <= t / p < n
  {
    DivUnique(t, p, t / p, t % p);
  }

  // ---------------------------------------------------------------- lin_a, lin_b

  /** An operand's coordinate on a batch dimension: 0 on an extent of 1, else the product's. */
  function Coord(extent: int, i: int): int
  {
    if extent == 1 then 0 else i
  }

  /**
   * The linear batch index of an operand with batch extents sx, for the coordinates idx of
   * a batch of the product, the operand's dimensions aligned with the product's last ones
   * (the first at idx[off]): each coordinate times the product of the extents after it.
   */
  function Lin(sx: seq<int>, idx: seq<int>, off: nat): int
    requires off + |sx| <= |idx|
    decreases |sx|
  {
    if sx == [] then 0
    else Coord(sx[0], idx[off]) * Product(sx[1..]) + Lin(sx[1..], idx, off + 1)
  }

  /** One step of the lin loop. */
  lemma LinStep(sx: seq<int>, idx: seq<int>, off: nat, d: nat)
    requires d < |sx| && off + |sx| <= |idx|
    ensures Lin(sx[d..], idx, off + d)
            == Coord(sx[d], idx[off + d]) * Product(sx[d + 1..]) + Lin(sx[d + 1..], idx, off + d + 1)
  {
    assert sx[d..][1..] == sx[d + 1..];
  }

  /**
   * The lin loop as the product's batch dimensions are meant to be matched: over the
   * operand's own batch dimensions, each aligned with the product's dimension off places
   * to its right.
   */
  method LinearIndex(shapeX: seq<int>, stridesX: seq<int>, idx: seq<int>, off: nat) returns (lin: int)
    requires |shapeX| >= 2 && stridesX == BatchStrides(shapeX)
    requires off + |shapeX| - 2 <= |idx|
    ensures lin == Lin(Batch(shapeX), idx, off)
  {
    var sx := Batch(shapeX);
    lin := 0;
    var d := 0;
    while d < |sx|
      invariant 0 <= d <= |sx|
      invariant lin + Lin(sx[d..], idx, off + d) == Lin(sx, idx, off)
    {
      LinStep(sx, idx, off, d);
      var coord := if shapeX[d] == 1 then 0 else idx[off + d];
      lin := lin + coord * stridesX[d];
      d := d + 1;
    }
  }

  /**
   * lin_a and lin_b as written: over the operand's strides, each batch dimension d paired
   * with the product's coordinate d, so aligned from the left.
   */
  function LinAsWritten(shapeX: seq<int>, stridesX: seq<int>, idx: seq<int>): (r: int)
    requires |stridesX| <= |shapeX| && |stridesX| <= |idx|
    ensures (forall d :: 0 <= d < |stridesX| ==> shapeX[d] == 1) ==> r == 0
    decreases |stridesX|
  {
    if stridesX == [] then 0
    else
      var d := |stridesX| - 1;
      LinAsWritten(shapeX, stridesX[..d], idx) + Coord(shapeX[d], idx[d]) * stridesX[d]
  }

  /** The written sum over the first k strides, plus the rest of the aligned sum. */
  lemma {:induction false} LinPrefix(shapeX: seq<int>, idx: seq<int>, k: nat)
    requires |shapeX| > 2 && |shapeX| - 2 <= |idx| && k <= |shapeX| - 2
    ensures var b := Batch(shapeX);
            LinAsWritten(shapeX, Strides(b)[..k], idx) + Lin(b[k..], idx, k) == Lin(b, idx, 0)
  {
    var b := Batch(shapeX);
    if k == 0 {
      assert b[0..] == b;
    } else {
      LinPrefix(shapeX, idx, k - 1);
      LinStep(b, idx, 0, k - 1);
      assert Strides(b)[..k][..k - 1] == Strides(b)[..k - 1];
    }
  }

  /**
   * With the operand's rank equal to the product's, pairing from the left is pairing from
   * the right: the written lin is the aligned one.
   */
  lemma LinAgrees(shapeX: seq<int>, idx: seq<int>)
    requires |shapeX| > 2 && |idx| == |shapeX| - 2
    ensures LinAsWritten(shapeX, BatchStrides(shapeX), idx) == Lin(Batch(shapeX), idx, 0)
  {
    var b := Batch(shapeX);
    LinPrefix(shapeX, idx, |b|);
    assert Strides(b)[..|b|] == Strides(b);
    assert b[|b|..] == [];
  }

  /** Coordinates shifted by one place give the same lin one place further on. */
  lemma {:induction false} LinShift(sx: seq<int>, q: int, idx: seq<int>, off: nat)
    requires off + |sx| <= |idx|
    ensures Lin(sx, [q] + idx, off + 1) == Lin(sx, idx, off)
    decreases |sx|
  {
    if sx != [] {
      LinShift(sx[1..], q, idx, off + 1);
    }
  }

  /** The first digit is the quotient by the first stride, the rest the digits of the remainder. */
  lemma DigitsHead(extents: seq<int>, t: int)
    requires AllPositive(extents) && extents != []
    ensures AllPositive(Strides(extents)) && AllPositive(Strides(extents[1..]))
    ensures var p := Product(extents[1..]);
            p > 0 && Digits(t, Strides(extents)) == [t / p] + Digits(t % p, Strides(extents[1..]))
  {
    StridesPositive(extents);
    StridesPositive(extents[1..]);
    ProductPositive(extents[1..]);
    StridesTail(extents);
  }

  /** A quotient times its divisor plus the remainder is the dividend. */
  lemma Recompose(t: int, p: int, whole: int, rest: int)
    requires p > 0 && whole == (t / p) * p + rest && rest == t % p
    ensures whole == t
  {
  }

  /** The lin of a leading coordinate q followed by coordinates whose lin is r. */
  lemma LinHead(extents: seq<int>, q: int, ds: seq<int>)
    requires extents != [] && |ds| == |extents| - 1 && 0 <= q < extents[0]
    ensures Lin(extents, [q] + ds, 0) == q * Product(extents[1..]) + Lin(extents[1..], ds, 0)
  {
    LinShift(extents[1..], q, ds, 0);
  }

  /**
   * An operand with the product's own batch extents reads the product's batch: its lin is
   * the batch number itself, extents of 1 included.
   */
  lemma {:induction false} DigitsRoundTrip(extents: seq<int>, t: int)
    requires AllPositive(extents) && 0 <= t < Product(extents)
    ensures AllPositive(Strides(extents))
    ensures Lin(extents, Digits(t, Strides(extents)), 0) == t
    decreases |extents|
  {
    StridesPositive(extents);
    if extents != [] {
      var p := Product(extents[1..]);
      DigitsHead(extents, t);
      DivBelow(t, extents[0], p);
      var q, r := t / p, t % p;
      var ds := Digits(r, Strides(extents[1..]));
      DigitsRoundTrip(extents[1..], r);
      LinHead(extents, q, ds);
      Recompose(t, p, Lin(extents, [q] + ds, 0), Lin(extents[1..], ds, 0));
    }
  }

  /** An operand whose batch extents are all 1 is read at batch 0 for every batch. */
  lemma {:induction false} LinOfOnes(sx: seq<int>, idx: seq<int>, off: nat)
    requires off + |sx| <= |idx| && forall d :: 0 <= d < |sx| ==> sx[d] == 1
    ensures Lin(sx, idx, off) == 0
    decreases |sx|
  {
    if sx != [] {
      LinOfOnes(sx[1..], idx, off + 1);
    }
  }

  /** The batch dimensions of x sit under those of z, aligned from the right: each is 1 or z's. */
  predicate Aligned(x: seq<int>, z: seq<int>)
  {
    |x| <= |z| && forall d :: 0 <= d < |x| ==> x[d] == 1 || x[d] == z[d + |z| - |x|]
  }

  /** Coordinates that fit the extents they are aligned with. */
  predicate CoordsFit(sx: seq<int>, idx: seq<int>, off: nat)
    requires off + |sx| <= |idx|
  {
    forall d :: 0 <= d < |sx| ==> sx[d] >= 1 && (sx[d] == 1 || 0 <= idx[off + d] < sx[d])
  }

  /** nx + x is at most n * p when x < p and nx <= (n - 1) * p. */
  lemma MixedRadixStep(c: int, n: int, p: int, x: int)
    requires 0 <= c < n && p > 0 && 0 <= x < p
    ensures 0 <= c * p + x < n * p
  {
    assert c * p <= (n - 1) * p;
  }

  /** An operand's lin for fitting coordinates lies inside its batch extents' product. */
  lemma {:induction false} LinBound(sx: seq<int>, idx: seq<int>, off: nat)
    requires off + |sx| <= |idx| && CoordsFit(sx, idx, off)
    ensures 0 <= Lin(sx, idx, off) < Product(sx)
    decreases |sx|
  {
    if sx != [] {
      var rest := sx[1..];
      assert CoordsFit(rest, idx, off + 1) by {
        forall d | 0 <= d < |rest|
          ensures rest[d] >= 1 && (rest[d] == 1 || 0 <= idx[off + 1 + d] < rest[d])
        {
          assert rest[d] == sx[d + 1];
        }
      }
      LinBound(rest, idx, off + 1);
      ProductPositive(rest);
      MixedRadixStep(Coord(sx[0], idx[off]), sx[0], Product(rest), Lin(rest, idx, off + 1));
    }
  }

  /** A shape's product is its batch product times its matrix size. */
  lemma ProductLastTwo(s: seq<int>)
    requires |s| >= 2
    ensures Product(s) == Product(Batch(s)) * (s[|s| - 2] * s[|s| - 1])
  {
    assert s == Batch(s) + [s[|s| - 2], s[|s| - 1]];
    ProductAppend(Batch(s), [s[|s| - 2], s[|s| - 1]]);
    assert Product([s[|s| - 2], s[|s| - 1]]) == s[|s| - 2] * Product([s[|s| - 1]]);
    assert [s[|s| - 2], s[|s| - 1]][1..] == [s[|s| - 1]];
    assert Product([s[|s| - 1]]) == s[|s| - 1] * Product([]);
  }

  /**
   * Broadcasting aligns each side under the result from the right, each extent 1 or the
   * result's; positive extents broadcast to positive extents.
   */
  lemma {:induction false} BroadcastAligned(x: seq<int>, y: seq<int>)
    requires CoreUtils.Broadcast(x, y).Some?
    ensures Aligned(x, CoreUtils.Broadcast(x, y).value) && Aligned(y, CoreUtils.Broadcast(x, y).value)
    ensures AllPositive(x) && AllPositive(y) ==> AllPositive(CoreUtils.Broadcast(x, y).value)
    decreases |x| + |y|
  {
    if x != [] && y != [] {
      var x', y' := x[..|x| - 1], y[..|y| - 1];
      BroadcastAligned(x', y');
      var z' := CoreUtils.Broadcast(x', y').value;
      var z := CoreUtils.Broadcast(x, y).value;
      assert z == z' + [CoreUtils.Combine(x[|x| - 1], y[|y| - 1])];
      assert forall d :: 0 <= d < |z'| ==> z[d] == z'[d];
    }
  }

  // ---------------------------------------------------------------- matrices of a batch

  /** The rows x cols matrix stored row-major from element `base` of a buffer. */
  datatype View = View(buf: seq<int>, base: nat, rows: nat, cols: nat)

  /** The matrix lies inside its buffer. */
  predicate Fits(v: View)
  {
    v.base + v.rows * v.cols <= |v.buf|
  }

  /** Element (r, c) of the matrix. */
  function At(v: View, r: nat, c: nat): int
    requires Fits(v) && r < v.rows && c < v.cols
  {
    MixedRadixStep(r, v.rows, v.cols, c);
    v.buf[v.base + r * v.cols + c]
  }

  /** Row m of x times column n of y over the first k terms: the sum of x(m, t) * y(t, n). */
  function RowTimesColumn(x: View, y: View, m: nat, n: nat, k: nat): int
    requires Fits(x) && Fits(y) && m < x.rows && n < y.cols && k <= x.cols && k <= y.rows
  {
    if k == 0 then 0 else RowTimesColumn(x, y, m, n, k - 1) + At(x, m, k - 1) * At(y, k - 1, n)
  }

  /** Row m of x times row n of y over the first k terms: the sum of x(m, t) * y(n, t). */
  function RowTimesRow(x: View, y: View, m: nat, n: nat, k: nat): int
    requires Fits(x) && Fits(y) && m < x.rows && n < y.rows && k <= x.cols && k <= y.cols
  {
    if k == 0 then 0 else RowTimesRow(x, y, m, n, k - 1) + At(x, m, k - 1) * At(y, n, k - 1)
  }

  /** The k loop of gemm_impl_naive: sum += paim[k] * pbin[k * N]. */
  method DotColumn(x: View, y: View, m: nat, n: nat) returns (sum: int)
    requires Fits(x) && Fits(y) && m < x.rows && n < y.cols && x.cols == y.rows
    ensures sum == RowTimesColumn(x, y, m, n, x.cols)
  {
    sum := 0;
    var k := 0;
    while k < x.cols
      invariant k <= x.cols && sum == RowTimesColumn(x, y, m, n, k)
    {
      MixedRadixStep(m, x.rows, x.cols, k);
      MixedRadixStep(k, y.rows, y.cols, n);
      sum := sum + x.buf[x.base + x.cols * m + k] * y.buf[y.base + n + k * y.cols];
      k := k + 1;
    }
  }

  /** The k loop of gemm_impl_row: sum += paim[k] * pbin[k], pbin = pbi + n * K. */
  method DotRow(x: View, y: View, m: nat, n: nat) returns (sum: int)
    requires Fits(x) && Fits(y) && m < x.rows && n < y.rows && x.cols == y.cols
    ensures sum == RowTimesRow(x, y, m, n, x.cols)
  {
    sum := 0;
    var k := 0;
    while k < x.cols
      invariant k <= x.cols && sum == RowTimesRow(x, y, m, n, k)
    {
      MixedRadixStep(m, x.rows, x.cols, k);
      MixedRadixStep(n, y.rows, y.cols, k);
      sum := sum + x.buf[x.base + x.cols * m + k] * y.buf[y.base + n * y.cols + k];
      k := k + 1;
    }
  }

  /** The matrix y transposed, in a buffer of its own. */
  function Transposed(y: View): (t: View)
    requires Fits(y)
    ensures Fits(t) && t.rows == y.cols && t.cols == y.rows
  {
    View(seq(y.cols * y.rows, p requires 0 <= p < y.cols * y.rows =>
                 DivBelow(p, y.cols, y.rows); At(y, p % y.rows, p / y.rows)),
         0, y.cols, y.rows)
  }

  /** Element (r, c) of the transpose is element (c, r). */
  lemma TransposedAt(y: View, r: nat, c: nat)
    requires Fits(y) && r < y.cols && c < y.rows
    ensures At(Transposed(y), r, c) == At(y, c, r)
  {
    MixedRadixStep(r, y.cols, y.rows, c);
    DivUnique(r * y.rows + c, y.rows, r, c);
  }

  /**
   * The row kernel's sum is the naive kernel's sum against the transpose: row m of x times
   * row n of y is row m of x times column n of y transposed.
   */
  lemma {:induction false} RowTimesRowTransposed(x: View, y: View, m: nat, n: nat, k: nat)
    requires Fits(x) && Fits(y) && m < x.rows && n < y.rows && k <= x.cols && k <= y.cols
    ensures RowTimesRow(x, y, m, n, k) == RowTimesColumn(x, Transposed(y), m, n, k)
  {
    if k > 0 {
      RowTimesRowTransposed(x, y, m, n, k - 1);
      TransposedAt(y, k - 1, n);
    }
  }

  // ---------------------------------------------------------------- batches of the operands

  /**
   * Operand x can be read as a factor of a product of shape z: it is a matrix or a batch of
   * them, its extents are positive, its buffer holds total() elements, and its batch
   * dimensions are aligned under z's from the right.
   */
  predicate Under(x: BasicOp.Operand, z: seq<int>)
  {
    && 2 <= |x.sizes| <= |z| && BasicOp.WellFormed(x) && AllPositive(x.sizes) && AllPositive(z)
    && Aligned(Batch(x.sizes), Batch(z))
  }

  /** The batch of x that batch i of the product reads lies inside x's batches. */
  lemma BatchLinBound(x: BasicOp.Operand, z: seq<int>, i: nat)
    requires Under(x, z) && i < Product(Batch(z))
    ensures AllPositive(Strides(Batch(z)))
    ensures 0 <= Lin(Batch(x.sizes), Digits(i, Strides(Batch(z))), |z| - |x.sizes|) < Product(Batch(x.sizes))
  {
    var bx, bz := Batch(x.sizes), Batch(z);
    DigitsFit(bz, i);
    var idx, off := Digits(i, Strides(bz)), |z| - |x.sizes|;
    forall d | 0 <= d < |bx|
      ensures bx[d] >= 1 && (bx[d] == 1 || 0 <= idx[off + d] < bx[d])
    {
      assert bx[d] == x.sizes[d];
    }
    LinBound(bx, idx, off);
  }

  /** lin + 1 blocks of size rc fit in p blocks when lin < p. */
  lemma BlockFits(lin: int, p: int, rc: int)
    requires 0 <= lin < p && rc >= 0
    ensures lin * rc + rc <= p * rc
  {
    assert (p - lin - 1) * rc >= 0;
  }

  /** Block lin of p blocks of r * c elements starts at a natural offset and ends inside them. */
  lemma ViewInside(lin: int, p: int, r: int, c: int, len: int)
    requires 0 <= lin < p && r >= 0 && c >= 0 && len == p * (r * c)
    ensures 0 <= lin * (r * c) && lin * (r * c) + r * c <= len
  {
    BlockFits(lin, p, r * c);
  }

  /**
   * Matrix number i of operand x in a product of shape z: the batch Lin picks (coordinate 0
   * on an extent of 1), with x's last two extents as rows and columns.
   */
  function BatchView(x: BasicOp.Operand, z: seq<int>, i: nat): (v: View)
    requires Under(x, z) && i < Product(Batch(z))
    ensures Fits(v) && v.buf == x.data
    ensures v.rows == x.sizes[|x.sizes| - 2] && v.cols == x.sizes[|x.sizes| - 1]
  {
    BatchLinBound(x, z, i);
    var s := x.sizes;
    var r, c := s[|s| - 2], s[|s| - 1];
    var lin := Lin(Batch(s), Digits(i, Strides(Batch(z))), |z| - |s|);
    ProductLastTwo(s);
    ViewInside(lin, Product(Batch(s)), r, c, |x.data|);
    View(x.data, lin * (r * c), r, c)
  }

  /** Both operands of a product whose batch shape is their broadcast can be read under it. */
  lemma BroadcastUnder(a: BasicOp.Operand, b: BasicOp.Operand, z: seq<int>)
    requires |a.sizes| >= 2 && |b.sizes| >= 2 && |z| >= 2
    requires BasicOp.WellFormed(a) && BasicOp.WellFormed(b) && AllPositive(a.sizes) && AllPositive(b.sizes)
    requires CoreUtils.Broadcast(Batch(a.sizes), Batch(b.sizes)) == Some(Batch(z))
    requires z[|z| - 2] > 0 && z[|z| - 1] > 0
    ensures Under(a, z) && Under(b, z)
  {
    var ba, bb := Batch(a.sizes), Batch(b.sizes);
    assert AllPositive(ba) && AllPositive(bb);
    BroadcastAligned(ba, bb);
    CoreUtils.BroadcastSymmetric(ba, bb);
    assert forall d :: 0 <= d < |z| - 2 ==> z[d] == Batch(z)[d];
  }

  /** A row-major index below B * (M * N) splits into a batch, a row and a column. */
  lemma SplitFlat(j: int, bn: int, m: int, n: int)
    requires m > 0 && n > 0 && 0 <= j < bn * (m * n)
    ensures 0 <= j / (m * n) < bn
    ensures 0 <= (j % (m * n)) / n < m && 0 <= (j % (m * n)) % n < n
  {
    DivBelow(j, bn, m * n);
    DivBelow(j % (m * n), m, n);
  }

  /** Batch i, row r, column c sit at i * (M * N) + r * N + c, and nowhere else. */
  lemma JoinFlat(i: int, r: int, c: int, m: int, n: int)
    requires 0 <= i && 0 <= r < m && 0 <= c < n
    ensures 0 <= r * n + c < m * n
    ensures (i * (m * n) + r * n + c) / (m * n) == i
    ensures ((i * (m * n) + r * n + c) % (m * n)) / n == r
    ensures ((i * (m * n) + r * n + c) % (m * n)) % n == c
  {
    MixedRadixStep(r, m, n, c);
    DivUnique(i * (m * n) + r * n + c, m * n, i, r * n + c);
    DivUnique(r * n + c, n, r, c);
  }

  /** The batch below bn that ends at (i + 1) * (M * N) is inside bn * (M * N). */
  lemma BatchEnd(i: int, bn: int, mn: int)
    requires 0 <= i < bn && mn >= 0
    ensures i * mn + mn <= bn * mn
  {
    BlockFits(i, bn, mn);
  }

  // ---------------------------------------------------------------- the two kernels

  /** Why gemm gives up (an M_Assert or M_Error in the source). */
  datatype GemmFailure =
    | RankBelowTwo    // an operand's shape() has fewer than two extents
    | ShapeMismatch   // batch dimensions that do not broadcast
    | InnerMismatch   // the K of a and of b differ
    | TypeMismatch    // a and b have different element types
    | NotFloat        // the element type is not DT_32F

  /**
   * How a kernel reads b: gemm_impl_naive takes b as K x N and multiplies row m of a by
   * column n of b; gemm_impl_row takes b untransposed as N x K and multiplies by row n.
   */
  datatype Layout = ColumnsOfB | RowsOfB

  /** Mat invariant: no extent is negative. */
  predicate NonNegative(s: seq<int>)
  {
    forall d :: 0 <= d < |s| ==> s[d] >= 0
  }

  /** Mat::shape(): the extents, or [] for an empty Mat. */
  function ShapeOf(x: BasicOp.Operand): seq<int>
  {
    if BasicOp.Empty(x) then [] else x.sizes
  }

  /** A Mat that is not empty has positive extents. */
  lemma NonEmptyPositive(x: BasicOp.Operand)
    requires NonNegative(x.sizes) && !BasicOp.Empty(x)
    ensures AllPositive(x.sizes)
  {
    ProductNonNegative(x.sizes);
    PositiveExtents(x.sizes);
  }

  /** The extent of b that must equal a's K: b's rows for the naive kernel, its columns for the row kernel. */
  function InnerOf(l: Layout, sb: seq<int>): int
    requires |sb| >= 2
  {
    if l == ColumnsOfB then sb[|sb| - 2] else sb[|sb| - 1]
  }

  /** The extent of b that gives the product's columns. */
  function ColumnsOf(l: Layout, sb: seq<int>): int
    requires |sb| >= 2
  {
    if l == ColumnsOfB then sb[|sb| - 1] else sb[|sb| - 2]
  }

  /**
   * The product's shape: the broadcast batch dimensions, then a's rows and b's columns
   * (get_gemm_shape for the naive kernel, gemm_impl_row's own loop for the row kernel).
   */
  function ProductShape(l: Layout, sa: seq<int>, sb: seq<int>): (r: Option<seq<int>>)
    requires |sa| >= 2 && |sb| >= 2
    ensures l == ColumnsOfB ==> r == CoreUtils.GemmShape(sa, sb)
  {
    CoreUtils.Then(CoreUtils.Broadcast(Batch(sa), Batch(sb)), [sa[|sa| - 2], ColumnsOf(l, sb)])
  }

  /** A kernel's checks passed: z is the product's shape and the Ks agree. */
  predicate Checked(l: Layout, a: BasicOp.Operand, b: BasicOp.Operand, z: seq<int>)
  {
    && |a.sizes| >= 2 && |b.sizes| >= 2 && BasicOp.WellFormed(a) && BasicOp.WellFormed(b)
    && AllPositive(a.sizes) && AllPositive(b.sizes)
    && ProductShape(l, a.sizes, b.sizes) == Some(z)
    && a.sizes[|a.sizes| - 1] == InnerOf(l, b.sizes)
  }

  /**
   * What the kernels' loops rely on: both operands can be read under z, z ends with a's
   * rows and b's columns, and the Ks agree.
   */
  predicate Ready(l: Layout, a: BasicOp.Operand, b: BasicOp.Operand, z: seq<int>)
  {
    && Under(a, z) && Under(b, z)
    && z[|z| - 2] == a.sizes[|a.sizes| - 2] && z[|z| - 1] == ColumnsOf(l, b.sizes)
    && a.sizes[|a.sizes| - 1] == InnerOf(l, b.sizes)
  }

  /** Once the checks pass, the product's shape has the larger rank and the loops can run. */
  lemma CheckedReady(l: Layout, a: BasicOp.Operand, b: BasicOp.Operand, z: seq<int>)
    requires Checked(l, a, b, z)
    ensures Ready(l, a, b, z)
    ensures |z| == if |a.sizes| >= |b.sizes| then |a.sizes| else |b.sizes|
  {
    var ba, bb := Batch(a.sizes), Batch(b.sizes);
    CoreUtils.BroadcastSymmetric(ba, bb);
    assert Batch(z) == CoreUtils.Broadcast(ba, bb).value;
    BroadcastUnder(a, b, z);
  }

  /** The product has a positive number of batches, each of M * N elements. */
  lemma ReadyFacts(l: Layout, a: BasicOp.Operand, b: BasicOp.Operand, z: seq<int>)
    requires Ready(l, a, b, z)
    ensures Product(z) == Product(Batch(z)) * (z[|z| - 2] * z[|z| - 1])
    ensures Product(Batch(z)) > 0
  {
    ProductLastTwo(z);
    assert AllPositive(Batch(z));
    ProductPositive(Batch(z));
  }

  /** Row m of a's matrix for batch i times column or row n of b's, as the layout says. */
  function Cell(l: Layout, a: BasicOp.Operand, b: BasicOp.Operand, z: seq<int>, i: nat, m: nat, n: nat): int
    requires Ready(l, a, b, z) && i < Product(Batch(z))
    requires m < a.sizes[|a.sizes| - 2] && n < ColumnsOf(l, b.sizes)
  {
    ReadyFacts(l, a, b, z);
    var x, y := BatchView(a, z, i), BatchView(b, z, i);
    if l == ColumnsOfB then RowTimesColumn(x, y, m, n, x.cols) else RowTimesRow(x, y, m, n, x.cols)
  }

  /** Element j of the product, in the row-major order the kernels write it. */
  function Entry(l: Layout, a: BasicOp.Operand, b: BasicOp.Operand, z: seq<int>, j: nat): int
    requires Ready(l, a, b, z) && j < Product(z)
  {
    ReadyFacts(l, a, b, z);
    var mr, nc := z[|z| - 2], z[|z| - 1];
    SplitFlat(j, Product(Batch(z)), mr, nc);
    var q := j % (mr * nc);
    Cell(l, a, b, z, j / (mr * nc), q / nc, q % nc)
  }

  /** Entry (i, m, n) of the product is the cell for batch i, row m, column n. */
  lemma EntryAt(l: Layout, a: BasicOp.Operand, b: BasicOp.Operand, z: seq<int>, mr: nat, nc: nat,
                i: nat, m: nat, n: nat, j: nat)
    requires Ready(l, a, b, z) && mr == z[|z| - 2] && nc == z[|z| - 1]
    requires i < Product(Batch(z)) && m < mr && n < nc && j == i * (mr * nc) + m * nc + n
    ensures j < Product(z) && Entry(l, a, b, z, j) == Cell(l, a, b, z, i, m, n)
  {
    ReadyFacts(l, a, b, z);
    JoinFlat(i, m, n, mr, nc);
    BatchEnd(i, Product(Batch(z)), mr * nc);
  }

  /** The elements of the product, total(shape_c) of them. */
  function Elements(l: Layout, a: BasicOp.Operand, b: BasicOp.Operand, z: seq<int>): (c: seq<int>)
    requires Ready(l, a, b, z)
    ensures |c| == Product(z)
  {
    ReadyFacts(l, a, b, z);
    ProductPositive(z);
    seq(Product(z), j requires 0 <= j < Product(z) => Entry(l, a, b, z, j))
  }

  /**
   * gemm_impl_naive (ColumnsOfB) and gemm_impl_row (RowsOfB): the checks in the order the
   * source makes them, then a new DT_32F Mat of the product's shape holding the batched
   * product.
   */
  function KernelResult(l: Layout, a: BasicOp.Operand, b: BasicOp.Operand): Result<BasicOp.Operand, GemmFailure>
    requires BasicOp.WellFormed(a) && BasicOp.WellFormed(b) && NonNegative(a.sizes) && NonNegative(b.sizes)
  {
    var sa, sb := ShapeOf(a), ShapeOf(b);
    if |sa| < 2 || |sb| < 2 then Err(RankBelowTwo)
    else if ProductShape(l, sa, sb).None? then Err(ShapeMismatch)
    else if sa[|sa| - 1] != InnerOf(l, sb) then Err(InnerMismatch)
    else if a.matType != b.matType then Err(TypeMismatch)
    else if a.matType != DT_32F then Err(NotFloat)
    else
      NonEmptyPositive(a);
      NonEmptyPositive(b);
      var z := ProductShape(l, sa, sb).value;
      CheckedReady(l, a, b, z);
      Ok(BasicOp.Operand(DT_32F, z, Elements(l, a, b, z)))
  }

  /**
   * The lin loop over make_strides(shape_c) reads the batch BatchView reads; when the
   * product has no batch dimension, make_strides gives [1] and the operand has none either.
   */
  lemma LinOfProductStrides(x: BasicOp.Operand, z: seq<int>, i: nat)
    requires Under(x, z) && i < Product(Batch(z))
    ensures AllPositive(BatchStrides(z)) && AllPositive(Strides(Batch(z)))
    ensures |z| - |x.sizes| + |x.sizes| - 2 <= |Digits(i, BatchStrides(z))|
    ensures Lin(Batch(x.sizes), Digits(i, BatchStrides(z)), |z| - |x.sizes|)
            == Lin(Batch(x.sizes), Digits(i, Strides(Batch(z))), |z| - |x.sizes|)
  {
    StridesPositive(Batch(z));
    if |z| == 2 {
      assert Batch(x.sizes) == [];
    }
  }

  /** lin_a (lin_b) from idx_c counts the matrices before the one BatchView reads. */
  lemma ViewBase(x: BasicOp.Operand, z: seq<int>, i: nat, lin: int)
    requires Under(x, z) && i < Product(Batch(z)) && AllPositive(BatchStrides(z))
    requires |z| - 2 <= |Digits(i, BatchStrides(z))|
    requires lin == Lin(Batch(x.sizes), Digits(i, BatchStrides(z)), |z| - |x.sizes|)
    ensures BatchView(x, z, i).base == lin * (x.sizes[|x.sizes| - 2] * x.sizes[|x.sizes| - 1])
  {
    LinOfProductStrides(x, z, i);
  }

  /** The first |c| elements of the product are c. */
  predicate Prefix(l: Layout, a: BasicOp.Operand, b: BasicOp.Operand, z: seq<int>, c: seq<int>)
    requires Ready(l, a, b, z)
  {
    |c| <= Product(z) && forall j :: 0 <= j < |c| ==> c[j] == Entry(l, a, b, z, j)
  }

  /** Nothing written yet is a prefix. */
  lemma PrefixEmpty(l: Layout, a: BasicOp.Operand, b: BasicOp.Operand, z: seq<int>)
    requires Ready(l, a, b, z)
    ensures Prefix(l, a, b, z, [])
  {
    ProductPositive(z);
  }

  /** total(shape_c, 0, rank - 2) multiplies the batch dimensions. */
  lemma SpanIsBatch(z: seq<int>)
    requires |z| > 2
    ensures Product(Span(z, 0, |z| - 2)) == Product(Batch(z))
  {
    assert Span(z, 0, |z| - 2) == Batch(z);
  }

  /** Appending the next element keeps the prefix. */
  lemma PrefixSnoc(l: Layout, a: BasicOp.Operand, b: BasicOp.Operand, z: seq<int>, c: seq<int>, v: int)
    requires Ready(l, a, b, z) && Prefix(l, a, b, z, c) && |c| < Product(z)
    requires v == Entry(l, a, b, z, |c|)
    ensures Prefix(l, a, b, z, c + [v])
  {
  }

  /** A prefix as long as the product is the whole product. */
  lemma PrefixWhole(l: Layout, a: BasicOp.Operand, b: BasicOp.Operand, z: seq<int>, c: seq<int>)
    requires Ready(l, a, b, z) && Prefix(l, a, b, z, c) && |c| == Product(z)
    ensures c == Elements(l, a, b, z)
  {
  }

  /** One pass of the k loop: the sum for row m and column n of batch i, appended. */
  method NextCell(l: Layout, a: BasicOp.Operand, b: BasicOp.Operand, z: seq<int>, mr: nat, nc: nat,
                  i: nat, x: View, y: View, m: nat, n: nat, c0: seq<int>) returns (c: seq<int>)
    requires Ready(l, a, b, z) && mr == z[|z| - 2] && nc == z[|z| - 1]
    requires i < Product(Batch(z)) && m < mr && n < nc
    requires x == BatchView(a, z, i) && y == BatchView(b, z, i)
    requires |c0| == i * (mr * nc) + m * nc + n && Prefix(l, a, b, z, c0)
    ensures |c| == |c0| + 1 && Prefix(l, a, b, z, c)
  {
    var sum;
    if l == ColumnsOfB {
      sum := DotColumn(x, y, m, n);
    } else {
      sum := DotRow(x, y, m, n);
    }
    EntryAt(l, a, b, z, mr, nc, i, m, n, |c0|);
    PrefixSnoc(l, a, b, z, c0, sum);
    c := c0 + [sum];
  }

  /**
   * The m and n loops for batch i: M * N sums appended in row-major order, each by the k
   * loop of the kernel the layout names.
   */
  method BatchMatrix(l: Layout, a: BasicOp.Operand, b: BasicOp.Operand, z: seq<int>, i: nat, x: View, y: View,
                     c0: seq<int>) returns (c: seq<int>)
    requires Ready(l, a, b, z) && i < Product(Batch(z))
    requires x == BatchView(a, z, i) && y == BatchView(b, z, i)
    requires |c0| == i * (z[|z| - 2] * z[|z| - 1]) && Prefix(l, a, b, z, c0)
    ensures |c| == |c0| + z[|z| - 2] * z[|z| - 1] && Prefix(l, a, b, z, c)
  {
    var mr := x.rows;
    var nc := if l == ColumnsOfB then y.cols else y.rows;
    assert mr == z[|z| - 2] && nc == z[|z| - 1];
    c := c0;
    var m := 0;
    while m < mr
      invariant m <= mr && |c| == |c0| + m * nc && Prefix(l, a, b, z, c)
    {
      var n := 0;
      while n < nc
        invariant n <= nc && |c| == |c0| + m * nc + n && Prefix(l, a, b, z, c)
      {
        c := NextCell(l, a, b, z, mr, nc, i, x, y, m, n, c);
        n := n + 1;
      }
      assert m * nc + nc == (m + 1) * nc;
      m := m + 1;
    }
  }

  /**
   * One batch of the corrected kernels: idx_c from make_strides(shape_c), lin_a and lin_b,
   * then the matrix product of the two batches they select.
   */
  method KernelBatch(l: Layout, a: BasicOp.Operand, b: BasicOp.Operand, z: seq<int>, strideA: seq<int>,
               strideB: seq<int>, strideC: seq<int>, i: nat, c0: seq<int>) returns (c: seq<int>)
    requires Ready(l, a, b, z) && |z| >= 2 && i < Product(Batch(z))
    requires strideA == BatchStrides(a.sizes) && strideB == BatchStrides(b.sizes) && strideC == BatchStrides(z)
    requires |c0| == i * (z[|z| - 2] * z[|z| - 1]) && Prefix(l, a, b, z, c0)
    ensures |c| == (i + 1) * (z[|z| - 2] * z[|z| - 1]) && Prefix(l, a, b, z, c)
  {
    var sa, sb := a.sizes, b.sizes;
    LinOfProductStrides(a, z, i);
    LinOfProductStrides(b, z, i);
    var idx := BatchIndex(i, strideC);
    var linA := LinearIndex(sa, strideA, idx, |z| - |sa|);
    var linB := LinearIndex(sb, strideB, idx, |z| - |sb|);
    var x := BatchView(a, z, i);
    var y := BatchView(b, z, i);
    ViewBase(a, z, i, linA);
    ViewBase(b, z, i, linB);
    c := BatchMatrix(l, a, b, z, i, x, y, c0);
    var mn := z[|z| - 2] * z[|z| - 1];
    assert i * mn + mn == (i + 1) * mn;
  }

  /**
   * gemm_impl_naive (ColumnsOfB) and gemm_impl_row (RowsOfB) with the batch pairing
   * corrected: the shape checks, then one matrix product per batch of the product, batch i
   * reading the batches of a and b that lin_a and lin_b select with dimensions aligned from
   * the right, over every batch of the product.
   */
  method Kernel(l: Layout, a: BasicOp.Operand, b: BasicOp.Operand) returns (r: Result<BasicOp.Operand, GemmFailure>)
    requires BasicOp.WellFormed(a) && BasicOp.WellFormed(b) && NonNegative(a.sizes) && NonNegative(b.sizes)
    ensures r == KernelResult(l, a, b)
  {
    var sa, sb := ShapeOf(a), ShapeOf(b);
    if |sa| < 2 || |sb| < 2 {
      return Err(RankBelowTwo);
    }
    var shape: Option<seq<int>>;
    if l == ColumnsOfB {
      shape := CoreUtils.GetGemmShape(sa, sb);
    } else {
      var batch := CoreUtils.BatchShape(sa, sb);
      shape := if batch.None? then None else Some(batch.value + [sa[|sa| - 2], sb[|sb| - 2]]);
    }
    if shape.None? {
      return Err(ShapeMismatch);
    }
    var z := shape.value;
    if sa[|sa| - 1] != InnerOf(l, sb) {
      return Err(InnerMismatch);
    }
    if a.matType != b.matType {
      return Err(TypeMismatch);
    }
    if a.matType != DT_32F {
      return Err(NotFloat);
    }
    NonEmptyPositive(a);
    NonEmptyPositive(b);
    assert Checked(l, a, b, z);
    CheckedReady(l, a, b, z);
    var c := Batches(l, a, b, z);
    r := Ok(BasicOp.Operand(DT_32F, z, c));
  }

  /** The out_loop over the batches of the product, once the checks have passed. */
  method Batches(l: Layout, a: BasicOp.Operand, b: BasicOp.Operand, z: seq<int>) returns (c: seq<int>)
    requires Ready(l, a, b, z)
    ensures c == Elements(l, a, b, z)
  {
    ReadyFacts(l, a, b, z);
    var outLoop := 1;
    if |z| > 2 {
      outLoop := ShapeTotal(z, 0, |z| - 2);
      SpanIsBatch(z);
    }
    var strideA := MakeStrides(a.sizes);
    var strideB := MakeStrides(b.sizes);
    var strideC := MakeStrides(z);
    c := BatchLoop(l, a, b, z, strideA, strideB, strideC, outLoop);
    PrefixWhole(l, a, b, z, c);
  }

  /** The out_loop over the batches of the product, each appending its M * N elements. */
  method BatchLoop(l: Layout, a: BasicOp.Operand, b: BasicOp.Operand, z: seq<int>, strideA: seq<int>,
                   strideB: seq<int>, strideC: seq<int>, outLoop: nat) returns (c: seq<int>)
    requires Ready(l, a, b, z) && |z| >= 2 && outLoop == Product(Batch(z))
    requires strideA == BatchStrides(a.sizes) && strideB == BatchStrides(b.sizes) && strideC == BatchStrides(z)
    ensures |c| == outLoop * (z[|z| - 2] * z[|z| - 1]) && Prefix(l, a, b, z, c)
  {
    PrefixEmpty(l, a, b, z);
    c := [];
    var i := 0;
    while i < outLoop
      invariant 0 <= i <= outLoop
      invariant |c| == i * (z[|z| - 2] * z[|z| - 1]) && Prefix(l, a, b, z, c)
    {
      c := KernelBatch(l, a, b, z, strideA, strideB, strideC, i, c);
      i := i + 1;
    }
  }

  /**
   * gemm(a, b, transA, transB): the row kernel on a and b untransposed when only b is
   * flagged, and the naive kernel otherwise, on transpose(a) and transpose(b) where flagged.
   * transpose is not part of this model: aT and bT are what it returns for a and b.
   */
  method Gemm(a: BasicOp.Operand, b: BasicOp.Operand, transA: bool, transB: bool,
              aT: BasicOp.Operand, bT: BasicOp.Operand) returns (r: Result<BasicOp.Operand, GemmFailure>)
    requires BasicOp.WellFormed(a) && BasicOp.WellFormed(b) && NonNegative(a.sizes) && NonNegative(b.sizes)
    requires BasicOp.WellFormed(aT) && BasicOp.WellFormed(bT) && NonNegative(aT.sizes) && NonNegative(bT.sizes)
    ensures !transA && transB ==> r == KernelResult(RowsOfB, a, b)
    ensures transA || !transB ==> r == KernelResult(ColumnsOfB, if transA then aT else a, if transB then bT else b)
  {
    if !transA && transB {
      r := Kernel(RowsOfB, a, b);
    } else {
      var x := if transA then aT else a;
      var y := if transB then bT else b;
      r := Kernel(ColumnsOfB, x, y);
    }
  }

  // ---------------------------------------------------------------- the row kernel against the naive one

  /**
   * A single matrix transposed, as transpose(b) returns it for a rank-2 b (transpose itself
   * is not part of this model).
   */
  function TransposeMatrix(b: BasicOp.Operand): (t: BasicOp.Operand)
    requires |b.sizes| == 2 && BasicOp.WellFormed(b) && NonNegative(b.sizes)
    ensures BasicOp.WellFormed(t) && NonNegative(t.sizes)
    ensures t.matType == b.matType && t.sizes == [b.sizes[1], b.sizes[0]]
  {
    var r, c := b.sizes[0], b.sizes[1];
    assert b.sizes == [r, c];
    ProductPair(r, c);
    ProductPair(c, r);
    var t := Transposed(View(b.data, 0, r, c));
    BasicOp.Operand(b.matType, [c, r], t.buf)
  }

  /** The product of two extents. */
  lemma ProductPair(r: int, c: int)
    ensures Product([r, c]) == r * c
  {
    assert [r, c][1..] == [c];
    assert Product([c]) == c * Product([]);
  }

  /** The one matrix of a rank-2 operand starts at element 0 whatever the batch. */
  lemma MatrixView(x: BasicOp.Operand, z: seq<int>, i: nat)
    requires Under(x, z) && |x.sizes| == 2 && i < Product(Batch(z))
    ensures BatchView(x, z, i) == View(x.data, 0, x.sizes[0], x.sizes[1])
  {
    assert Batch(x.sizes) == [];
  }

  /** One cell of the row kernel's product is the naive kernel's cell against b transposed. */
  lemma CellTransposed(a: BasicOp.Operand, b: BasicOp.Operand, z: seq<int>, i: nat, m: nat, n: nat)
    requires |b.sizes| == 2 && BasicOp.WellFormed(b) && NonNegative(b.sizes)
    requires Ready(RowsOfB, a, b, z) && Ready(ColumnsOfB, a, TransposeMatrix(b), z)
    requires i < Product(Batch(z)) && m < a.sizes[|a.sizes| - 2] && n < b.sizes[0]
    ensures Cell(RowsOfB, a, b, z, i, m, n) == Cell(ColumnsOfB, a, TransposeMatrix(b), z, i, m, n)
  {
    var bt := TransposeMatrix(b);
    var x, y := BatchView(a, z, i), BatchView(b, z, i);
    MatrixView(b, z, i);
    MatrixView(bt, z, i);
    assert BatchView(bt, z, i) == Transposed(y);
    RowTimesRowTransposed(x, y, m, n, x.cols);
  }

  /** The row kernel's product is the naive kernel's against b transposed, element by element. */
  lemma ElementsTransposed(a: BasicOp.Operand, b: BasicOp.Operand, z: seq<int>)
    requires |b.sizes| == 2 && BasicOp.WellFormed(b) && NonNegative(b.sizes)
    requires Ready(RowsOfB, a, b, z) && Ready(ColumnsOfB, a, TransposeMatrix(b), z)
    ensures Elements(RowsOfB, a, b, z) == Elements(ColumnsOfB, a, TransposeMatrix(b), z)
  {
    ReadyFacts(RowsOfB, a, b, z);
    var e, f := Elements(RowsOfB, a, b, z), Elements(ColumnsOfB, a, TransposeMatrix(b), z);
    forall j | 0 <= j < Product(z)
      ensures e[j] == f[j]
    {
      var mr, nc := z[|z| - 2], z[|z| - 1];
      SplitFlat(j, Product(Batch(z)), mr, nc);
      var q := j % (mr * nc);
      CellTransposed(a, b, z, j / (mr * nc), q / nc, q % nc);
    }
  }

  /**
   * gemm(a, b, false, true) on a single matrix b: the row kernel on b gives what the naive
   * kernel gives on b transposed, errors included.
   */
  lemma RowKernelIsNaiveOnTranspose(a: BasicOp.Operand, b: BasicOp.Operand)
    requires BasicOp.WellFormed(a) && NonNegative(a.sizes)
    requires |b.sizes| == 2 && BasicOp.WellFormed(b) && NonNegative(b.sizes)
    ensures KernelResult(RowsOfB, a, b) == KernelResult(ColumnsOfB, a, TransposeMatrix(b))
  {
    var bt := TransposeMatrix(b);
    ProductPair(b.sizes[0], b.sizes[1]);
    ProductPair(b.sizes[1], b.sizes[0]);
    assert b.sizes == [b.sizes[0], b.sizes[1]];
    assert BasicOp.Empty(b) <==> BasicOp.Empty(bt);
    var sa, sb := ShapeOf(a), ShapeOf(b);
    if |sa| >= 2 && |sb| >= 2 && ProductShape(RowsOfB, sa, sb).Some? && sa[|sa| - 1] == InnerOf(RowsOfB, sb)
       && a.matType == b.matType && a.matType == DT_32F {
      NonEmptyPositive(a);
      NonEmptyPositive(b);
      NonEmptyPositive(bt);
      var z := ProductShape(RowsOfB, sa, sb).value;
      assert ProductShape(ColumnsOfB, sa, bt.sizes) == Some(z);
      CheckedReady(RowsOfB, a, b, z);
      CheckedReady(ColumnsOfB, a, bt, z);
      ElementsTransposed(a, b, z);
      assert KernelResult(RowsOfB, a, b) == Ok(BasicOp.Operand(DT_32F, z, Elements(RowsOfB, a, b, z)));
    }
  }

  // ---------------------------------------------------------------- the kernels as written

  /**
   * out_loop as both kernels write it: the product's batch count when a has batch
   * dimensions, and 1 when it has none, whatever b's rank.
   */
  function OutLoopAsWritten(sa: seq<int>, z: seq<int>): (n: int)
    requires |z| >= 2
    ensures |sa| > 2 ==> n == Product(Batch(z))
    ensures |sa| <= 2 ==> n == 1
  {
    if |sa| > 2 then Product(Batch(z)) else 1
  }

  /**
   * A matrix times a batch of two: the product has two batches, the written out_loop
   * runs one, so the second batch of c is never written.
   */
  lemma OutLoopMissesBatches()
    ensures CoreUtils.GemmShape([3, 4], [2, 4, 5]) == Some([2, 3, 5])
    ensures OutLoopAsWritten([3, 4], [2, 3, 5]) == 1 && Product(Batch([2, 3, 5])) == 2
  {
    assert [3, 4][..0] == [] && [2, 4, 5][..1] == [2];
    assert CoreUtils.Broadcast([], [2]) == Some([2]) && [2] + [3, 5] == [2, 3, 5];
    assert Batch([2, 3, 5]) == [2];
  }

  /**
   * Where batch i of gemm_impl_naive starts reading an operand of shape sx as written:
   * lin over make_strides(sx) with batch dimension d paired with the product's coordinate
   * d, counted from the left, times the operand's matrix size.
   */
  function NaiveBaseAsWritten(sx: seq<int>, z: seq<int>, i: nat): (r: int)
    requires 2 <= |sx| <= |z| && AllPositive(BatchStrides(z))
    ensures |sx| > 2 && (forall d :: 0 <= d < |sx| - 2 ==> sx[d] == 1) ==> r == 0
  {
    var idx := Digits(i, BatchStrides(z));
    LinAsWritten(sx, BatchStrides(sx), idx) * (sx[|sx| - 2] * sx[|sx| - 1])
  }

  /** With a's and b's ranks equal to the product's, the written base is BatchView's. */
  lemma NaiveBaseAgrees(x: BasicOp.Operand, z: seq<int>, i: nat)
    requires Under(x, z) && |x.sizes| == |z| && i < Product(Batch(z))
    ensures AllPositive(BatchStrides(z))
    ensures NaiveBaseAsWritten(x.sizes, z, i) == BatchView(x, z, i).base
  {
    StridesPositive(Batch(z));
    var s := x.sizes;
    if |z| > 2 {
      LinAgrees(s, Digits(i, BatchStrides(z)));
    } else {
      assert BatchStrides(s) == [1] && Batch(s) == [] && BatchStrides(z) == [1];
      assert i == 0 && Digits(0, [1]) == [0];
    }
  }

  /** The operands of the first counterexample: a is 2 x (3 x 4), b is one 4 x 5 matrix. */
  function LeftA(): BasicOp.Operand
  {
    BasicOp.Operand(DT_32F, [2, 3, 4], seq(24, k => k))
  }

  function LeftB(): BasicOp.Operand
  {
    BasicOp.Operand(DT_32F, [4, 5], seq(20, k => k))
  }

  /**
   * b = 4 x 5 under a product of shape 2 x 3 x 5: for batch 1 the written lin_b pairs b's
   * rows (4) with the product's batch coordinate (1) and starts reading b at element 20,
   * one past its last; the aligned lin starts at 0, as b is shared by every batch.
   */
  lemma NaiveReadsPastB()
    ensures Checked(ColumnsOfB, LeftA(), LeftB(), [2, 3, 5])
    ensures NaiveBaseAsWritten([4, 5], [2, 3, 5], 1) == 20 == |LeftB().data|
    ensures BatchView(LeftB(), [2, 3, 5], 1).base == 0
  {
    var a, b, z := LeftA(), LeftB(), [2, 3, 5];
    assert Product([5]) == 5 && Product([4, 5]) == 20;
    assert Product([4]) == 4 && Product([3, 4]) == 12 && Product([2, 3, 4]) == 24;
    assert [2, 3, 4][..1] == [2] && [4, 5][..0] == [];
    assert Batch(a.sizes) == [2] && Batch(b.sizes) == [];
    assert CoreUtils.Broadcast([2], []) == Some([2]) && [2] + [3, 5] == z;
    assert Batch(z) == [2] && BatchStrides(z) == Strides([2]) && Strides([2]) == [1];
    assert Digits(1, [1]) == [1];
    assert BatchStrides([4, 5]) == [1];
    assert LinAsWritten([4, 5], [1], [1]) == 1;
    CheckedReady(ColumnsOfB, a, b, z);
    assert Product(Batch(z)) == 2;
    assert Batch(b.sizes) == [];
  }

  /** Where batch i of gemm_impl_row starts reading an operand as written: i matrices in. */
  function RowBaseAsWritten(sx: seq<int>, i: nat): int
    requires |sx| >= 2
  {
    i * (sx[|sx| - 2] * sx[|sx| - 1])
  }

  /** Without broadcasting (the operand has the product's batch extents) i matrices in is right. */
  lemma RowBaseAgrees(x: BasicOp.Operand, z: seq<int>, i: nat)
    requires Under(x, z) && Batch(x.sizes) == Batch(z) && i < Product(Batch(z))
    ensures RowBaseAsWritten(x.sizes, i) == BatchView(x, z, i).base
  {
    DigitsRoundTrip(Batch(z), i);
  }

  /** The operands of the second counterexample: a is 2 x (2 x 3), b is one 4 x 3 matrix. */
  function RowA(): BasicOp.Operand
  {
    BasicOp.Operand(DT_32F, [2, 2, 3], seq(12, k => k))
  }

  function RowB(): BasicOp.Operand
  {
    BasicOp.Operand(DT_32F, [4, 3], seq(12, k => k))
  }

  /**
   * b = 4 x 3 untransposed under a product of shape 2 x 2 x 4: batch 1 of the row kernel
   * starts reading b at i * step_b = 12, one past its last element, where the lin it
   * computes and leaves unused starts at 0.
   */
  lemma RowReadsPastB()
    ensures Checked(RowsOfB, RowA(), RowB(), [2, 2, 4])
    ensures RowBaseAsWritten([4, 3], 1) == 12 == |RowB().data|
    ensures BatchView(RowB(), [2, 2, 4], 1).base == 0
  {
    var a, b, z := RowA(), RowB(), [2, 2, 4];
    assert Product([3]) == 3 && Product([4, 3]) == 12;
    assert Product([2, 3]) == 6 && Product([2, 2, 3]) == 12;
    assert [2, 2, 3][..1] == [2] && [4, 3][..0] == [];
    assert Batch(a.sizes) == [2] && Batch(b.sizes) == [];
    assert CoreUtils.Broadcast([2], []) == Some([2]) && [2] + [2, 4] == z;
    CheckedReady(RowsOfB, a, b, z);
    assert Batch(z) == [2] && Product(Batch(z)) == 2;
    assert Batch(b.sizes) == [];
  }
}
