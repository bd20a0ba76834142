/**
 * Shape arithmetic shared by Mat, Tensor and the operators: the product of a list of extents
 * (`total`), and the extents a Mat is left with by `_setSize`.
 */
module Shape {

  /** MAT_MAX_DIM (include/minfer/mat.h). */
  const MAT_MAX_DIM: nat := 8

  /** The product of the extents; 1 for no extents. */
  function Product(s: seq<int>): int
  {
    if s == [] then 1 else s[0] * Product(s[1..])
  }

  /** Multiplying on the right extends the product by one extent. */
  lemma {:induction false} ProductSnoc(s: seq<int>, x: int)
    ensures Product(s + [x]) == Product(s) * x
  {
    if s != [] {
      assert (s + [x])[1..] == s[1..] + [x];
      ProductSnoc(s[1..], x);
    }
  }

  /** A slice grown by one extent multiplies its product by that extent. */
  lemma ProductExtend(s: seq<int>, a: nat, i: nat)
    requires a <= i < |s|
    ensures Product(s[a..i + 1]) == Product(s[a..i]) * s[i]
  {
    assert s[a..i + 1] == s[a..i] + [s[i]];
    ProductSnoc(s[a..i], s[i]);
  }

  /** The product from extent i on: extent i times the product from i + 1 on. */
  lemma ProductFrom(s: seq<int>, i: nat)
    requires i < |s|
    ensures Product(s[i..]) == s[i] * Product(s[i + 1..])
  {
    assert s[i..][1..] == s[i + 1..];
  }

  /** The product of a concatenation is the product of the products. */
  lemma {:induction false} ProductAppend(a: seq<int>, b: seq<int>)
    ensures Product(a + b) == Product(a) * Product(b)
  {
    if a == [] {
      assert a + b == b;
    } else {
      assert (a + b)[1..] == a[1..] + b;
      ProductAppend(a[1..], b);
      assert a[0] * (Product(a[1..]) * Product(b)) == (a[0] * Product(a[1..])) * Product(b);
    }
  }

  /** Positive extents have a positive product. */
  lemma {:induction false} ProductPositive(s: seq<int>)
    requires forall i :: 0 <= i < |s| ==> s[i] > 0
    ensures Product(s) > 0
  {
    if s != [] {
      ProductPositive(s[1..]);
    }
  }

  /** Non-negative extents have a non-negative product. */
  lemma {:induction false} ProductNonNegative(s: seq<int>)
    requires forall i :: 0 <= i < |s| ==> s[i] >= 0
    ensures Product(s) >= 0
  {
    if s != [] {
      ProductNonNegative(s[1..]);
    }
  }

  /** A zero extent makes the product zero. */
  lemma {:induction false} ProductZero(s: seq<int>, k: nat)
    requires k < |s| && s[k] == 0
    ensures Product(s) == 0
  {
    if k > 0 {
      ProductZero(s[1..], k - 1);
    }
  }

  /** The product is zero exactly when one of the extents is. */
  lemma {:induction false} ProductZeroIff(s: seq<int>)
    ensures Product(s) == 0 <==> exists i :: 0 <= i < |s| && s[i] == 0
  {
    if s != [] {
      ProductZeroIff(s[1..]);
      if exists i :: 0 <= i < |s| - 1 && s[1..][i] == 0 {
        var i :| 0 <= i < |s| - 1 && s[1..][i] == 0;
        assert s[i + 1] == 0;
      }
      if exists i :: 0 <= i < |s| && s[i] == 0 {
        var i :| 0 <= i < |s| && s[i] == 0;
        if i > 0 {
          assert s[1..][i - 1] == 0;
        }
      }
    }
  }

  /** Every extent is positive. */
  predicate AllPositive(s: seq<int>)
  {
    forall i :: 0 <= i < |s| ==> s[i] > 0
  }

  /** n zero extents. */
  function Zeros(n: nat): (r: seq<int>)
    ensures |r| == n && forall i :: 0 <= i < n ==> r[i] == 0
  {
    seq(n, i => 0)
  }

  /**
   * The extents after `_setSize(m, dim, sz)`: the first dim entries of sz when all are
   * positive; a non-positive one makes `_setSize` call `release`, which zeroes every extent.
   */
  function SetSizeExtents(sz: seq<int>, dim: nat): (r: seq<int>)
    requires dim <= |sz|
    ensures |r| == dim
    ensures AllPositive(sz[..dim]) ==> r == sz[..dim]
    ensures !AllPositive(sz[..dim]) ==> r == Zeros(dim)
  {
    if AllPositive(sz[..dim]) then sz[..dim] else Zeros(dim)
  }

  /** The product of the extents `_setSize` leaves is positive, or zero when any was not. */
  lemma SetSizeProduct(sz: seq<int>, dim: nat)
    requires dim <= |sz|
    ensures AllPositive(sz[..dim]) ==> Product(SetSizeExtents(sz, dim)) == Product(sz[..dim]) > 0
    ensures !AllPositive(sz[..dim]) ==> Product(SetSizeExtents(sz, dim)) == 0
  {
    if AllPositive(sz[..dim]) {
      ProductPositive(sz[..dim]);
    } else {
      ProductZero(Zeros(dim), 0);
    }
  }
}
