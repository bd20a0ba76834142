/**
 * The element-wise operations of test/opencv_lab/mat_test/operations.cpp on the lab Mat:
 * a + b, a - b, a * b, a / b and -a over total(a) elements, after preProcessAndCheck has
 * checked the operands and, when c is empty, given c a new buffer shaped like a.
 *
 * Elements are integers; an IntType element computes exactly what the model computes as long
 * as it stays within 32 bits (signed overflow is undefined in C++ and not modelled), and
 * FloatType elements are modelled by the same integer arithmetic except for division.
 */
module LabOperations {
  import opened Shape
  import opened LabMat
  import BasicOp

  /** The binary element operations. */
  datatype ElementOp = Plus | Minus | Times | Over

  /** One element of c: C++'s +, -, * and / on int (division truncating toward zero). */
  function Apply(op: ElementOp, x: int, y: int): int
    requires op == Over ==> y != 0
  {
    match op
    case Plus => x + y
    case Minus => x - y
    case Times => x * y
    case Over => BasicOp.TruncDiv(x, y)
  }

  /** No element is zero. */
  predicate NonZero(ys: seq<int>)
  {
    forall i :: 0 <= i < |ys| ==> ys[i] != 0
  }

  /** c[i] = a[i] op b[i] for every i. */
  function Combined(op: ElementOp, xs: seq<int>, ys: seq<int>): seq<int>
    requires |xs| == |ys| && (op == Over ==> NonZero(ys))
  {
    seq(|xs|, i requires 0 <= i < |xs| => Apply(op, xs[i], ys[i]))
  }

  /** c[i] = -a[i] for every i. */
  function Negated(xs: seq<int>): seq<int>
  {
    seq(|xs|, i requires 0 <= i < |xs| => -xs[i])
  }

  // ---------------------------------------------------------------- what the operations mean

  /** Subtracting is adding the negation. */
  lemma SubtractIsAddNegated(xs: seq<int>, ys: seq<int>)
    requires |xs| == |ys|
    ensures Combined(Minus, xs, ys) == Combined(Plus, xs, Negated(ys))
  {
  }

  /** Negating twice gives the elements back. */
  lemma NegateTwice(xs: seq<int>)
    ensures Negated(Negated(xs)) == xs
  {
  }

  /** Subtracting b undoes adding it. */
  lemma AddThenSubtract(xs: seq<int>, ys: seq<int>)
    requires |xs| == |ys|
    ensures Combined(Minus, Combined(Plus, xs, ys), ys) == xs
  {
  }

  /** Addition and multiplication do not depend on the order of the operands. */
  lemma Commutes(op: ElementOp, xs: seq<int>, ys: seq<int>)
    requires |xs| == |ys| && (op == Plus || op == Times)
    ensures Combined(op, xs, ys) == Combined(op, ys, xs)
  {
  }

  /**
   * Integer division truncates: the remainder x - q * y is smaller than y in magnitude and
   * is zero or has the sign of x.
   */
  lemma DivideTruncates(x: int, y: int)
    requires y != 0
    ensures var r := x - Apply(Over, x, y) * y;
            (if r < 0 then -r else r) < (if y < 0 then -y else y)
            && (r == 0 || (r < 0) == (x < 0))
  {
    var ax, ay := if x < 0 then -x else x, if y < 0 then -y else y;
    var m := ax / ay;
    assert ax == m * ay + ax % ay;
    var q := BasicOp.TruncDiv(x, y);
    assert q == (if (x < 0) == (y < 0) then m else -m);
    if x >= 0 {
      assert q * y == m * ay by {
        if y < 0 { assert q * y == (-m) * (-ay); }
      }
    } else {
      assert q * y == -(m * ay) by {
        if y < 0 { assert q * y == m * (-ay); } else { assert q * y == (-m) * ay; }
      }
    }
  }

  // ---------------------------------------------------------------- the element loops

  /** The loop of add, subtract, multiply and divide: cp[i] = ap[i] op bp[i] for i < n. */
  method Zip(op: ElementOp, ap: array<int>, bp: array<int>, cp: array<int>, n: nat)
    requires n <= ap.Length && n <= bp.Length && n <= cp.Length
    requires op == Over ==> NonZero(bp[..n])
    modifies cp
    ensures cp[..n] == Combined(op, old(ap[..n]), old(bp[..n]))
    ensures cp[n..] == old(cp[n..])
  {
    ghost var xs, ys := ap[..n], bp[..n];
    var i := 0;
    while i < n
      invariant 0 <= i <= n
      invariant forall k :: 0 <= k < i ==> cp[k] == Apply(op, xs[k], ys[k])
      invariant forall k :: i <= k < n ==> ap[k] == xs[k] && bp[k] == ys[k]
      invariant cp[n..] == old(cp[n..])
    {
      cp[i] := Apply(op, ap[i], bp[i]);
      i := i + 1;
    }
  }

  /** The loop of the unary subtract: cp[i] = -ap[i] for i < n. */
  method Negate(ap: array<int>, cp: array<int>, n: nat)
    requires n <= ap.Length && n <= cp.Length
    modifies cp
    ensures cp[..n] == Negated(old(ap[..n]))
    ensures cp[n..] == old(cp[n..])
  {
    ghost var xs := ap[..n];
    var i := 0;
    while i < n
      invariant 0 <= i <= n
      invariant forall k :: 0 <= k < i ==> cp[k] == -xs[k]
      invariant forall k :: i <= k < n ==> ap[k] == xs[k]
      invariant cp[n..] == old(cp[n..])
    {
      cp[i] := -ap[i];
      i := i + 1;
    }
  }

  // ---------------------------------------------------------------- preProcessAndCheck

  /** checkIsSameType's test on two Mats' types and extents. */
  predicate Same(ta: int, sa: seq<int>, tb: int, sb: seq<int>)
  {
    ta == tb && sa == sb
  }

  /** checkIsSameType(a, b) on two Mats. */
  predicate SameTypeAndSize(a: Mat, b: Mat)
    reads a, b
  {
    Same(a.matType, a.sizes, b.matType, b.sizes)
  }

  /** The unary preProcessAndCheck's test as written: a against c, even when c is empty. */
  predicate UnaryCheckAsWritten(ta: int, sa: seq<int>, tc: int, sc: seq<int>, cEmpty: bool)
    ensures UnaryCheckAsWritten(ta, sa, tc, sc, cEmpty) ==> UnaryCheck(ta, sa, tc, sc, cEmpty)
    ensures UnaryCheck(ta, sa, tc, sc, cEmpty) && !UnaryCheckAsWritten(ta, sa, tc, sc, cEmpty)
            <==> cEmpty && !Same(ta, sa, tc, sc)
  {
    Same(ta, sa, tc, sc)
  }

  /** The test as the binary form makes it: an empty c is about to be created like a. */
  predicate UnaryCheck(ta: int, sa: seq<int>, tc: int, sc: seq<int>, cEmpty: bool)
  {
    cEmpty || Same(ta, sa, tc, sc)
  }

  /**
   * As written, negating an IntType [2, 3] Mat into a new Mat() asserts: the empty c has
   * FloatType and no extents.  The test without the empty case accepts it.
   */
  lemma UnaryCheckAsWrittenRejectsEmpty()
    ensures !UnaryCheckAsWritten(INT_TYPE, [2, 3], FLOAT_TYPE, [], true)
    ensures UnaryCheck(INT_TYPE, [2, 3], FLOAT_TYPE, [], true)
  {
  }

  /** On a c that is not empty both tests are the same. */
  lemma UnaryChecksAgree(ta: int, sa: seq<int>, tc: int, sc: seq<int>)
    ensures UnaryCheck(ta, sa, tc, sc, false) == UnaryCheckAsWritten(ta, sa, tc, sc, false)
  {
  }

  /** The arrays an operation may write: c's cells. */
  function Cells(m: Mat): set<object>
    reads m
  {
    if m.u == null then {} else {m.u.cells}
  }

  /** The operands own their elements: a record with one cell per element whenever there are any. */
  predicate Holds(m: Mat)
    reads m, m.u
  {
    m.Valid() && (Product(m.sizes) != 0 ==> m.u != null && m.u.cells.Length == Product(m.sizes))
  }

  /**
   * preProcessAndCheck(a, b, c): a and b must match; an empty c becomes a new Mat of a's
   * extents and type, and one that is not empty must match a as well and is left as it is.
   */
  method PreProcess(a: Mat, b: Mat, c: Mat, raw: nat)
    requires a.Valid() && b.Valid() && c.Valid() && MallocResult(raw)
    requires SameTypeAndSize(a, b)
    requires c.IsEmpty() ==> 0 < a.dims && c != a && c != b
    requires !c.IsEmpty() ==> SameTypeAndSize(a, c)
    modifies c, c.u
    ensures c.Valid() && SameTypeAndSize(a, c)
    ensures !old(c.IsEmpty()) ==> unchanged(c)
    ensures unchanged(a, b)
    ensures a.u != null ==> a.u.cells[..] == old(a.u.cells[..])
    ensures b.u != null ==> b.u.cells[..] == old(b.u.cells[..])
    ensures old(c.IsEmpty()) || old(Holds(c)) ==> Holds(c)
    ensures old(c.IsEmpty()) && Product(c.sizes) != 0 ==>
              c.u != null && fresh(c.u) && fresh(c.u.cells) && c.u.cells.Length == Product(c.sizes)
              && c.data == FastMalloc(raw)
  {
    if c.IsEmpty() {
      c.Take(a.sizes, a.matType, raw);
    }
  }

  /**
   * The unary preProcessAndCheck(a, c) with the test on c made only when c is not empty: an
   * empty c becomes a new Mat of a's extents and type.
   */
  method PreProcessUnary(a: Mat, c: Mat, raw: nat)
    requires a.Valid() && c.Valid() && MallocResult(raw)
    requires UnaryCheck(a.matType, a.sizes, c.matType, c.sizes, c.IsEmpty())
    requires c.IsEmpty() ==> 0 < a.dims && c != a
    modifies c, c.u
    ensures c.Valid() && SameTypeAndSize(a, c)
    ensures !old(c.IsEmpty()) ==> unchanged(c)
    ensures unchanged(a)
    ensures a.u != null ==> a.u.cells[..] == old(a.u.cells[..])
    ensures old(c.IsEmpty()) || old(Holds(c)) ==> Holds(c)
    ensures old(c.IsEmpty()) && Product(c.sizes) != 0 ==>
              c.u != null && fresh(c.u) && fresh(c.u.cells) && c.u.cells.Length == Product(c.sizes)
              && c.data == FastMalloc(raw)
  {
    if c.IsEmpty() {
      c.Take(a.sizes, a.matType, raw);
    }
  }

  // ---------------------------------------------------------------- the operations

  /**
   * The binary operations, add (op Plus), subtract (Minus), multiply (Times) and divide
   * (Over): after preProcessAndCheck, c[i] = a[i] op b[i] for each of the total(a) elements,
   * and nothing else is written.  A type other than FloatType and IntType asserts; so does,
   * in this model, division of FloatType elements.
   */
  method Binary(op: ElementOp, a: Mat, b: Mat, c: Mat, raw: nat)
    requires Holds(a) && Holds(b) && c.Valid() && MallocResult(raw)
    requires a.matType == INT_TYPE || (a.matType == FLOAT_TYPE && op != Over)
    requires SameTypeAndSize(a, b)
    requires c.IsEmpty() ==> 0 < a.dims && c != a && c != b && raw != 0
    requires !c.IsEmpty() ==> SameTypeAndSize(a, c) && Holds(c)
    requires op == Over && Product(a.sizes) != 0 ==> NonZero(b.u.cells[..])
    modifies c, c.u, Cells(c)
    ensures c.Valid() && c.sizes == old(a.sizes) && c.matType == old(a.matType)
    ensures Product(c.sizes) != 0 ==>
              c.u != null && |old(a.u.cells[..])| == |old(b.u.cells[..])| == c.u.cells.Length
    ensures Product(c.sizes) != 0 && op == Over ==> NonZero(old(b.u.cells[..]))
    ensures Product(c.sizes) != 0 ==> c.u.cells[..] == Combined(op, old(a.u.cells[..]), old(b.u.cells[..]))
  {
    var totalSize := Prepare(a, b, c, raw);
    if totalSize != 0 {
      ZipMats(op, a, b, c, totalSize, old(a.u.cells[..]), old(b.u.cells[..]));
    }
  }

  /** preProcessAndCheck followed by total(a), with what the element loop needs of the result. */
  method Prepare(a: Mat, b: Mat, c: Mat, raw: nat) returns (n: int)
    requires Holds(a) && Holds(b) && c.Valid() && MallocResult(raw)
    requires SameTypeAndSize(a, b)
    requires c.IsEmpty() ==> 0 < a.dims && c != a && c != b && raw != 0
    requires !c.IsEmpty() ==> SameTypeAndSize(a, c) && Holds(c)
    modifies c, c.u
    ensures unchanged(a, b) && n == Product(a.sizes)
    ensures c.Valid() && c.sizes == a.sizes && c.matType == a.matType
    ensures n != 0 ==> a.u != null && b.u != null && c.u != null
    ensures n != 0 ==> a.u.cells[..] == old(a.u.cells[..]) && b.u.cells[..] == old(b.u.cells[..])
    ensures n != 0 ==> a.u.cells.Length == b.u.cells.Length == c.u.cells.Length == n
    ensures n != 0 ==> fresh(c.u.cells) || c.u.cells in old(Cells(c))
  {
    PreProcess(a, b, c, raw);
    n := a.Total();
  }

  /** The element loop of a binary operation once c has a's type and extents. */
  method ZipMats(op: ElementOp, a: Mat, b: Mat, c: Mat, n: nat, ghost xs: seq<int>, ghost ys: seq<int>)
    requires a.u != null && b.u != null && c.u != null
    requires a.u.cells.Length == b.u.cells.Length == c.u.cells.Length == n
    requires xs == a.u.cells[..] && ys == b.u.cells[..] && (op == Over ==> NonZero(ys))
    modifies c.u.cells
    ensures |xs| == |ys| == c.u.cells.Length == n
    ensures c.u.cells[..] == Combined(op, xs, ys)
  {
    Zip(op, a.u.cells, b.u.cells, c.u.cells, n);
    assert c.u.cells[..] == c.u.cells[..n];
  }

  /** add(a, b, c): c[i] = a[i] + b[i]. */
  method Add(a: Mat, b: Mat, c: Mat, raw: nat)
    requires Holds(a) && Holds(b) && c.Valid() && MallocResult(raw)
    requires a.matType == INT_TYPE || a.matType == FLOAT_TYPE
    requires SameTypeAndSize(a, b)
    requires c.IsEmpty() ==> 0 < a.dims && c != a && c != b && raw != 0
    requires !c.IsEmpty() ==> SameTypeAndSize(a, c) && Holds(c)
    modifies c, c.u, Cells(c)
    ensures c.Valid() && c.sizes == old(a.sizes) && c.matType == old(a.matType)
    ensures Product(c.sizes) != 0 ==>
              c.u != null && |old(a.u.cells[..])| == |old(b.u.cells[..])| == c.u.cells.Length
              && c.u.cells[..] == Combined(Plus, old(a.u.cells[..]), old(b.u.cells[..]))
  {
    Binary(Plus, a, b, c, raw);
  }

  /** subtract(a, b, c): c[i] = a[i] - b[i]. */
  method Subtract(a: Mat, b: Mat, c: Mat, raw: nat)
    requires Holds(a) && Holds(b) && c.Valid() && MallocResult(raw)
    requires a.matType == INT_TYPE || a.matType == FLOAT_TYPE
    requires SameTypeAndSize(a, b)
    requires c.IsEmpty() ==> 0 < a.dims && c != a && c != b && raw != 0
    requires !c.IsEmpty() ==> SameTypeAndSize(a, c) && Holds(c)
    modifies c, c.u, Cells(c)
    ensures c.Valid() && c.sizes == old(a.sizes) && c.matType == old(a.matType)
    ensures Product(c.sizes) != 0 ==>
              c.u != null && |old(a.u.cells[..])| == |old(b.u.cells[..])| == c.u.cells.Length
              && c.u.cells[..] == Combined(Minus, old(a.u.cells[..]), old(b.u.cells[..]))
  {
    Binary(Minus, a, b, c, raw);
  }

  /** multiply(a, b, c): c[i] = a[i] * b[i]. */
  method Multiply(a: Mat, b: Mat, c: Mat, raw: nat)
    requires Holds(a) && Holds(b) && c.Valid() && MallocResult(raw)
    requires a.matType == INT_TYPE || a.matType == FLOAT_TYPE
    requires SameTypeAndSize(a, b)
    requires c.IsEmpty() ==> 0 < a.dims && c != a && c != b && raw != 0
    requires !c.IsEmpty() ==> SameTypeAndSize(a, c) && Holds(c)
    modifies c, c.u, Cells(c)
    ensures c.Valid() && c.sizes == old(a.sizes) && c.matType == old(a.matType)
    ensures Product(c.sizes) != 0 ==>
              c.u != null && |old(a.u.cells[..])| == |old(b.u.cells[..])| == c.u.cells.Length
              && c.u.cells[..] == Combined(Times, old(a.u.cells[..]), old(b.u.cells[..]))
  {
    Binary(Times, a, b, c, raw);
  }

  /** divide(a, b, c) on IntType elements: c[i] = a[i] / b[i], truncated; no b[i] may be zero. */
  method Divide(a: Mat, b: Mat, c: Mat, raw: nat)
    requires Holds(a) && Holds(b) && c.Valid() && MallocResult(raw)
    requires a.matType == INT_TYPE
    requires SameTypeAndSize(a, b)
    requires c.IsEmpty() ==> 0 < a.dims && c != a && c != b && raw != 0
    requires !c.IsEmpty() ==> SameTypeAndSize(a, c) && Holds(c)
    requires Product(a.sizes) != 0 ==> NonZero(b.u.cells[..])
    modifies c, c.u, Cells(c)
    ensures c.Valid() && c.sizes == old(a.sizes) && c.matType == old(a.matType)
    ensures Product(c.sizes) != 0 ==>
              c.u != null && |old(a.u.cells[..])| == |old(b.u.cells[..])| == c.u.cells.Length
              && NonZero(old(b.u.cells[..]))
              && c.u.cells[..] == Combined(Over, old(a.u.cells[..]), old(b.u.cells[..]))
  {
    Binary(Over, a, b, c, raw);
  }

  /** subtract(a, c): c[i] = -a[i] for each of the total(a) elements. */
  method Negative(a: Mat, c: Mat, raw: nat)
    requires Holds(a) && c.Valid() && MallocResult(raw)
    requires a.matType == INT_TYPE || a.matType == FLOAT_TYPE
    requires UnaryCheck(a.matType, a.sizes, c.matType, c.sizes, c.IsEmpty())
    requires c.IsEmpty() ==> 0 < a.dims && c != a && raw != 0
    requires !c.IsEmpty() ==> Holds(c)
    modifies c, c.u, Cells(c)
    ensures c.Valid() && c.sizes == old(a.sizes) && c.matType == old(a.matType)
    ensures Product(c.sizes) != 0 ==>
              c.u != null && |old(a.u.cells[..])| == c.u.cells.Length
              && c.u.cells[..] == Negated(old(a.u.cells[..]))
  {
    PreProcessUnary(a, c, raw);
    var totalSize := a.Total();
    if totalSize != 0 {
      NegateMats(a, c, totalSize, old(a.u.cells[..]));
    }
  }

  /** The element loop of subtract(a, c) once c has a's type and extents. */
  method NegateMats(a: Mat, c: Mat, n: nat, ghost xs: seq<int>)
    requires Holds(a) && Holds(c) && SameTypeAndSize(a, c) && n == Product(a.sizes) != 0
    requires xs == a.u.cells[..]
    modifies c.u.cells
    ensures unchanged(a, c)
    ensures |xs| == c.u.cells.Length == n && c.u.cells[..] == Negated(xs)
  {
    Negate(a.u.cells, c.u.cells, n);
    assert c.u.cells[..] == c.u.cells[..n];
  }
}
