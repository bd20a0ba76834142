/**
 * src/core/utils.cpp: the text of a shape and the output shape of a batched matrix product
 * (the half/single precision conversions are in module Half).
 */
module CoreUtils {
  import opened Wrappers
  import opened Text

  // ---------------------------------------------------------------- shape_to_str

  /** " x d1 x d2 ..." for the extents after the first. */
  function Tail(t: seq<int>): string
  {
    if t == [] then "" else Tail(t[..|t| - 1]) + " x " + IntText(t[|t| - 1])
  }

  /** shape_to_str(shape): "[ d0 x d1 ... x dn]". */
  function ShapeStr(shape: seq<int>): string
    requires shape != []
  {
    "[ " + IntText(shape[0]) + Tail(shape[1..]) + "]"
  }

  /** The number of c in t. */
  function Count(t: string, c: char): nat
  {
    if t == [] then 0 else (if t[0] == c then 1 else 0) + Count(t[1..], c)
  }

  lemma {:induction false} CountAppend(a: string, b: string, c: char)
    ensures Count(a + b, c) == Count(a, c) + Count(b, c)
  {
    if a == [] {
      assert a + b == b;
    } else {
      assert (a + b)[1..] == a[1..] + b;
      CountAppend(a[1..], b, c);
    }
  }

  /** The decimal text of an int holds no letter. */
  lemma IntTextHasNo(n: int, c: char)
    requires !('0' <= c <= '9') && c != '-'
    ensures Count(IntText(n), c) == 0
  {
    var t := IntText(n);
    NoCount(t, c);
  }

  lemma {:induction false} NoCount(t: string, c: char)
    requires forall i :: 0 <= i < |t| ==> t[i] != c
    ensures Count(t, c) == 0
  {
    if t != [] {
      NoCount(t[1..], c);
    }
  }

  /** One " x " separator per extent after the first. */
  lemma {:induction false} TailCount(t: seq<int>)
    ensures Count(Tail(t), 'x') == |t|
  {
    if t != [] {
      var init := t[..|t| - 1];
      TailCount(init);
      CountAppend(Tail(init), " x ", 'x');
      CountAppend(Tail(init) + " x ", IntText(t[|t| - 1]), 'x');
      IntTextHasNo(t[|t| - 1], 'x');
    }
  }

  /** The text of a shape of n extents shows n - 1 separators between "[ " and "]". */
  lemma ShapeStrSeparators(shape: seq<int>)
    requires shape != []
    ensures Count(ShapeStr(shape), 'x') == |shape| - 1
    ensures ShapeStr(shape)[..2] == "[ " && ShapeStr(shape)[|ShapeStr(shape)| - 1] == ']'
  {
    var s := ShapeStr(shape);
    CountAppend("[ ", IntText(shape[0]), 'x');
    CountAppend("[ " + IntText(shape[0]), Tail(shape[1..]), 'x');
    CountAppend("[ " + IntText(shape[0]) + Tail(shape[1..]), "]", 'x');
    IntTextHasNo(shape[0], 'x');
    TailCount(shape[1..]);
  }

  /** Tail grows by one separator and one extent. */
  lemma TailSnoc(t: seq<int>, k: nat)
    requires k < |t|
    ensures Tail(t[..k + 1]) == Tail(t[..k]) + " x " + IntText(t[k])
  {
    assert t[..k + 1][..k] == t[..k];
  }

  /** Appending a separator and an extent to a text that ends in a Tail. */
  lemma Regroup(h: string, t: string, sep: string, e: string)
    ensures h + t + sep + e == h + (t + sep + e)
  {
  }

  /** shape_to_str's loop: the first extent, then " x " and each further one. */
  method ShapeToStr(shape: seq<int>) returns (str: string)
    requires shape != []
    ensures str == ShapeStr(shape)
  {
    var rest := shape[1..];
    var head := "[ " + IntText(shape[0]);
    str := head;
    var i := 1;
    while i < |shape|
      invariant 1 <= i <= |shape|
      invariant str == head + Tail(rest[..i - 1])
    {
      var e := IntText(shape[i]);
      assert rest[i - 1] == shape[i];
      TailSnoc(rest, i - 1);
      Regroup(head, Tail(rest[..i - 1]), " x ", e);
      str := str + " x " + e;
      i := i + 1;
    }
    assert rest[..i - 1] == rest;
    str := str + "]";
  }

  // ---------------------------------------------------------------- get_gemm_shape

  /** Some(o.value + t), or None. */
  function Then(o: Option<seq<int>>, t: seq<int>): Option<seq<int>>
  {
    if o.None? then None else Some(o.value + t)
  }

  /**
   * The batch dimensions of a product, aligned from the right: equal extents are kept, a 1
   * takes the other side's extent, a dimension only one side has is copied, and any other
   * pair is a mismatch (None).
   */
  function Broadcast(x: seq<int>, y: seq<int>): (r: Option<seq<int>>)
    ensures r.Some? ==> |r.value| == if |x| >= |y| then |x| else |y|
    decreases |x| + |y|
  {
    if x == [] then Some(y)
    else if y == [] then Some(x)
    else
      var a, b := x[|x| - 1], y[|y| - 1];
      if a != b && a != 1 && b != 1 then None
      else Then(Broadcast(x[..|x| - 1], y[..|y| - 1]), [if a == b || b == 1 then a else b])
  }

  /** The extent broadcasting gives for one aligned pair. */
  function Combine(a: int, b: int): int
  {
    if a == b || b == 1 then a else b
  }

  /**
   * Broadcasting has the rank of the longer side and is symmetric; it fails exactly when some
   * aligned pair differs with neither side 1.
   */
  lemma {:induction false} BroadcastSymmetric(x: seq<int>, y: seq<int>)
    ensures Broadcast(x, y) == Broadcast(y, x)
    ensures Broadcast(x, y).Some? ==> |Broadcast(x, y).value| == if |x| >= |y| then |x| else |y|
    decreases |x| + |y|
  {
    if x != [] && y != [] {
      BroadcastSymmetric(x[..|x| - 1], y[..|y| - 1]);
    }
  }

  /** Two extents broadcast when they are equal or either is 1. */
  predicate Pairs(a: int, b: int)
  {
    a == b || a == 1 || b == 1
  }

  /** The pairs of extents aligned from the right all broadcast. */
  predicate Compatible(x: seq<int>, y: seq<int>)
  {
    forall i :: 0 <= i < |x| && |x| - |y| <= i ==> Pairs(x[i], y[i + |y| - |x|])
  }

  /** Broadcasting succeeds exactly on compatible shapes. */
  lemma {:induction false} BroadcastSucceeds(x: seq<int>, y: seq<int>)
    ensures Broadcast(x, y).Some? <==> Compatible(x, y)
    decreases |x| + |y|
  {
    if x != [] && y != [] {
      var x', y' := x[..|x| - 1], y[..|y| - 1];
      BroadcastSucceeds(x', y');
      assert forall i :: 0 <= i < |x'| ==> x'[i] == x[i];
      assert forall j :: 0 <= j < |y'| ==> y'[j] == y[j];
      if Compatible(x, y) {
        assert Compatible(x', y');
      }
      if Compatible(x', y') && Pairs(x[|x| - 1], y[|y| - 1]) {
        assert Compatible(x, y);
      }
    }
  }

  /**
   * get_gemm_shape(a, b): the broadcast batch dimensions, then a's rows and b's columns;
   * None where the source raises the shape mismatch error.
   */
  function GemmShape(a: seq<int>, b: seq<int>): (r: Option<seq<int>>)
    requires |a| >= 2 && |b| >= 2
    ensures r.Some? ==> var c := r.value;
                        && |c| == (if |a| >= |b| then |a| else |b|)
                        && c[|c| - 2] == a[|a| - 2] && c[|c| - 1] == b[|b| - 1]
  {
    Then(Broadcast(a[..|a| - 2], b[..|b| - 2]), [a[|a| - 2], b[|b| - 1]])
  }

  /** One step of the right-to-left walk over the aligned dimensions. */
  lemma BroadcastStep(x: seq<int>, y: seq<int>, ia: nat, ib: nat)
    requires 0 < ia <= |x| && 0 < ib <= |y|
    ensures Broadcast(x[..ia], y[..ib]) ==
            if x[ia - 1] != y[ib - 1] && x[ia - 1] != 1 && y[ib - 1] != 1 then None
            else Then(Broadcast(x[..ia - 1], y[..ib - 1]), [Combine(x[ia - 1], y[ib - 1])])
  {
    assert x[..ia][..ia - 1] == x[..ia - 1];
    assert y[..ib][..ib - 1] == y[..ib - 1];
  }

  /** Then of Then. */
  lemma ThenThen(o: Option<seq<int>>, s: seq<int>, t: seq<int>)
    ensures Then(Then(o, s), t) == Then(o, s + t)
  {
    if o.Some? {
      assert (o.value + s) + t == o.value + (s + t);
    }
  }

  /** get_gemm_shape(a, b): the batch dimensions, then a's rows and b's columns. */
  method GetGemmShape(a: seq<int>, b: seq<int>) returns (r: Option<seq<int>>)
    requires |a| >= 2 && |b| >= 2
    ensures r == GemmShape(a, b)
  {
    var batch := BatchShape(a, b);
    if batch.None? {
      return None;
    }
    r := Some(batch.value + [a[|a| - 2], b[|b| - 1]]);
  }

  /**
   * The loop get_gemm_shape and gemm_impl_row share: index_a and index_b walk the batch
   * dimensions from the right and each step inserts one extent at the front of shape_c; a
   * mismatch raises (None).
   */
  method BatchShape(a: seq<int>, b: seq<int>) returns (r: Option<seq<int>>)
    requires |a| >= 2 && |b| >= 2
    ensures r == Broadcast(a[..|a| - 2], b[..|b| - 2])
  {
    var x, y := a[..|a| - 2], b[..|b| - 2];
    var shapeC: seq<int> := [];
    var ia, ib := |a| - 2, |b| - 2;
    assert x[..ia] == x && y[..ib] == y;
    assert Broadcast(x, y).Some? ==> Broadcast(x, y).value + [] == Broadcast(x, y).value;
    while ia > 0 || ib > 0
      invariant 0 <= ia <= |x| && 0 <= ib <= |y|
      invariant Broadcast(x, y) == Then(Broadcast(x[..ia], y[..ib]), shapeC)
      decreases ia + ib
    {
      if ia > 0 && ib > 0 {
        BroadcastStep(x, y, ia, ib);
        if a[ia - 1] == b[ib - 1] {
          ThenThen(Broadcast(x[..ia - 1], y[..ib - 1]), [a[ia - 1]], shapeC);
          shapeC := [a[ia - 1]] + shapeC;
        } else if a[ia - 1] == 1 {
          ThenThen(Broadcast(x[..ia - 1], y[..ib - 1]), [b[ib - 1]], shapeC);
          shapeC := [b[ib - 1]] + shapeC;
        } else if b[ib - 1] == 1 {
          ThenThen(Broadcast(x[..ia - 1], y[..ib - 1]), [a[ia - 1]], shapeC);
          shapeC := [a[ia - 1]] + shapeC;
        } else {
          return None;
        }
        ia, ib := ia - 1, ib - 1;
      } else if ia > 0 {
        ThenThen(Some(x[..ia - 1]), [a[ia - 1]], shapeC);
        assert x[..ia] == x[..ia - 1] + [a[ia - 1]];
        shapeC := [a[ia - 1]] + shapeC;
        ia := ia - 1;
      } else {
        ThenThen(Some(y[..ib - 1]), [b[ib - 1]], shapeC);
        assert y[..ib] == y[..ib - 1] + [b[ib - 1]];
        shapeC := [b[ib - 1]] + shapeC;
        ib := ib - 1;
      }
    }
    assert x[..0] == [] && y[..0] == [] && [] + shapeC == shapeC;
    r := Some(shapeC);
  }
}
