/**
 * The element-wise binary operators of src/core/basic_op.cpp: the shape checks of the
 * arithmetic entry points, the broadcasting helper BinaryOpHelper, the kernel binary_forward
 * and the type/op dispatch of binaryFunc, and the unary negation `subtract(a, c)`.
 *
 * A Mat is modelled here by its value: element type, extents and elements (one integer per
 * element, row-major).  Single-precision elements are modelled only where their arithmetic
 * is exact (negation).
 */
module BasicOp {
  import opened Wrappers
  import opened Shape
  import opened Saturate
  import opened Define
  import opened Arith
  import opened Bytes
  import CoreUtils
  import CoreMat

  // ---------------------------------------------------------------- operators

  /** BinaryOp (include/minfer/basic_op.h), in its declaration order. */
  datatype BinaryOp =
    | AND | EQUAL | GREATER | GREATER_EQUAL | LESS | LESS_EQUAL | OR | POW | XOR
    | BITSHIFT | MOD | MUL | SUB | ADD | DIV

  /** The element types typeDispatch handles: uint8_t, int32_t and float. */
  datatype Kind = U8 | S32 | F32

  /** Why an operator gives up (an assert, M_Error or M_Error_ in the source). */
  datatype Failure =
    | DifferentTypeOrSize
    | EmptyInput
    | BroadcastMismatch
    | UnsupportedType
    | UnsupportedOp

  /** The C++ type an integer kind stores its elements in. */
  function Storage(k: Kind): IntType
    requires k != F32
  {
    if k == U8 then UChar else Int
  }

  /** C++ integer division, truncating toward zero. */
  function TruncDiv(a: int, b: int): (q: int)
    requires b != 0
    ensures (a >= 0) == (b > 0) || a == 0 ==> q >= 0
  {
    var m := (if a < 0 then -a else a) / (if b < 0 then -b else b);
    if (a < 0) == (b < 0) then m else -m
  }

  /** Bitwise and, or, exclusive or of two bytes. */
  function ByteAnd(x: int, y: int): int
    requires 0 <= x < 256 && 0 <= y < 256
  {
    ((x as bv8) & (y as bv8)) as int
  }

  function ByteOr(x: int, y: int): int
    requires 0 <= x < 256 && 0 <= y < 256
  {
    ((x as bv8) | (y as bv8)) as int
  }

  function ByteXor(x: int, y: int): int
    requires 0 <= x < 256 && 0 <= y < 256
  {
    ((x as bv8) ^ (y as bv8)) as int
  }

  /** A comparison's bool stored as 1 or 0. */
  function Flag(b: bool): int
  {
    if b then 1 else 0
  }

  /**
   * The lambda opDispatch runs for `op` on integer elements a and b, its result stored back
   * into the element type; None where C++ leaves the result undefined (a zero divisor, the
   * one overflowing int32 quotient, a shift by 32 or more) and for POW, which std::pow
   * computes in floating point.  MOD, AND, OR, XOR and BITSHIFT take their operands as
   * uint8_t, as written, so int32 operands are cut to their low byte first.
   */
  function Apply(op: BinaryOp, k: Kind, a: int, b: int): (r: Option<int>)
    requires k != F32
    ensures r.None? <==> op == POW
                         || (op == DIV && (b == 0 || (k == S32 && a == -0x8000_0000 && b == -1)))
                         || (op == MOD && Cast(UChar, b) == 0)
                         || (op == BITSHIFT && Cast(UChar, b) >= 32)
  {
    var x, y := Cast(UChar, a), Cast(UChar, b);
    match op
    case EQUAL => Some(Flag(a == b))
    case GREATER => Some(Flag(a > b))
    case GREATER_EQUAL => Some(Flag(a >= b))
    case LESS => Some(Flag(a < b))
    case LESS_EQUAL => Some(Flag(a <= b))
    case POW => None
    case BITSHIFT => if y >= 32 then None else Some(Store(k, Cast(Int, x * Pow2(y))))
    case MOD => if y == 0 then None else Some(Store(k, x % y))
    case AND => CastInRange(UChar, a); CastInRange(UChar, b); Some(Store(k, ByteAnd(x, y)))
    case OR => CastInRange(UChar, a); CastInRange(UChar, b); Some(Store(k, ByteOr(x, y)))
    case XOR => CastInRange(UChar, a); CastInRange(UChar, b); Some(Store(k, ByteXor(x, y)))
    case MUL => Some(Store(k, a * b))
    case SUB => Some(Store(k, a - b))
    case ADD => Some(Store(k, a + b))
    case DIV =>
      if b == 0 || (k == S32 && a == -0x8000_0000 && b == -1) then None
      else Some(Store(k, TruncDiv(a, b)))
  }

  /** A value stored into the element type: the C++ conversion to it. */
  function Store(k: Kind, v: int): int
    requires k != F32
  {
    Cast(Storage(k), v)
  }

  /** Every result is a value of the element type. */
  lemma ApplyInRange(op: BinaryOp, k: Kind, a: int, b: int)
    requires k != F32 && Apply(op, k, a, b).Some?
    ensures InRange(Storage(k), Apply(op, k, a, b).value)
  {
    StoreInRange(k);
  }

  /** Whatever is stored, the element holds a value of its type. */
  lemma StoreInRange(k: Kind)
    requires k != F32
    ensures forall v :: InRange(Storage(k), Store(k, v))
  {
    forall v {
      CastInRange(Storage(k), v);
    }
  }

  /** Values congruent modulo 2^Bits(t) convert to the same value of t. */
  lemma CastCongruent(t: IntType, x: int, y: int)
    requires (x - y) % Modulus(t) == 0
    ensures Cast(t, x) == Cast(t, y)
  {
    var m := Modulus(t);
    var q := (x - y) / m;
    assert x - y == m * q;
    var qy, ry := (y - Min(t)) / m, (y - Min(t)) % m;
    assert x - Min(t) == m * (q + qy) + ry;
    DivUnique(x - Min(t), m, q + qy, ry);
  }

  /** The symmetric operators give the same result with their operands swapped. */
  lemma ApplyCommutes(op: BinaryOp, k: Kind, a: int, b: int)
    requires k != F32 && op in {EQUAL, AND, OR, XOR, MUL, ADD}
    ensures Apply(op, k, a, b) == Apply(op, k, b, a)
  {
    if op == AND || op == OR || op == XOR {
      var x, y := Cast(UChar, a) as bv8, Cast(UChar, b) as bv8;
      assert x & y == y & x && x | y == y | x && x ^ y == y ^ x;
    }
  }

  /** Subtracting and then adding back b gives a back, wrap-around included. */
  lemma SubThenAdd(k: Kind, a: int, b: int)
    requires k != F32 && InRange(Storage(k), a)
    ensures Apply(ADD, k, Apply(SUB, k, a, b).value, b) == Some(a)
  {
    assert Apply(SUB, k, a, b) == Some(Store(k, a - b));
    assert Apply(ADD, k, Store(k, a - b), b) == Some(Store(k, Store(k, a - b) + b));
    CastBack(Storage(k), a, b);
  }

  /** (t)((t)(a - b) + b) == a for every value a of t. */
  lemma CastBack(t: IntType, a: int, b: int)
    requires InRange(t, a)
    ensures Cast(t, Cast(t, a - b) + b) == a
  {
    var d := Cast(t, a - b);
    CastInRange(t, a - b);
    var q := (d - (a - b)) / Modulus(t);
    assert d - (a - b) == Modulus(t) * q;
    assert (d + b) - a == Modulus(t) * q;
    DivUnique((d + b) - a, Modulus(t), q, 0);
    CastCongruent(t, d + b, a);
    CastIdentity(t, a);
  }

  /** Exactly one of a < b and a >= b holds; the comparisons give 1 for true. */
  lemma ComparisonsComplement(k: Kind, a: int, b: int)
    requires k != F32
    ensures Apply(LESS, k, a, b).value + Apply(GREATER_EQUAL, k, a, b).value == 1
    ensures Apply(GREATER, k, a, b).value + Apply(LESS_EQUAL, k, a, b).value == 1
    ensures Apply(EQUAL, k, a, b) == Some(1) <==> a == b
  {
  }

  /** The ops opDispatch refuses on float elements. */
  predicate IntegerOnly(op: BinaryOp)
  {
    op == MOD || op == AND || op == OR || op == XOR
  }

  /**
   * typeDispatch and the float check of opDispatch: DT_8U, DT_32S and DT_32F are handled,
   * any other type is an error, and float elements refuse MOD, AND, OR and XOR.
   */
  function Dispatch(t: nat, op: BinaryOp): (r: Result<Kind, Failure>)
    ensures r.Ok? <==> t == DT_8U || t == DT_32S || (t == DT_32F && !IntegerOnly(op))
    ensures r.Ok? ==> (r.value == U8 <==> t == DT_8U) && (r.value == S32 <==> t == DT_32S)
    ensures t == DT_32F && IntegerOnly(op) ==> r == Err(UnsupportedOp)
  {
    if t == DT_8U then Ok(U8)
    else if t == DT_32S then Ok(S32)
    else if t == DT_32F then (if IntegerOnly(op) then Err(UnsupportedOp) else Ok(F32))
    else Err(UnsupportedType)
  }

  // ---------------------------------------------------------------- operands

  /** A Mat by value: its type, its extents and its total() elements. */
  datatype Operand = Operand(matType: nat, sizes: seq<int>, data: seq<int>)

  predicate WellFormed(m: Operand)
  {
    |m.data| == Product(m.sizes)
  }

  /** Mat::empty(): no extents, or a zero total. */
  predicate Empty(m: Operand)
  {
    m.sizes == [] || Product(m.sizes) == 0
  }

  /** checkIsSameType: equal types and equal extents. */
  predicate SameTypeAndSize(a: Operand, b: Operand)
  {
    a.matType == b.matType && a.sizes == b.sizes
  }

  /** A Mat with a's dims, extents and type (its elements are whatever the buffer holds). */
  function LikeOf(a: Operand, contents: seq<int>): Operand
  {
    Operand(a.matType, a.sizes, contents)
  }

  /**
   * preProcessAndCheck(a, b, c): an empty c is created like a once a and b agree; a
   * non-empty c must agree with both.
   */
  function PreProcess(a: Operand, b: Operand, c: Operand, contents: seq<int>): (r: Result<Operand, Failure>)
    ensures r.Ok? <==> SameTypeAndSize(a, b) && (Empty(c) || SameTypeAndSize(a, c))
    ensures r.Ok? ==> r.value.matType == a.matType && r.value.sizes == a.sizes
    ensures r.Ok? && !Empty(c) ==> r.value == c
  {
    if Empty(c) then
      if SameTypeAndSize(a, b) then Ok(LikeOf(a, contents)) else Err(DifferentTypeOrSize)
    else if SameTypeAndSize(a, b) && SameTypeAndSize(a, c) then Ok(c)
    else Err(DifferentTypeOrSize)
  }

  /**
   * preProcessAndCheck(a, c): an empty c is created like a, which must not be empty; a
   * non-empty c must agree with a.
   */
  function PreProcessUnary(a: Operand, c: Operand, contents: seq<int>): (r: Result<Operand, Failure>)
    ensures r.Ok? <==> if Empty(c) then !Empty(a) else SameTypeAndSize(a, c)
    ensures r.Ok? ==> r.value.matType == a.matType && r.value.sizes == a.sizes
    ensures Empty(c) && Empty(a) ==> r == Err(EmptyInput)
  {
    if Empty(c) then
      if Empty(a) then Err(EmptyInput) else Ok(LikeOf(a, contents))
    else if SameTypeAndSize(a, c) then Ok(c)
    else Err(DifferentTypeOrSize)
  }

  // ---------------------------------------------------------------- subtract(a, c)

  /** `-x` stored in the element type: int32 wraps, float negation is exact. */
  function Negated(k: Kind, x: int): int
    requires k != U8
  {
    if k == S32 then Cast(Int, -x) else -x
  }

  /** Negating twice gives back every value of the element type. */
  lemma NegateTwice(k: Kind, x: int)
    requires k != U8 && (k == S32 ==> InRange(Int, x))
    ensures Negated(k, Negated(k, x)) == x
  {
    if k == S32 {
      var n := Cast(Int, -x);
      CastInRange(Int, -x);
      NegMultiple(n + x, Modulus(Int));
      assert -n - x == -(n + x);
      CastCongruent(Int, -n, x);
      CastIdentity(Int, x);
    }
  }

  /** The negation of a multiple of m is one. */
  lemma NegMultiple(a: int, m: int)
    requires m > 0 && a % m == 0
    ensures (-a) % m == 0
  {
    var q := a / m;
    assert a == m * q;
    DivUnique(-a, m, -q, 0);
  }

  /** The elements of -a. */
  function NegatedAll(k: Kind, s: seq<int>): (r: seq<int>)
    requires k != U8
    ensures |r| == |s| && forall i :: 0 <= i < |s| ==> r[i] == Negated(k, s[i])
  {
    seq(|s|, i requires 0 <= i < |s| => Negated(k, s[i]))
  }

  /** The kind of an int32 or float Mat. */
  function SignedKind(t: nat): Kind
  {
    if t == DT_32S then S32 else F32
  }

  /**
   * What subtract(a, c) leaves in c: the checks of preProcessAndCheck, then -a[i] in every
   * element for int32 and float, and an error for any other type.
   */
  function Negation(a: Operand, c: Operand, contents: seq<int>): (r: Result<Operand, Failure>)
    requires WellFormed(a) && WellFormed(c) && |contents| == |a.data|
    ensures r.Ok? <==> PreProcessUnary(a, c, contents).Ok? && (a.matType == DT_32S || a.matType == DT_32F)
    ensures PreProcessUnary(a, c, contents).Err? ==> r == PreProcessUnary(a, c, contents)
    ensures r.Ok? ==> r.value.matType == a.matType && r.value.sizes == a.sizes && |r.value.data| == |a.data|
                      && forall i :: 0 <= i < |a.data| ==> r.value.data[i] == Negated(SignedKind(a.matType), a.data[i])
  {
    match PreProcessUnary(a, c, contents)
    case Err(e) => Err(e)
    case Ok(_) =>
      if a.matType != DT_32S && a.matType != DT_32F then Err(UnsupportedType)
      else Ok(LikeOf(a, NegatedAll(SignedKind(a.matType), a.data)))
  }

  /** Subtracting an int32 Mat into a fresh c twice gives back the Mat. */
  lemma {:induction false} NegationInvolutive(a: Operand, c: Operand, x: seq<int>, y: seq<int>)
    requires WellFormed(a) && WellFormed(c) && Empty(c) && !Empty(a) && a.matType == DT_32S
    requires forall i :: 0 <= i < |a.data| ==> InRange(Int, a.data[i])
    requires |x| == |a.data| && |y| == |a.data|
    ensures Negation(a, c, x).Ok? && Negation(Negation(a, c, x).value, c, y) == Ok(a)
  {
    var once := Negation(a, c, x).value;
    var twice := Negation(once, c, y).value;
    forall i | 0 <= i < |a.data|
      ensures twice.data[i] == a.data[i]
    {
      NegateTwice(S32, a.data[i]);
    }
    assert twice.data == a.data;
  }

  /**
   * subtract(a, c): after preProcessAndCheck, c[i] = -a[i] for the total() elements of a,
   * for int32 and float; any other type is an error.  `contents` is what a newly created c
   * holds before the loop.
   */
  method SubtractUnary(a: Operand, c: Operand, contents: seq<int>) returns (r: Result<Operand, Failure>)
    requires WellFormed(a) && WellFormed(c) && |contents| == |a.data|
    ensures r == Negation(a, c, contents)
  {
    var target :- PreProcessUnary(a, c, contents);
    if a.matType != DT_32S && a.matType != DT_32F {
      return Err(UnsupportedType);
    }
    var k := if a.matType == DT_32S then S32 else F32;
    var cp := new int[|target.data|](i requires 0 <= i < |target.data| => target.data[i]);
    var i := 0;
    while i < |a.data|
      invariant 0 <= i <= |a.data| == cp.Length
      invariant forall j :: 0 <= j < i ==> cp[j] == Negated(k, a.data[j])
    {
      cp[i] := Negated(k, a.data[i]);
      i := i + 1;
    }
    assert cp[..] == NegatedAll(k, a.data);
    return Ok(LikeOf(a, cp[..]));
  }

  // ---------------------------------------------------------------- BinaryOpHelper::init

  /** The broadcast extent of each aligned pair, for operands of equal rank. */
  function Pointwise(x: seq<int>, y: seq<int>): (r: seq<int>)
    requires |x| == |y|
    ensures |r| == |x| && forall i :: 0 <= i < |x| ==> r[i] == CoreUtils.Combine(x[i], y[i])
  {
    seq(|x|, i requires 0 <= i < |x| => CoreUtils.Combine(x[i], y[i]))
  }

  /** Dropping the last dimension of both shapes keeps them compatible. */
  lemma CompatiblePrefix(x: seq<int>, y: seq<int>)
    requires |x| == |y| > 0 && CoreUtils.Compatible(x, y)
    ensures CoreUtils.Compatible(x[..|x| - 1], y[..|y| - 1])
    ensures CoreUtils.Pairs(x[|x| - 1], y[|y| - 1])
  {
    var x', y' := x[..|x| - 1], y[..|y| - 1];
    forall i | 0 <= i < |x'|
      ensures CoreUtils.Pairs(x'[i], y'[i + |y'| - |x'|])
    {
      assert x'[i] == x[i] && y'[i] == y[i + |y| - |x|];
    }
  }

  /** The pointwise extents of two shapes are those of their prefixes, then the last pair's. */
  lemma PointwiseSnoc(x: seq<int>, y: seq<int>)
    requires |x| == |y| > 0
    ensures Pointwise(x, y)
         == Pointwise(x[..|x| - 1], y[..|y| - 1]) + [CoreUtils.Combine(x[|x| - 1], y[|y| - 1])]
  {
    var p, q := Pointwise(x, y), Pointwise(x[..|x| - 1], y[..|y| - 1]);
    assert forall i :: 0 <= i < |q| ==> p[i] == q[i];
  }

  /** For equal ranks the right-aligned broadcast of get_gemm_shape is the pointwise one. */
  lemma {:induction false} BroadcastEqualRanks(x: seq<int>, y: seq<int>)
    requires |x| == |y| && CoreUtils.Compatible(x, y)
    ensures CoreUtils.Broadcast(x, y) == Some(Pointwise(x, y))
    decreases |x|
  {
    if x != [] {
      var x', y' := x[..|x| - 1], y[..|y| - 1];
      CompatiblePrefix(x, y);
      BroadcastEqualRanks(x', y');
      PointwiseSnoc(x, y);
      assert CoreUtils.Broadcast(x, y)
          == CoreUtils.Then(CoreUtils.Broadcast(x', y'), [CoreUtils.Combine(x[|x| - 1], y[|y| - 1])]);
    }
  }

  /** n extents of 1. */
  function Ones(n: nat): (r: seq<int>)
    ensures |r| == n && forall i :: 0 <= i < n ==> r[i] == 1
  {
    seq(n, i => 1)
  }

  /**
   * init's loop over idx from the last dimension down: equal extents are kept, a 1 gives the
   * other extent, anything else is the broadcasting error.  With equal ranks idx_0 and idx_1
   * equal idx, so the aligned input shapes are the inputs themselves.
   */
  method AlignShapes(s0: seq<int>, s1: seq<int>) returns (out: seq<int>, align0: seq<int>, align1: seq<int>, ok: bool)
    requires |s0| == |s1|
    ensures ok <==> CoreUtils.Compatible(s0, s1)
    ensures ok ==> out == Pointwise(s0, s1) && align0 == s0 && align1 == s1
  {
    var n := |s0|;
    out, align0, align1 := Ones(n), Ones(n), Ones(n);
    var idx := n - 1;
    while idx >= 0
      invariant -1 <= idx < n && |out| == |align0| == |align1| == n
      invariant forall j :: idx < j < n ==>
                  CoreUtils.Pairs(s0[j], s1[j]) && out[j] == CoreUtils.Combine(s0[j], s1[j])
                  && align0[j] == s0[j] && align1[j] == s1[j]
      invariant forall j :: 0 <= j <= idx ==> align0[j] == 1 && align1[j] == 1
    {
      if s0[idx] == s1[idx] {
        out, align0, align1 := out[idx := s0[idx]], align0[idx := s0[idx]], align1[idx := s0[idx]];
      } else if s0[idx] == 1 {
        out := out[idx := s1[idx]];
        align1 := align1[idx := out[idx]];
      } else if s1[idx] == 1 {
        out := out[idx := s0[idx]];
        align0 := align0[idx := out[idx]];
      } else {
        assert !CoreUtils.Pairs(s0[idx], s1[idx + |s1| - |s0|]);
        return out, align0, align1, false;
      }
      idx := idx - 1;
    }
    assert out == Pointwise(s0, s1);
    ok := true;
  }

  /**
   * The step init stores for dimension k, as written: 1 for the last two dimensions and,
   * below them, the product of the extents strictly between k and the last one, that is, a
   * stride counted in blocks of the last extent.
   */
  function BlockStep(s: seq<int>, k: nat): int
    requires k < |s|
  {
    if k + 1 < |s| then Product(s[k + 1..|s| - 1]) else 1
  }

  function BlockSteps(s: seq<int>): (r: seq<int>)
    ensures |r| == |s| && forall k :: 0 <= k < |s| ==> r[k] == BlockStep(s, k)
  {
    seq(|s|, k requires 0 <= k < |s| => BlockStep(s, k))
  }

  /** get_step_func: all 1, then steps[i] *= shape[i + 1] * steps[i + 1] for i from rank - 3 down. */
  method GetStepFunc(s: seq<int>) returns (o: seq<int>)
    ensures o == BlockSteps(s)
  {
    var n := |s|;
    o := Ones(n);
    var i := n - 3;
    assert n >= 2 ==> s[n - 1..n - 1] == [];
    while i >= 0
      invariant i <= n - 3 && |o| == n
      invariant forall k :: 0 <= k < n && i < k ==> o[k] == BlockStep(s, k)
      invariant forall k :: 0 <= k <= i ==> o[k] == 1
    {
      assert s[i + 1..n - 1][1..] == s[i + 2..n - 1];
      o := o[i := o[i] * (s[i + 1] * o[i + 1])];
      i := i - 1;
    }
  }

  /**
   * The steps binary_forward needs to read the right elements: the row-major stride of each
   * dimension counted in elements, and 0 along a dimension the input broadcasts (extent 1).
   */
  function ElementStep(s: seq<int>, k: nat): int
    requires k < |s|
  {
    if s[k] == 1 then 0 else Product(s[k + 1..])
  }

  function ElementSteps(s: seq<int>): (r: seq<int>)
    ensures |r| == |s| && forall k :: 0 <= k < |s| ==> r[k] == ElementStep(s, k)
  {
    seq(|s|, k requires 0 <= k < |s| => ElementStep(s, k))
  }

  /** The corrected step computation, a running product from the last dimension down. */
  method ElementStepsOf(s: seq<int>) returns (o: seq<int>)
    ensures o == ElementSteps(s)
  {
    var n := |s|;
    o := Ones(n);
    var p := 1;
    var i := n - 1;
    while i >= 0
      invariant -1 <= i < n && |o| == n
      invariant p == Product(s[i + 1..])
      invariant forall k :: i < k < n ==> o[k] == ElementStep(s, k)
    {
      o := o[i := if s[i] == 1 then 0 else p];
      ProductFrom(s, i);
      p := s[i] * p;
      i := i - 1;
    }
  }

  // ---------------------------------------------------------------- block offsets

  /**
   * The offset binary_forward's inner k-loop adds up for block index idx: its digits in the
   * output extents of the first m dimensions, from dimension m - 1 down, times the steps.
   */
  function Off(idx: nat, out: seq<int>, steps: seq<int>, m: nat): (r: int)
    requires m <= |out| && m <= |steps| && forall k :: 0 <= k < m ==> out[k] > 0
    ensures (forall k :: 0 <= k < m ==> steps[k] >= 0) ==> r >= 0
    decreases m
  {
    if m == 0 then 0
    else (idx % out[m - 1]) * steps[m - 1] + Off(idx / out[m - 1], out, steps, m - 1)
  }

  /** Dividing the digits and remainder of nested divisions: idx % (p * d) from idx % d and idx / d. */
  lemma MixedRadix(idx: nat, d: nat, p: nat)
    requires d > 0 && p > 0
    ensures idx % (p * d) == idx % d + d * ((idx / d) % p)
  {
    var q, r := idx / d, idx % d;
    var q2, r2 := q / p, q % p;
    assert idx == d * q + r;
    assert q == p * q2 + r2;
    assert idx == (p * d) * q2 + (d * r2 + r);
    assert d * r2 <= d * (p - 1);
    DivUnique(idx, p * d, q2, d * r2 + r);
  }

  /** The product of extents a..m splits off the last one. */
  lemma ProductLast(s: seq<int>, a: nat, m: nat)
    requires a < m <= |s|
    ensures Product(s[a..m]) == Product(s[a..m - 1]) * s[m - 1]
  {
    assert s[a..m] == s[a..m - 1] + [s[m - 1]];
    ProductSnoc(s[a..m - 1], s[m - 1]);
  }

  /** The product of the first m extents is the product of the first m - 1 times extent m - 1. */
  lemma PrefixProduct(s: seq<int>, m: nat)
    requires 0 < m <= |s|
    ensures Product(s[..m]) == Product(s[..m - 1]) * s[m - 1]
  {
    assert s[..m] == s[..m - 1] + [s[m - 1]];
    ProductSnoc(s[..m - 1], s[m - 1]);
  }

  lemma Regroup(c: int, p: int, d: int)
    ensures c * (p * d) == (c * d) * p
  {
  }

  /** The last digit's term: steps c, or any step on an extent of 1 (whose digit is 0). */
  lemma LastDigitTerm(idx: nat, d: int, step: int, c: int)
    requires d > 0 && (d == 1 || step == c)
    ensures (idx % d) * step == c * (idx % d)
  {
  }

  lemma Distribute(c: int, r: int, d: int, t: int)
    ensures c * r + (c * d) * t == c * (r + d * t)
  {
  }

  /** Step k is c times the row-major stride of `out` over its first m dimensions, or k has extent 1. */
  predicate ScaledStepAt(out: seq<int>, steps: seq<int>, m: nat, c: int, k: nat)
    requires k < m <= |out| && m <= |steps|
  {
    out[k] == 1 || steps[k] == c * Product(out[k + 1..m])
  }

  /** Every step below m has the scaled form. */
  predicate ScaledSteps(out: seq<int>, steps: seq<int>, m: nat, c: int)
    requires m <= |out| && m <= |steps|
  {
    forall k :: 0 <= k < m ==> ScaledStepAt(out, steps, m, c, k)
  }

  /** Scaled strides over m dimensions are the strides over m - 1 scaled by extent m - 1. */
  lemma ScaledStridesPrefix(out: seq<int>, steps: seq<int>, m: nat, c: int)
    requires 0 < m <= |out| && m <= |steps|
    requires ScaledSteps(out, steps, m, c)
    ensures ScaledSteps(out, steps, m - 1, c * out[m - 1])
    ensures out[m - 1] == 1 || steps[m - 1] == c
  {
    var m1, c1 := m - 1, c * out[m - 1];
    forall k | 0 <= k < m1
      ensures ScaledStepAt(out, steps, m1, c1, k)
    {
      assert ScaledStepAt(out, steps, m, c, k);
      ProductLast(out, k + 1, m);
      Regroup(c, Product(out[k + 1..m - 1]), out[m - 1]);
    }
    assert ScaledStepAt(out, steps, m, c, m - 1);
    assert out[m..m] == [];
  }

  /**
   * With steps that are c times the row-major strides of `out` over its first m dimensions
   * (any value along an extent of 1), the offset of idx is c times idx's position in those
   * dimensions.
   */
  lemma {:induction false} OffScaled(idx: nat, out: seq<int>, steps: seq<int>, m: nat, c: int)
    requires m <= |out| && m <= |steps| && forall k :: 0 <= k < m ==> out[k] > 0
    requires ScaledSteps(out, steps, m, c)
    ensures Product(out[..m]) > 0
    ensures Off(idx, out, steps, m) == c * (idx % Product(out[..m]))
    decreases m
  {
    ProductPositive(out[..m]);
    if m > 0 {
      var d := out[m - 1];
      ScaledStridesPrefix(out, steps, m, c);
      OffScaled(idx / d, out, steps, m - 1, c * d);
      PrefixProduct(out, m);
      OffScaledStep(idx, d, Product(out[..m - 1]), c, steps[m - 1], Off(idx / d, out, steps, m - 1),
                    Off(idx, out, steps, m), Product(out[..m]));
    }
  }

  /** OffScaled's step: the last digit's term joins c * d times the position in the rest. */
  lemma OffScaledStep(idx: nat, d: int, p: int, c: int, step: int, rest: int, whole: int, total: int)
    requires d > 0 && p > 0 && (d == 1 || step == c)
    requires rest == (c * d) * ((idx / d) % p) && whole == (idx % d) * step + rest && total == p * d
    ensures whole == c * (idx % total)
  {
    MixedRadix(idx, d, p);
    LastDigitTerm(idx, d, step, c);
    Distribute(c, idx % d, d, (idx / d) % p);
  }

  /**
   * The broadcast-aware form of step k over the first m dimensions: 0 along an aligned extent
   * of 1, else c times the number of aligned blocks after k, with the aligned extent equal to
   * the output's.
   */
  predicate StepAt(out: seq<int>, align: seq<int>, steps: seq<int>, m: nat, c: int, k: nat)
    requires k < m <= |out| && m <= |align| && m <= |steps|
  {
    (align[k] == 1 && steps[k] == 0) || (align[k] == out[k] && steps[k] == c * Product(align[k + 1..m]))
  }

  /** Every step below m has the broadcast-aware form. */
  predicate BroadcastSteps(out: seq<int>, align: seq<int>, steps: seq<int>, m: nat, c: int)
    requires m <= |out| && m <= |align| && m <= |steps|
  {
    forall k :: 0 <= k < m ==> StepAt(out, align, steps, m, c, k)
  }

  /** Steps of the broadcast-aware form keep it, scaled by extent m - 1, over m - 1 dimensions. */
  lemma BroadcastStridesPrefix(out: seq<int>, align: seq<int>, steps: seq<int>, m: nat, c: int)
    requires 0 < m <= |out| && m <= |align| && m <= |steps|
    requires BroadcastSteps(out, align, steps, m, c)
    ensures BroadcastSteps(out, align, steps, m - 1, c * align[m - 1])
    ensures (align[m - 1] == 1 && steps[m - 1] == 0) || (align[m - 1] == out[m - 1] && steps[m - 1] == c)
  {
    var m1, c1 := m - 1, c * align[m - 1];
    forall k | 0 <= k < m1
      ensures StepAt(out, align, steps, m1, c1, k)
    {
      assert StepAt(out, align, steps, m, c, k);
      ProductLast(align, k + 1, m);
      Regroup(c, Product(align[k + 1..m - 1]), align[m - 1]);
    }
    assert StepAt(out, align, steps, m, c, m - 1);
    assert align[m..m] == [];
  }

  /** The bound's arithmetic: a digit below a plus a scaled rest below a * (p - 1). */
  lemma BoundStep(r: int, a: int, c: int, rest: int, p: int)
    requires 0 <= r <= a - 1 && c >= 0 && 0 <= rest <= (c * a) * (p - 1)
    ensures 0 <= r * c + rest <= c * (p * a - 1)
  {
    assert r * c <= (a - 1) * c;
  }

  /**
   * With steps that are c times the strides of `align`, except 0 along the dimensions where
   * align is 1 and align equals out elsewhere, the offset of any idx stays below c times the
   * number of blocks of align.
   */
  lemma {:induction false} OffBound(idx: nat, out: seq<int>, align: seq<int>, steps: seq<int>, m: nat, c: nat)
    requires m <= |out| && m <= |align| && m <= |steps|
    requires forall k :: 0 <= k < m ==> out[k] > 0 && align[k] > 0
    requires BroadcastSteps(out, align, steps, m, c)
    ensures Product(align[..m]) > 0
    ensures 0 <= Off(idx, out, steps, m) <= c * (Product(align[..m]) - 1)
    decreases m
  {
    if m == 0 {
      ProductPositive(align[..m]);
    } else {
      var d, a := out[m - 1], align[m - 1];
      BroadcastStridesPrefix(out, align, steps, m, c);
      OffBound(idx / d, out, align, steps, m - 1, c * a);
      PrefixProduct(align, m);
      OffBoundStep(idx, d, a, Product(align[..m - 1]), c, steps[m - 1], Off(idx / d, out, steps, m - 1),
                   Off(idx, out, steps, m), Product(align[..m]));
    }
  }

  /** OffBound's step: the last digit's term and the bound on the rest. */
  lemma OffBoundStep(idx: nat, d: int, a: int, p: int, c: nat, step: int, rest: int, whole: int, total: int)
    requires d > 0 && a > 0 && p > 0
    requires (a == 1 && step == 0) || (a == d && step == c)
    requires 0 <= rest <= (c * a) * (p - 1) && whole == (idx % d) * step + rest && total == p * a
    ensures total > 0 && 0 <= whole <= c * (total - 1)
  {
    if a == 1 {
      assert (idx % d) * step == 0;
    } else {
      BoundStep(idx % d, a, c, rest, p);
    }
  }

  /** 0 when an input's last aligned extent is 1 (the inner pointer stays), else 1. */
  function Inner(align: seq<int>): nat
    requires align != []
  {
    if align[|align| - 1] == 1 then 0 else 1
  }

  /** The shape facts binary_forward relies on: a non-empty output of positive extents. */
  predicate Layout(out: seq<int>, steps: seq<int>, align: seq<int>)
  {
    |out| > 0 && |steps| == |out| && |align| == |out| && AllPositive(out)
  }

  /**
   * The input element binary_forward reads for output element j: block j / block_size, whose
   * offset the k-loop computes from the steps, then j % block_size times the inner advance.
   */
  function ReadIndex(out: seq<int>, steps: seq<int>, align: seq<int>, j: nat): (r: int)
    requires Layout(out, steps, align)
    ensures (forall k :: 0 <= k < |steps| ==> steps[k] >= 0) ==> r >= 0
  {
    var n := |out|;
    Off(j / out[n - 1], out, steps, n - 1) + (j % out[n - 1]) * Inner(align)
  }

  /**
   * As written, an input of the output's own shape is read from element block + i of block
   * `block` instead of block * block_size + i.
   */
  lemma AsWrittenReads(s: seq<int>, j: nat)
    requires |s| > 0 && AllPositive(s)
    requires j < Product(s)
    ensures ReadIndex(s, BlockSteps(s), s, j) == j / s[|s| - 1] + (j % s[|s| - 1]) * Inner(s)
  {
    var n := |s|;
    var bs := s[n - 1];
    var m1, steps := n - 1, BlockSteps(s);
    forall k | 0 <= k < m1
      ensures ScaledStepAt(s, steps, m1, 1, k)
    {
      assert steps[k] == BlockStep(s, k) == Product(s[k + 1..m1]);
    }
    DivNat(j, bs);
    OffScaled(j / bs, s, steps, m1, 1);
    var p := BlockIndexBelow(s, j);
  }

  lemma DivNat(j: nat, d: int)
    requires d > 0
    ensures j / d >= 0
  {
  }

  /** j < p * d gives j / d < p. */
  lemma DivBelow(j: nat, d: nat, p: nat)
    requires d > 0 && j < p * d
    ensures j / d < p
  {
    assert d * (j / d) <= j;
    MulCancel(d, j / d, p);
  }

  lemma MulCancel(d: int, q: int, p: int)
    requires d > 0 && d * q < d * p
    ensures q < p
  {
  }

  /** Two 2x3 operands: as written, output element 3 (row 1, column 0) reads input element 1. */
  lemma AsWrittenRowMisread()
    ensures ReadIndex([2, 3], BlockSteps([2, 3]), [2, 3], 3) == 1
  {
    AsWrittenReads([2, 3], 3);
  }

  /**
   * The corrected step of a dimension below the last one is the last extent times the
   * product of the extents between them; 0 where the extent is 1 (broadcast).
   */
  lemma ElementStepsScaled(out: seq<int>, align: seq<int>)
    requires |align| == |out| > 0
    requires forall k :: 0 <= k < |out| ==> align[k] == 1 || align[k] == out[k]
    ensures forall k :: 0 <= k < |out| - 1 ==>
              (align[k] == 1 && ElementSteps(align)[k] == 0)
              || (align[k] == out[k]
                  && ElementSteps(align)[k] == align[|out| - 1] * Product(align[k + 1..|out| - 1]))
  {
    var n := |out|;
    forall k | 0 <= k < n - 1
      ensures (align[k] == 1 && ElementSteps(align)[k] == 0)
              || (align[k] == out[k] && ElementSteps(align)[k] == align[n - 1] * Product(align[k + 1..n - 1]))
    {
      assert align[k + 1..] == align[k + 1..n];
      ProductLast(align, k + 1, n);
    }
  }

  /** For an input of the output's shape, the corrected steps are block_size times the strides. */
  lemma SameShapeStepsScaled(s: seq<int>)
    requires |s| > 0
    ensures forall k :: 0 <= k < |s| - 1 ==>
              s[k] == 1 || ElementSteps(s)[k] == s[|s| - 1] * Product(s[k + 1..|s| - 1])
  {
    var n := |s|;
    forall k | 0 <= k < n - 1
      ensures s[k] == 1 || ElementSteps(s)[k] == s[n - 1] * Product(s[k + 1..n - 1])
    {
      assert s[k + 1..] == s[k + 1..n];
      ProductLast(s, k + 1, n);
    }
  }

  /** With the corrected steps, an input of the output's shape is read at the output's index. */
  lemma SameShapeReads(s: seq<int>, j: nat)
    requires |s| > 0 && AllPositive(s)
    requires j < Product(s)
    ensures ReadIndex(s, ElementSteps(s), s, j) == j
  {
    SameShapeStepsScaled(s);
    ScaledReads(s, ElementSteps(s), j);
  }

  /** Steps that are block_size times the strides read every element of s at its own index. */
  lemma ScaledReads(s: seq<int>, steps: seq<int>, j: nat)
    requires |s| > 0 && |steps| == |s| && AllPositive(s) && j < Product(s)
    requires forall k :: 0 <= k < |s| - 1 ==> s[k] == 1 || steps[k] == s[|s| - 1] * Product(s[k + 1..|s| - 1])
    ensures ReadIndex(s, steps, s, j) == j
  {
    var n := |s|;
    var bs := s[n - 1];
    var m1 := n - 1;
    forall k | 0 <= k < m1
      ensures ScaledStepAt(s, steps, m1, bs, k)
    {
    }
    OffScaled(j / bs, s, steps, n - 1, bs);
    var p := BlockIndexBelow(s, j);
    var off := Off(j / bs, s, steps, n - 1);
    assert off == bs * (j / bs);
    assert ReadIndex(s, steps, s, j) == off + (j % bs) * Inner(s);
    Recompose(j, bs, Inner(s));
  }

  /** The block of an element of s is below the number of blocks, so it is its own remainder. */
  lemma BlockIndexBelow(s: seq<int>, j: nat) returns (p: int)
    requires |s| > 0 && AllPositive(s) && j < Product(s)
    ensures p == Product(s[..|s| - 1]) > 0
    ensures (j / s[|s| - 1]) % p == j / s[|s| - 1]
  {
    var n := |s|;
    assert s[..n] == s;
    PrefixProduct(s, n);
    p := Product(s[..n - 1]);
    ProductPositive(s[..n - 1]);
    DivBelow(j, s[n - 1], p);
    DivUnique(j / s[n - 1], p, 0, j / s[n - 1]);
  }

  /** Block times block size plus the position in the block is the element. */
  lemma Recompose(j: nat, bs: int, inner: int)
    requires bs > 0 && (bs == 1 || inner == 1)
    ensures bs * (j / bs) + (j % bs) * inner == j
  {
  }

  /** The input extents agree with the output wherever they are not broadcast. */
  predicate Aligned(out: seq<int>, align: seq<int>)
  {
    |align| == |out| && AllPositive(align) && forall k :: 0 <= k < |out| ==> align[k] == 1 || align[k] == out[k]
  }

  /** With the corrected steps every read stays inside the input's total() elements. */
  lemma ReadsInside(out: seq<int>, align: seq<int>, j: nat)
    requires |out| > 0 && AllPositive(out) && Aligned(out, align)
    ensures 0 <= ReadIndex(out, ElementSteps(align), align, j) < Product(align)
  {
    ElementStepsScaled(out, align);
    BoundedReads(out, align, ElementSteps(align), j);
  }

  /** Broadcast-aware steps scaled by the last aligned extent keep every read inside align. */
  lemma BoundedReads(out: seq<int>, align: seq<int>, steps: seq<int>, j: nat)
    requires |out| > 0 && AllPositive(out) && Aligned(out, align) && |steps| == |out|
    requires forall k :: 0 <= k < |out| - 1 ==>
               (align[k] == 1 && steps[k] == 0)
               || (align[k] == out[k] && steps[k] == align[|out| - 1] * Product(align[k + 1..|out| - 1]))
    ensures 0 <= ReadIndex(out, steps, align, j) < Product(align)
  {
    var n := |out|;
    var a, bs := align[n - 1], out[n - 1];
    var m1 := n - 1;
    forall k | 0 <= k < m1
      ensures StepAt(out, align, steps, m1, a, k)
    {
    }
    OffBound(j / bs, out, align, steps, n - 1, a);
    assert align[..n] == align;
    PrefixProduct(align, n);
    var p := Product(align[..n - 1]);
    var off := Off(j / bs, out, steps, n - 1);
    if a != 1 {
      LastReadBound(off, j % bs, a, p);
    }
  }

  lemma LastReadBound(off: int, r: int, a: int, p: int)
    requires 0 <= off <= a * (p - 1) && 0 <= r <= a - 1
    ensures off + r < p * a
  {
  }

  /** A pointwise broadcast of compatible positive shapes is positive and aligned with both. */
  lemma PointwiseAligned(x: seq<int>, y: seq<int>)
    requires |x| == |y| > 0 && AllPositive(x) && AllPositive(y) && CoreUtils.Compatible(x, y)
    ensures AllPositive(Pointwise(x, y)) && Aligned(Pointwise(x, y), x) && Aligned(Pointwise(x, y), y)
  {
    forall k | 0 <= k < |x|
      ensures CoreUtils.Pairs(x[k], y[k])
    {
      assert CoreUtils.Pairs(x[k], y[k + |y| - |x|]);
    }
  }

  /** Two blocks of a 2x3 output against a 1x3 input: as written, element 3 reads input element 1. */
  lemma AsWrittenRowBroadcast()
    ensures ReadIndex([2, 3], BlockSteps([1, 3]), [1, 3], 3) == 1
  {
    assert BlockSteps([1, 3]) == [1, 1];
  }

  /** A row broadcast over the rows of an m x n output reads column j % n of the row. */
  lemma RowBroadcastReads(m: int, n: int, j: nat)
    requires m > 0 && n > 1
    ensures ReadIndex([m, n], ElementSteps([1, n]), [1, n], j) == j % n
  {
    assert ElementSteps([1, n]) == [0, 1];
  }

  // ---------------------------------------------------------------- BinaryOpHelper

  /** Block bi of block_num blocks of block_size elements ends inside the output. */
  lemma BlockBound(bi: nat, bs: nat, bn: nat)
    requires bi < bn
    ensures bi * bs + bs == (bi + 1) * bs <= bn * bs
  {
    MulMono(bi + 1, bn, bs);
  }

  lemma MulMono(a: nat, b: nat, c: nat)
    requires a <= b
    ensures a * c <= b * c
  {
  }

  /** pos[j] is where output element j reads the input laid out by steps and align. */
  predicate Locates(out: seq<int>, steps: seq<int>, align: seq<int>, pos: seq<int>, j: int)
  {
    Layout(out, steps, align) && 0 <= j < |pos| && pos[j] == ReadIndex(out, steps, align, j)
  }

  /** Element i of block bi is read at the block's offset plus i for an extent that is not 1. */
  lemma ReadAt(out: seq<int>, steps: seq<int>, align: seq<int>, bi: nat, i: nat, pos: nat)
    requires Layout(out, steps, align) && i < out[|out| - 1] && pos == bi * out[|out| - 1] + i
    ensures ReadIndex(out, steps, align, pos)
            == Off(bi, out, steps, |out| - 1) + (if align[|align| - 1] == 1 then 0 else i)
  {
    var d := out[|out| - 1];
    DivUnique(bi * d + i, d, bi, i);
  }

  /** The remainder the k-loop computes as idx - next_idx * shape[k]. */
  lemma Digit(idx: nat, d: int)
    requires d > 0
    ensures idx - (idx / d) * d == idx % d
  {
  }

  /** The last digit of an offset over m + 1 dimensions. */
  lemma OffStep(idx: nat, out: seq<int>, steps: seq<int>, k: nat)
    requires k < |out| && k < |steps| && AllPositive(out)
    ensures Off(idx, out, steps, k + 1) == (idx % out[k]) * steps[k] + Off(idx / out[k], out, steps, k)
  {
  }

  /** block_num and block_size: the product of the leading extents, and the last extent. */
  method BlockView(out: seq<int>) returns (blockNum: nat, blockSize: nat)
    requires |out| > 0 && AllPositive(out)
    ensures blockNum == Product(out[..|out| - 1]) && blockSize == out[|out| - 1]
  {
    var blocks := CoreMat.NewTotal(out[..|out| - 1]);
    ProductPositive(out[..|out| - 1]);
    blockNum := blocks;
    blockSize := out[|out| - 1];
  }

  /**
   * BinaryOpHelper: the aligned input shapes, the output shape, the steps of each and the
   * [block_num x block_size] view of the output, filled in by init.
   */
  class BinaryOpHelper {
    var maxDims: nat
    var align0: seq<int>
    var align1: seq<int>
    var outShape: seq<int>
    var steps0: seq<int>
    var steps1: seq<int>
    var outSteps: seq<int>
    var blockSize: nat
    var blockNum: nat
    var isInit: bool

    /** BinaryOpHelper(): not initialised. */
    constructor ()
      ensures !isInit
    {
      isInit := false;
    }

    /** What init establishes, with the corrected steps. */
    predicate Ready()
      reads this
    {
      && isInit && maxDims > 0 && |outShape| == maxDims
      && Layout(outShape, steps0, align0) && Layout(outShape, steps1, align1)
      && blockSize == outShape[maxDims - 1] && blockNum == Product(outShape[..maxDims - 1])
    }

    /**
     * init(a, b) for operands of equal rank: the broadcast output shape, the steps and the
     * block view; a mismatch is the broadcasting error and leaves the helper uninitialised.
     */
    method Init(s0: seq<int>, s1: seq<int>) returns (ok: bool)
      requires |s0| == |s1| > 0 && AllPositive(s0) && AllPositive(s1)
      modifies this
      ensures ok <==> CoreUtils.Compatible(s0, s1)
      ensures ok ==> Ready() && maxDims == |s0| && align0 == s0 && align1 == s1
                     && outShape == Pointwise(s0, s1) && CoreUtils.Broadcast(s0, s1) == Some(outShape)
                     && outSteps == ElementSteps(outShape)
                     && Aligned(outShape, align0) && Aligned(outShape, align1)
                     && steps0 == ElementSteps(align0) && steps1 == ElementSteps(align1)
      ensures !ok ==> !isInit
    {
      isInit := false;
      var out, a0, a1, compatible := AlignShapes(s0, s1);
      if !compatible {
        return false;
      }
      BroadcastEqualRanks(s0, s1);
      PointwiseAligned(s0, s1);
      Configure(out, a0, a1);
      ok := true;
    }

    /** The fields init sets once the shapes are aligned. */
    method Configure(out: seq<int>, a0: seq<int>, a1: seq<int>)
      requires |out| > 0 && AllPositive(out) && |a0| == |out| && |a1| == |out|
      modifies this
      ensures Ready() && maxDims == |out| && align0 == a0 && align1 == a1 && outShape == out
      ensures steps0 == ElementSteps(a0) && steps1 == ElementSteps(a1) && outSteps == ElementSteps(out)
    {
      var st0 := ElementStepsOf(a0);
      var st1 := ElementStepsOf(a1);
      var sto := ElementStepsOf(out);
      var bn, bs := BlockView(out);
      maxDims, align0, align1, outShape := |out|, a0, a1, out;
      steps0, steps1, outSteps := st0, st1, sto;
      blockNum, blockSize := bn, bs;
      isInit := true;
    }
  }

  /** binary_forward's k-loop: the offsets of block bi in both inputs. */
  method BlockJumps(shape: seq<int>, steps0: seq<int>, steps1: seq<int>, bi: nat) returns (jump0: int, jump1: int)
    requires |shape| > 0 && |steps0| == |shape| && |steps1| == |shape| && AllPositive(shape)
    ensures jump0 == Off(bi, shape, steps0, |shape| - 1)
    ensures jump1 == Off(bi, shape, steps1, |shape| - 1)
  {
    jump0, jump1 := 0, 0;
    var idx: nat := bi;
    var k := |shape| - 2;
    while k >= 0
      invariant -1 <= k <= |shape| - 2
      invariant jump0 + Off(idx, shape, steps0, k + 1) == Off(bi, shape, steps0, |shape| - 1)
      invariant jump1 + Off(idx, shape, steps1, k + 1) == Off(bi, shape, steps1, |shape| - 1)
    {
      var next := idx / shape[k];
      Digit(idx, shape[k]);
      OffStep(idx, shape, steps0, k);
      OffStep(idx, shape, steps1, k);
      var ik := idx - next * shape[k];
      jump0 := jump0 + ik * steps0[k];
      jump1 := jump1 + ik * steps1[k];
      idx := next;
      k := k - 1;
    }
  }

  /**
   * One block of binary_forward: the block_size elements from o = bi * block_size on, read
   * from the block's offsets in each input, stepping by 0 or 1.
   */
  method BlockForward(op: (int, int) -> int, shape: seq<int>, s0: seq<int>, a0: seq<int>, s1: seq<int>, a1: seq<int>,
                      in0: seq<int>, in1: seq<int>, out: array<int>,
                      ghost pos0: seq<int>, ghost pos1: seq<int>, ghost want: seq<int>, bi: nat, o: nat)
    requires Layout(shape, s0, a0) && Layout(shape, s1, a1)
    requires o == bi * shape[|shape| - 1] && o + shape[|shape| - 1] <= out.Length
    requires |pos0| == out.Length && |pos1| == out.Length && |want| == out.Length
    requires forall j :: 0 <= j < out.Length ==> 0 <= pos0[j] < |in0| && 0 <= pos1[j] < |in1|
    requires forall j :: 0 <= j < out.Length ==> Locates(shape, s0, a0, pos0, j)
    requires forall j :: 0 <= j < out.Length ==> Locates(shape, s1, a1, pos1, j)
    requires forall j :: 0 <= j < out.Length ==> want[j] == op(in0[pos0[j]], in1[pos1[j]])
    modifies out
    ensures forall j :: 0 <= j < out.Length ==>
              out[j] == if o <= j < o + shape[|shape| - 1] then want[j] else old(out[j])
  {
    var n := |shape|;
    var bs := shape[n - 1];
    var inner0 := if a0[n - 1] == 1 then 0 else 1;
    var inner1 := if a1[n - 1] == 1 then 0 else 1;
    var jump0, jump1 := BlockJumps(shape, s0, s1, bi);
    var p0, p1 := jump0, jump1;
    var i := 0;
    while i < bs
      invariant 0 <= i <= bs
      invariant p0 == jump0 + (if a0[n - 1] == 1 then 0 else i)
      invariant p1 == jump1 + (if a1[n - 1] == 1 then 0 else i)
      invariant forall j :: 0 <= j < out.Length ==>
                  out[j] == if o <= j < o + i then want[j] else old(out[j])
    {
      assert Locates(shape, s0, a0, pos0, o + i) && Locates(shape, s1, a1, pos1, o + i);
      ReadAt(shape, s0, a0, bi, i, o + i);
      ReadAt(shape, s1, a1, bi, i, o + i);
      out[o + i] := op(in0[p0], in1[p1]);
      i, p0, p1 := i + 1, p0 + inner0, p1 + inner1;
    }
  }

  /**
   * binary_forward(op, helper, inp0, inp1, out): output element bi * block_size + i is op
   * of the elements the steps locate in each input; op is any element function.
   */
  method BinaryForward(op: (int, int) -> int, helper: BinaryOpHelper, in0: seq<int>, in1: seq<int>, out: array<int>,
                       ghost pos0: seq<int>, ghost pos1: seq<int>)
    requires helper.Ready()
    requires out.Length == helper.blockNum * helper.blockSize && |pos0| == out.Length && |pos1| == out.Length
    requires forall j :: 0 <= j < out.Length ==> 0 <= pos0[j] < |in0| && 0 <= pos1[j] < |in1|
    requires forall j :: 0 <= j < out.Length ==> Locates(helper.outShape, helper.steps0, helper.align0, pos0, j)
    requires forall j :: 0 <= j < out.Length ==> Locates(helper.outShape, helper.steps1, helper.align1, pos1, j)
    modifies out
    ensures forall j :: 0 <= j < out.Length ==> out[j] == op(in0[pos0[j]], in1[pos1[j]])
  {
    var shape, s0, a0, s1, a1 := helper.outShape, helper.steps0, helper.align0, helper.steps1, helper.align1;
    var n, bs := |shape|, helper.blockSize;
    var totalNum := CoreMat.NewTotal(shape);
    assert shape[..n] == shape;
    PrefixProduct(shape, n);
    MulMod(helper.blockNum, bs);
    var bn := totalNum / bs;
    ghost var want := seq(out.Length, j requires 0 <= j < out.Length => op(in0[pos0[j]], in1[pos1[j]]));
    var bi := 0;
    while bi < bn
      invariant 0 <= bi <= bn && bi * bs <= out.Length
      invariant forall j :: 0 <= j < bi * bs ==> out[j] == want[j]
    {
      BlockBound(bi, bs, bn);
      BlockForward(op, shape, s0, a0, s1, a1, in0, in1, out, pos0, pos1, want, bi, bi * bs);
      bi := bi + 1;
    }
  }

  // ---------------------------------------------------------------- binaryFunc

  /** The ops whose lambda is defined on every pair of integer elements. */
  predicate TotalOp(op: BinaryOp)
  {
    op != POW && op != BITSHIFT && op != MOD && op != DIV
  }

  /** The kernel's element function: op's lambda on two elements (0 where it is undefined). */
  function Element(op: BinaryOp, k: Kind, x: int, y: int): int
  {
    if k == F32 then 0 else match Apply(op, k, x, y) case Some(v) => v case None => 0
  }

  /** What binaryFunc needs of its operands: both non-empty and of the same rank. */
  predicate Operands(a: Operand, b: Operand)
  {
    && WellFormed(a) && WellFormed(b)
    && |a.sizes| == |b.sizes| > 0 && AllPositive(a.sizes) && AllPositive(b.sizes)
  }

  /** With the corrected steps, the element of an aligned input output element j reads. */
  function BroadcastRead(out: seq<int>, align: seq<int>, j: nat): (r: nat)
    requires |out| > 0 && AllPositive(out) && Aligned(out, align)
    ensures r < Product(align)
  {
    ReadsInside(out, align, j);
    ReadIndex(out, ElementSteps(align), align, j)
  }

  /** The elements of op(a, b) over the broadcast shape. */
  function BinaryElements(op: BinaryOp, k: Kind, a: Operand, b: Operand): (r: seq<int>)
    requires k != F32 && TotalOp(op) && Operands(a, b) && CoreUtils.Compatible(a.sizes, b.sizes)
    ensures |r| == Product(Pointwise(a.sizes, b.sizes))
  {
    var out := Pointwise(a.sizes, b.sizes);
    PointwiseAligned(a.sizes, b.sizes);
    ProductPositive(out);
    seq(Product(out), j requires 0 <= j < Product(out) =>
      Apply(op, k, a.data[BroadcastRead(out, a.sizes, j)], b.data[BroadcastRead(out, b.sizes, j)]).value)
  }

  /**
   * binaryFunc(op, a, b, c): the broadcasting error first, then c is created with the
   * output shape and a's type, and the type dispatch runs the kernel or fails.
   */
  function BinaryResult(op: BinaryOp, a: Operand, b: Operand): Result<Operand, Failure>
    requires a.matType == b.matType && a.matType != DT_32F && TotalOp(op) && Operands(a, b)
  {
    if !CoreUtils.Compatible(a.sizes, b.sizes) then Err(BroadcastMismatch)
    else match Dispatch(a.matType, op)
      case Err(e) => Err(e)
      case Ok(k) => Ok(Operand(a.matType, Pointwise(a.sizes, b.sizes), BinaryElements(op, k, a, b)))
  }

  /** Operands of one shape are combined element by element into that shape. */
  lemma BinaryElementwise(op: BinaryOp, k: Kind, a: Operand, b: Operand)
    requires k != F32 && TotalOp(op) && Operands(a, b) && a.sizes == b.sizes
    ensures CoreUtils.Compatible(a.sizes, b.sizes) && Pointwise(a.sizes, b.sizes) == a.sizes
    ensures |BinaryElements(op, k, a, b)| == |a.data|
    ensures forall j :: 0 <= j < |a.data| ==> BinaryElements(op, k, a, b)[j] == Apply(op, k, a.data[j], b.data[j]).value
  {
    assert Pointwise(a.sizes, b.sizes) == a.sizes;
    forall j | 0 <= j < |a.data|
      ensures BinaryElements(op, k, a, b)[j] == Apply(op, k, a.data[j], b.data[j]).value
    {
      SameShapeReads(a.sizes, j);
    }
  }

  /** block_num * block_size elements cover the output shape. */
  lemma BlockLength(s: seq<int>)
    requires |s| > 0
    ensures Product(s[..|s| - 1]) * s[|s| - 1] == Product(s)
  {
    assert s[..|s|] == s;
    PrefixProduct(s, |s|);
  }

  /** With the corrected steps, where each of n output elements reads an aligned input. */
  function Reads(out: seq<int>, align: seq<int>, n: nat): (r: seq<int>)
    requires |out| > 0 && AllPositive(out) && Aligned(out, align)
    ensures |r| == n && forall j :: 0 <= j < n ==> 0 <= r[j] < Product(align)
  {
    seq(n, j requires 0 <= j < n => BroadcastRead(out, align, j))
  }

  /** The reads are the positions the kernel's corrected steps locate. */
  lemma ReadsLocate(out: seq<int>, align: seq<int>, n: nat)
    requires |out| > 0 && AllPositive(out) && Aligned(out, align)
    ensures forall j :: 0 <= j < n ==> Locates(out, ElementSteps(align), align, Reads(out, align, n), j)
  {
  }

  /** The kernel run with op's element function fills in exactly the elements of op(a, b). */
  lemma KernelResult(op: BinaryOp, k: Kind, a: Operand, b: Operand, f: (int, int) -> int, got: seq<int>)
    requires k != F32 && TotalOp(op) && Operands(a, b) && CoreUtils.Compatible(a.sizes, b.sizes)
    requires AllPositive(Pointwise(a.sizes, b.sizes))
    requires Aligned(Pointwise(a.sizes, b.sizes), a.sizes) && Aligned(Pointwise(a.sizes, b.sizes), b.sizes)
    requires forall x: int, y: int :: f(x, y) == Element(op, k, x, y)
    requires |got| == Product(Pointwise(a.sizes, b.sizes))
    requires forall j :: 0 <= j < |got| ==>
               got[j] == f(a.data[Reads(Pointwise(a.sizes, b.sizes), a.sizes, |got|)[j]],
                           b.data[Reads(Pointwise(a.sizes, b.sizes), b.sizes, |got|)[j]])
    ensures got == BinaryElements(op, k, a, b)
  {
  }

  /** c = Mat(out_shape, type), filled in by binary_forward with the element function f. */
  method Kernel(helper: BinaryOpHelper, f: (int, int) -> int, in0: seq<int>, in1: seq<int>,
                ghost pos0: seq<int>, ghost pos1: seq<int>) returns (data: seq<int>)
    requires helper.Ready() && |pos0| == Product(helper.outShape) && |pos1| == Product(helper.outShape)
    requires forall j :: 0 <= j < |pos0| ==> 0 <= pos0[j] < |in0| && 0 <= pos1[j] < |in1|
    requires forall j :: 0 <= j < |pos0| ==> Locates(helper.outShape, helper.steps0, helper.align0, pos0, j)
    requires forall j :: 0 <= j < |pos0| ==> Locates(helper.outShape, helper.steps1, helper.align1, pos1, j)
    ensures |data| == |pos0|
    ensures forall j :: 0 <= j < |data| ==> data[j] == f(in0[pos0[j]], in1[pos1[j]])
  {
    BlockLength(helper.outShape);
    var total := CoreMat.NewTotal(helper.outShape);
    ProductPositive(helper.outShape);
    var out := new int[total];
    BinaryForward(f, helper, in0, in1, out, pos0, pos1);
    data := out[..];
  }

  /** The kernel run on the broadcast shape with op's element function. */
  method RunKernel(helper: BinaryOpHelper, op: BinaryOp, k: Kind, a: Operand, b: Operand) returns (data: seq<int>)
    requires k != F32 && TotalOp(op) && Operands(a, b) && CoreUtils.Compatible(a.sizes, b.sizes)
    requires helper.Ready() && helper.outShape == Pointwise(a.sizes, b.sizes)
    requires helper.align0 == a.sizes && helper.align1 == b.sizes
    requires Aligned(helper.outShape, a.sizes) && Aligned(helper.outShape, b.sizes)
    requires helper.steps0 == ElementSteps(a.sizes) && helper.steps1 == ElementSteps(b.sizes)
    ensures data == BinaryElements(op, k, a, b)
  {
    var shape := helper.outShape;
    var n := Product(shape);
    ProductPositive(shape);
    ghost var pos0, pos1 := Reads(shape, a.sizes, n), Reads(shape, b.sizes, n);
    ReadsLocate(shape, a.sizes, n);
    ReadsLocate(shape, b.sizes, n);
    var f := (x: int, y: int) => Element(op, k, x, y);
    data := Kernel(helper, f, a.data, b.data, pos0, pos1);
    KernelResult(op, k, a, b, f, data);
  }

  /** binaryFunc(op, a, b, c): the helper is initialised, then the type dispatch runs the kernel. */
  method BinaryFunc(op: BinaryOp, a: Operand, b: Operand) returns (r: Result<Operand, Failure>)
    requires a.matType == b.matType && a.matType != DT_32F && TotalOp(op) && Operands(a, b)
    ensures r == BinaryResult(op, a, b)
  {
    var helper := new BinaryOpHelper();
    var ok := helper.Init(a.sizes, b.sizes);
    if !ok {
      return Err(BroadcastMismatch);
    }
    var k :- Dispatch(a.matType, op);
    var data := RunKernel(helper, op, k, a, b);
    return Ok(Operand(a.matType, helper.outShape, data));
  }

  // ---------------------------------------------------------------- add, subtract, multiply

  /** add(a, b, c). */
  method Add(a: Operand, b: Operand) returns (r: Result<Operand, Failure>)
    requires a.matType == b.matType && a.matType != DT_32F && Operands(a, b)
    ensures r == BinaryResult(ADD, a, b)
  {
    r := BinaryFunc(ADD, a, b);
  }

  /** multiply(a, b, c). */
  method Multiply(a: Operand, b: Operand) returns (r: Result<Operand, Failure>)
    requires a.matType == b.matType && a.matType != DT_32F && Operands(a, b)
    ensures r == BinaryResult(MUL, a, b)
  {
    r := BinaryFunc(MUL, a, b);
  }

  /** subtract(a, b, c): an empty a and a non-empty b make c = -b; otherwise binaryFunc(SUB). */
  method Subtract(a: Operand, b: Operand, c: Operand, contents: seq<int>) returns (r: Result<Operand, Failure>)
    requires WellFormed(b) && WellFormed(c)
    requires Empty(a) && !Empty(b) ==> |contents| == |b.data|
    requires !(Empty(a) && !Empty(b)) ==> a.matType == b.matType && a.matType != DT_32F && Operands(a, b)
    ensures Empty(a) && !Empty(b) ==> r == Negation(b, c, contents)
    ensures !(Empty(a) && !Empty(b)) ==> r == BinaryResult(SUB, a, b)
  {
    if Empty(a) && !Empty(b) {
      r := SubtractUnary(b, c, contents);
      return;
    }
    r := BinaryFunc(SUB, a, b);
  }

  /** Subtracting b from a of one int32 shape, then adding b back, gives a. */
  lemma SubtractThenAdd(a: Operand, b: Operand)
    requires a.matType == b.matType == DT_32S && Operands(a, b) && a.sizes == b.sizes
    requires forall i :: 0 <= i < |a.data| ==> InRange(Int, a.data[i])
    ensures BinaryResult(SUB, a, b).Ok?
    ensures var d := BinaryResult(SUB, a, b).value;
            Operands(d, b) && BinaryResult(ADD, d, b) == Ok(a)
  {
    BinaryElementwise(SUB, S32, a, b);
    var d := BinaryResult(SUB, a, b).value;
    BinaryElementwise(ADD, S32, d, b);
    var e := BinaryResult(ADD, d, b).value;
    SubThenAddAll(a.data, b.data, d.data, e.data);
  }

  /** Element by element, int32 subtraction then addition of the same values gives back x. */
  lemma SubThenAddAll(x: seq<int>, y: seq<int>, d: seq<int>, e: seq<int>)
    requires |y| == |x| && |d| == |x| && |e| == |x|
    requires forall i :: 0 <= i < |x| ==> InRange(Int, x[i])
    requires forall i :: 0 <= i < |x| ==> d[i] == Apply(SUB, S32, x[i], y[i]).value
    requires forall i :: 0 <= i < |x| ==> e[i] == Apply(ADD, S32, d[i], y[i]).value
    ensures e == x
  {
    forall i | 0 <= i < |x|
      ensures e[i] == x[i]
    {
      SubThenAdd(S32, x[i], y[i]);
    }
  }
}
