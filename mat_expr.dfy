/**
 * Matrix expressions (src/core/mat_expr.cpp): the operators that build a MatExpr from Mats
 * and other expressions, the folding rules of MatOp::add, subtract, multiply and divide, and
 * the assign of each MatOp, which picks the basic operation that evaluates an expression.
 *
 * A Mat is a value (BasicOp.Operand).  The coefficients alpha and beta are doubles in the
 * source; every expression the operators build has coefficients 1, -1 or 0, so they are
 * integers here.  The meaning of an expression is stated over exact integers, element by
 * element; the wrap-around of the int32 kernels is in module BasicOp.
 */
module MatExpression {
  import opened Wrappers
  import opened Define
  import opened Shape
  import opened BasicOp

  // ---------------------------------------------------------------- expressions

  /** The MatOp an expression points to: g_MatOp_Identity, _AddEx, _Bin or _Cmp. */
  datatype OpKind = IdentityOp | AddExOp | BinOp | CmpOp

  /** MatExpr: op, flags (the operator character of a Bin), the Mats a, b, c, alpha and beta. */
  datatype MatExpr = MatExpr(op: OpKind, flags: int, a: Operand, b: Operand, c: Operand, alpha: int, beta: int)

  /** Mat(): no dimensions and no data, type DT_32F. */
  const NoMat: Operand := Operand(DT_32F, [], [])

  const MUL_FLAG: int := '*' as int
  const DIV_FLAG: int := '/' as int
  const M_CMP_EQ: int := 0

  /** A Mat whose data pointer is set: it has elements. */
  predicate HasData(m: Operand)
  {
    !Empty(m)
  }

  /** MatExpr(m), and MatOp_Identity::makeExpr: alpha 1, beta 0. */
  function Identity(m: Operand): MatExpr
  {
    MatExpr(IdentityOp, 0, m, NoMat, NoMat, 1, 0)
  }

  /** MatOp_AddEx::makeExpr(res, a, b, alpha, beta): alpha * a + beta * b. */
  function AddEx(a: Operand, b: Operand, alpha: int, beta: int): MatExpr
  {
    MatExpr(AddExOp, 0, a, b, NoMat, alpha, beta)
  }

  /** MatOp_Bin::makeExpr(res, op, a, b): the constructor's default alpha = beta = 1. */
  function Bin(flag: int, a: Operand, b: Operand): MatExpr
  {
    MatExpr(BinOp, flag, a, b, NoMat, 1, 1)
  }

  /** MatOp_Cmp::makeExpr(res, cmpop, a, b). */
  function Cmp(cmpop: int, a: Operand, b: Operand): MatExpr
  {
    MatExpr(CmpOp, cmpop, a, b, NoMat, 1, 1)
  }

  predicate IsAddEx(e: MatExpr)
  {
    e.op == AddExOp
  }

  predicate IsBin(e: MatExpr, flag: int)
  {
    e.op == BinOp && e.flags == flag
  }

  /** isReciprocal: a division with no b, or with beta 0. */
  predicate IsReciprocal(e: MatExpr)
  {
    IsBin(e, DIV_FLAG) && (!HasData(e.b) || e.beta == 0)
  }

  /** The operands add and subtract take apart: an AddEx whose b has no data or weight 0. */
  predicate Foldable(e: MatExpr)
  {
    IsAddEx(e) && (!HasData(e.b) || e.beta == 0)
  }

  // ---------------------------------------------------------------- MatOp::type

  /**
   * MatOp::type as written: a's type when a has elements, else b's type when b is EMPTY,
   * else c's type.
   */
  function TypeAsWritten(e: MatExpr): nat
  {
    if !Empty(e.a) then e.a.matType else if Empty(e.b) then e.b.matType else e.c.matType
  }

  /** The element type of an expression: that of the first of a, b and c with elements. */
  function ExprType(e: MatExpr): (t: nat)
    ensures HasData(e.a) ==> t == e.a.matType
    ensures !HasData(e.a) && HasData(e.b) ==> t == e.b.matType
  {
    if !Empty(e.a) then e.a.matType else if !Empty(e.b) then e.b.matType else e.c.matType
  }

  /**
   * The written test reports c's type when only b has elements: -x for an int32
   * expression x builds AddEx(Mat(), x, 1, -1), whose type reads as DT_32F.
   */
  lemma TypeAsWrittenMisreads()
    ensures var x := Operand(DT_32S, [2], [4, -1]);
            var e := AddEx(NoMat, x, 1, -1);
            TypeAsWritten(e) == DT_32F && ExprType(e) == DT_32S
  {
    assert Product([2]) == 2;
  }

  /** With an empty a the written test swaps the b and c branches: it agrees only where their types do. */
  lemma TypeAsWrittenAgrees(e: MatExpr)
    ensures TypeAsWritten(e) == ExprType(e) <==> HasData(e.a) || e.b.matType == e.c.matType
  {
  }

  // ---------------------------------------------------------------- meaning

  /** A Mat whose elements can be combined: well formed and not empty. */
  predicate Valued(m: Operand)
  {
    WellFormed(m) && !Empty(m)
  }

  /** Two Mats the element-wise operations accept: same type, same extents, both with elements. */
  predicate Conform(x: Operand, y: Operand)
  {
    Valued(x) && Valued(y) && x.matType == y.matType && x.sizes == y.sizes
  }

  /** alpha * x[i] + beta * y[i], element by element. */
  function Linear(alpha: int, x: seq<int>, beta: int, y: seq<int>): (r: seq<int>)
    requires |x| == |y|
    ensures |r| == |x| && forall i :: 0 <= i < |x| ==> r[i] == alpha * x[i] + beta * y[i]
  {
    seq(|x|, i requires 0 <= i < |x| => alpha * x[i] + beta * y[i])
  }

  /** alpha * x[i], element by element. */
  function Scaled(alpha: int, x: seq<int>): (r: seq<int>)
    ensures |r| == |x| && forall i :: 0 <= i < |x| ==> r[i] == alpha * x[i]
  {
    seq(|x|, i requires 0 <= i < |x| => alpha * x[i])
  }

  /** x[i] * y[i], element by element. */
  function Products(x: seq<int>, y: seq<int>): (r: seq<int>)
    requires |x| == |y|
    ensures |r| == |x| && forall i :: 0 <= i < |x| ==> r[i] == x[i] * y[i]
  {
    seq(|x|, i requires 0 <= i < |x| => x[i] * y[i])
  }

  predicate NonZero(y: seq<int>)
  {
    forall i :: 0 <= i < |y| ==> y[i] != 0
  }

  /** x[i] / y[i] as C++ divides integers, element by element. */
  function Quotients(x: seq<int>, y: seq<int>): (r: seq<int>)
    requires |x| == |y| && NonZero(y)
    ensures |r| == |x| && forall i :: 0 <= i < |x| ==> r[i] == TruncDiv(x[i], y[i])
  {
    seq(|x|, i requires 0 <= i < |x| => TruncDiv(x[i], y[i]))
  }

  /** A Mat of x's type and extents holding the elements s. */
  function Like(x: Operand, s: seq<int>): Operand
  {
    Operand(x.matType, x.sizes, s)
  }

  /**
   * What an expression stands for: a itself; alpha * a + beta * b (alpha * a without b);
   * a * b; a / b for a division by a b without zeros.  None for operands the element-wise
   * operations refuse, for a reciprocal and for a comparison.
   */
  function Meaning(e: MatExpr): (r: Option<Operand>)
    ensures r.Some? ==> Valued(r.value) && r.value.matType == e.a.matType && r.value.sizes == e.a.sizes
  {
    match e.op
    case IdentityOp => if Valued(e.a) then Some(e.a) else None
    case AddExOp =>
      if HasData(e.b) then
        if Conform(e.a, e.b) then Some(Like(e.a, Linear(e.alpha, e.a.data, e.beta, e.b.data))) else None
      else if Valued(e.a) then Some(Like(e.a, Scaled(e.alpha, e.a.data)))
      else None
    case BinOp =>
      if !Conform(e.a, e.b) || IsReciprocal(e) then None
      else if e.flags == MUL_FLAG then Some(Like(e.a, Products(e.a.data, e.b.data)))
      else if e.flags == DIV_FLAG && NonZero(e.b.data) then Some(Like(e.a, Quotients(e.a.data, e.b.data)))
      else None
    case CmpOp => None
  }

  // ---------------------------------------------------------------- assign

  /** Where assign writes: into m, or into a local temp when m's requested type differs. */
  datatype Target = IntoM | IntoTemp

  /** The basic operation an assign calls (module BasicOp models them on buffers). */
  datatype Call =
    | Share(x: Operand)
    | AddCall(x: Operand, y: Operand)
    | SubCall(x: Operand, y: Operand)
    | Weighted(x: Operand, alpha: int, y: Operand, beta: int)
    | NegCall(x: Operand)
    | MulCall(x: Operand, y: Operand)
    | DivCall(x: Operand, y: Operand)

  /** What assign does: one call into a target, nothing (MatOp_Cmp), or an assert. */
  datatype Assignment = Writes(target: Target, call: Call) | Leaves | Rejected

  /** `_type == -1 || e.a.type() == _type ? m : temp`. */
  function TargetOf(e: MatExpr, t: int): Target
  {
    if t == -1 || e.a.matType == t then IntoM else IntoTemp
  }

  /**
   * The element-wise result of a call, over exact integers; None where the operation refuses
   * its operands.  subtract(a, b) with an empty a and a non-empty b negates b.
   */
  function Run(c: Call): (r: Option<Operand>)
    ensures r.Some? && !c.Share? ==> Valued(r.value)
  {
    match c
    case Share(x) => Some(x)
    case AddCall(x, y) => if Conform(x, y) then Some(Like(x, Linear(1, x.data, 1, y.data))) else None
    case SubCall(x, y) =>
      if Empty(x) && Valued(y) then Some(Like(y, Scaled(-1, y.data)))
      else if Conform(x, y) then Some(Like(x, Linear(1, x.data, -1, y.data))) else None
    case Weighted(x, alpha, y, beta) => if Conform(x, y) then Some(Like(x, Linear(alpha, x.data, beta, y.data))) else None
    case NegCall(x) => if Valued(x) then Some(Like(x, Scaled(-1, x.data))) else None
    case MulCall(x, y) => if Conform(x, y) then Some(Like(x, Products(x.data, y.data))) else None
    case DivCall(x, y) => if Conform(x, y) && NonZero(y.data) then Some(Like(x, Quotients(x.data, y.data))) else None
  }

  /**
   * MatOp_AddEx::assign as written: with a b, beta 1 calls add(a, b) and beta -1 calls
   * subtract(a, b), whatever alpha is; any other beta calls addWeighted.  Without a b, alpha
   * 1 shares a, alpha -1 negates it, and any other alpha asserts.
   */
  function AddExAsWritten(e: MatExpr, t: int): (r: Assignment)
    ensures r.Writes? ==> (r.target == IntoM <==> t == -1 || t == e.a.matType)
    ensures r == Rejected <==> !HasData(e.b) && e.alpha != 1 && e.alpha != -1
  {
    var dst := TargetOf(e, t);
    if HasData(e.b) then
      if e.beta == 1 then Writes(dst, AddCall(e.a, e.b))
      else if e.beta == -1 then Writes(dst, SubCall(e.a, e.b))
      else Writes(dst, Weighted(e.a, e.alpha, e.b, e.beta))
    else if e.alpha == 1 then Writes(dst, Share(e.a))
    else if e.alpha == -1 then Writes(dst, NegCall(e.a))
    else Rejected
  }

  /** MatOp_AddEx::assign as intended: add and subtract only when alpha is 1, else addWeighted. */
  function AddExAssign(e: MatExpr, t: int): Assignment
  {
    var dst := TargetOf(e, t);
    if HasData(e.b) then
      if e.alpha == 1 && e.beta == 1 then Writes(dst, AddCall(e.a, e.b))
      else if e.alpha == 1 && e.beta == -1 then Writes(dst, SubCall(e.a, e.b))
      else Writes(dst, Weighted(e.a, e.alpha, e.b, e.beta))
    else if e.alpha == 1 then Writes(dst, Share(e.a))
    else if e.alpha == -1 then Writes(dst, NegCall(e.a))
    else Rejected
  }

  /**
   * The assign of the other ops: Identity shares a when no other type is asked for, and
   * asserts otherwise; Bin multiplies for '*', divides for '/' with a b, and asserts
   * otherwise; Cmp does nothing.
   */
  function OtherAssign(e: MatExpr, t: int): Assignment
    requires !IsAddEx(e)
  {
    match e.op
    case IdentityOp => if t == -1 || t == e.a.matType then Writes(IntoM, Share(e.a)) else Rejected
    case BinOp =>
      if e.flags == MUL_FLAG then Writes(TargetOf(e, t), MulCall(e.a, e.b))
      else if e.flags == DIV_FLAG && HasData(e.b) then Writes(TargetOf(e, t), DivCall(e.a, e.b))
      else Rejected
    case CmpOp => Leaves
  }

  /** expr.op->assign(expr, m, t), with AddEx's assign as written. */
  function AssignAsWritten(e: MatExpr, t: int): Assignment
  {
    if IsAddEx(e) then AddExAsWritten(e, t) else OtherAssign(e, t)
  }

  /**
   * expr.op->assign(expr, m, t), with AddEx's assign as intended: it writes into m exactly
   * when no type or a's type is asked for, and a comparison writes nothing.
   */
  function Assign(e: MatExpr, t: int): (r: Assignment)
    ensures r.Writes? ==> (r.target == IntoM <==> t == -1 || t == e.a.matType)
    ensures r == Leaves <==> e.op == CmpOp
  {
    if IsAddEx(e) then AddExAssign(e, t) else OtherAssign(e, t)
  }

  /** The expressions whose assign asserts although they have a meaning: alpha * a without b. */
  predicate ScaledOnly(e: MatExpr)
  {
    IsAddEx(e) && !HasData(e.b) && e.alpha != 1 && e.alpha != -1
  }

  /**
   * Assigning an expression with a meaning into m computes that meaning, except that
   * alpha * a alone (alpha other than 1 and -1) is refused.
   */
  lemma AssignComputesMeaning(e: MatExpr)
    requires Meaning(e).Some?
    ensures Assign(e, -1) == Rejected <==> ScaledOnly(e)
    ensures !ScaledOnly(e) ==> Assign(e, -1).Writes? && Assign(e, -1).target == IntoM
                               && Run(Assign(e, -1).call) == Meaning(e)
  {
    var m := Meaning(e).value;
    if IsAddEx(e) && HasData(e.b) && e.alpha == 1 && e.beta == 1 {
      assert Linear(1, e.a.data, 1, e.b.data) == Linear(e.alpha, e.a.data, e.beta, e.b.data);
    } else if IsAddEx(e) && HasData(e.b) && e.alpha == 1 && e.beta == -1 {
      assert Linear(1, e.a.data, -1, e.b.data) == Linear(e.alpha, e.a.data, e.beta, e.b.data);
    } else if IsAddEx(e) && !HasData(e.b) && e.alpha == 1 {
      assert Scaled(1, e.a.data) == e.a.data;
    }
  }

  /**
   * With a type other than -1 and other than a's, AddEx and Bin write into a local temp: m is
   * left as it was.
   */
  lemma AssignOtherTypeLeavesM(e: MatExpr, t: int)
    requires (IsAddEx(e) || e.op == BinOp) && t != -1 && t != e.a.matType
    ensures Assign(e, t).Writes? ==> Assign(e, t).target == IntoTemp
    ensures AssignAsWritten(e, t).Writes? ==> AssignAsWritten(e, t).target == IntoTemp
  {
  }

  /**
   * The written AddEx assign agrees with the intended one except for an expression with a b,
   * beta 1 or -1 and alpha other than 1.
   */
  lemma AssignAsWrittenAgrees(e: MatExpr, t: int)
    ensures AssignAsWritten(e, t) == Assign(e, t) <==>
              !(IsAddEx(e) && HasData(e.b) && e.alpha != 1 && (e.beta == 1 || e.beta == -1))
  {
  }

  /** The two Mats of the example below: [1, 2] and [5, 7] of type DT_32S. */
  function ExampleA(): Operand { Operand(DT_32S, [2], [1, 2]) }
  function ExampleB(): Operand { Operand(DT_32S, [2], [5, 7]) }

  /**
   * (-a) + b folds into AddEx(a, b, -1, 1), and the written assign then calls add(a, b):
   * for a = [1, 2], b = [5, 7] it gives [6, 9] where the expression means [4, 5].
   */
  lemma AddExAsWrittenIgnoresAlpha()
    ensures var a, b := ExampleA(), ExampleB();
            var e := Add(Negative(a).value, Identity(b), NoMat, b);
            && e == AddEx(a, b, -1, 1)
            && AssignAsWritten(e, -1) == Writes(IntoM, AddCall(a, b))
            && Run(AssignAsWritten(e, -1).call) == Some(Operand(DT_32S, [2], [6, 9]))
            && Meaning(e) == Some(Operand(DT_32S, [2], [4, 5]))
            && Run(Assign(e, -1).call) == Meaning(e)
  {
    var a, b := ExampleA(), ExampleB();
    assert Product([2]) == 2;
    assert Valued(a) && Valued(b);
    assert Linear(1, a.data, 1, b.data) == [6, 9];
    assert Linear(-1, a.data, 1, b.data) == [4, 5];
  }

  /** m is the Mat assigning e into a fresh Mat writes (the corrected assign). */
  predicate Evaluates(e: MatExpr, m: Operand)
  {
    var s := Assign(e, -1);
    s.Writes? && s.target == IntoM && Run(s.call) == Some(m)
  }

  /** A Mat as an expression is evaluated to itself. */
  lemma IdentityEvaluates(m: Operand)
    ensures Evaluates(Identity(m), m)
    ensures Valued(m) <==> Meaning(Identity(m)) == Some(m)
  {
  }

  // ---------------------------------------------------------------- MatOp::add, subtract

  /** Two meanings of one type and one shape. */
  predicate SameShape(x: Operand, y: Operand)
  {
    x.matType == y.matType && x.sizes == y.sizes
  }

  /**
   * The operands of an add or a subtract have meanings of one type and shape, and each that
   * is not folded in is assigned: m1, m2 are what assigning e1, e2 writes.
   */
  predicate Summable(e1: MatExpr, e2: MatExpr, m1: Operand, m2: Operand)
  {
    && Meaning(e1).Some? && Meaning(e2).Some? && SameShape(Meaning(e1).value, Meaning(e2).value)
    && (!Foldable(e1) ==> Evaluates(e1, m1))
    && (!Foldable(e2) ==> Evaluates(e2, m2))
  }

  /**
   * MatOp::add(e1, e2, res).  Every op inherits MatOp::add, so e1's op hands the call to
   * e2's op, which folds: an operand that is an AddEx without a weighted b contributes its a
   * and its alpha; any other is assigned (m1, m2 are the Mats that writes) with weight 1.
   * The fold stands for the sum of what e1 and e2 stand for.
   */
  function Add(e1: MatExpr, e2: MatExpr, m1: Operand, m2: Operand): (r: MatExpr)
    ensures IsAddEx(r)
    ensures Summable(e1, e2, m1, m2) ==>
              var u, v := Meaning(e1).value, Meaning(e2).value;
              Meaning(r) == Some(Like(u, Linear(1, u.data, 1, v.data)))
  {
    var x := if Foldable(e1) then e1.a else m1;
    var alpha := if Foldable(e1) then e1.alpha else 1;
    var y := if Foldable(e2) then e2.a else m2;
    var beta := if Foldable(e2) then e2.alpha else 1;
    if Summable(e1, e2, m1, m2) then
      Term(e1, m1);
      Term(e2, m2);
      var u, v := Meaning(e1).value, Meaning(e2).value;
      assert Linear(alpha, x.data, beta, y.data) == Linear(1, u.data, 1, v.data);
      AddEx(x, y, alpha, beta)
    else
      AddEx(x, y, alpha, beta)
  }

  /**
   * MatOp::subtract(e1, e2, res): the same fold, with e2's weight negated (-1 when
   * assigned).  It stands for the difference of what e1 and e2 stand for.
   */
  function Subtract(e1: MatExpr, e2: MatExpr, m1: Operand, m2: Operand): (r: MatExpr)
    ensures IsAddEx(r)
    ensures Summable(e1, e2, m1, m2) ==>
              var u, v := Meaning(e1).value, Meaning(e2).value;
              Meaning(r) == Some(Like(u, Linear(1, u.data, -1, v.data)))
  {
    var x := if Foldable(e1) then e1.a else m1;
    var alpha := if Foldable(e1) then e1.alpha else 1;
    var y := if Foldable(e2) then e2.a else m2;
    var beta := if Foldable(e2) then -e2.alpha else -1;
    if Summable(e1, e2, m1, m2) then
      Term(e1, m1);
      Term(e2, m2);
      var u, v := Meaning(e1).value, Meaning(e2).value;
      LinearOfTerms(alpha, x.data, -beta, y.data, u.data, v.data);
      AddEx(x, y, alpha, beta)
    else
      AddEx(x, y, alpha, beta)
  }

  /** An operand folded in or assigned: its term is weight times Mat, with that product its meaning. */
  lemma Term(e: MatExpr, m: Operand)
    requires Meaning(e).Some? && (!Foldable(e) ==> Evaluates(e, m))
    ensures var x := if Foldable(e) then e.a else m;
            var w := if Foldable(e) then e.alpha else 1;
            Valued(x) && SameShape(x, Meaning(e).value) && Scaled(w, x.data) == Meaning(e).value.data
  {
    if Foldable(e) {
      if HasData(e.b) {
        assert Linear(e.alpha, e.a.data, e.beta, e.b.data) == Scaled(e.alpha, e.a.data);
      }
    } else {
      AssignComputesMeaning(e);
      assert Scaled(1, m.data) == m.data;
    }
  }

  /** Weighted terms x, y with those weights' products u, v: alpha x - w y is u - v. */
  lemma LinearOfTerms(alpha: int, x: seq<int>, w: int, y: seq<int>, u: seq<int>, v: seq<int>)
    requires |x| == |y| && Scaled(alpha, x) == u && Scaled(w, y) == v
    ensures Linear(alpha, x, -w, y) == Linear(1, u, -1, v)
  {
    forall i | 0 <= i < |x|
      ensures alpha * x[i] + (-w) * y[i] == 1 * u[i] + (-1) * v[i]
    {
      assert u[i] == alpha * x[i] && v[i] == w * y[i];
    }
  }

  // ---------------------------------------------------------------- MatOp::multiply, divide

  /**
   * Operands of a product or quotient with meanings of one type and shape, both assigned:
   * m1, m2 are what assigning e1, e2 writes.
   */
  predicate Multipliable(e1: MatExpr, e2: MatExpr, m1: Operand, m2: Operand)
  {
    && Meaning(e1).Some? && Meaning(e2).Some? && SameShape(Meaning(e1).value, Meaning(e2).value)
    && Evaluates(e1, m1) && Evaluates(e2, m2)
  }

  /**
   * MatOp::multiply(e1, e2, res): a reciprocal e1 makes e2's Mat divided by e1's a; else a
   * reciprocal e2 makes e1's Mat divided by e2's a; otherwise the product of the two Mats.
   * Without reciprocals it stands for the product of what e1 and e2 stand for.
   */
  function Multiply(e1: MatExpr, e2: MatExpr, m1: Operand, m2: Operand): (r: MatExpr)
    ensures r.op == BinOp
    ensures Multipliable(e1, e2, m1, m2) && !IsReciprocal(e1) && !IsReciprocal(e2) ==>
              var u, v := Meaning(e1).value, Meaning(e2).value;
              Meaning(r) == Some(Like(u, Products(u.data, v.data)))
  {
    if IsReciprocal(e1) then Bin(DIV_FLAG, m2, e1.a)
    else if IsReciprocal(e2) then Bin(DIV_FLAG, m1, e2.a)
    else if Multipliable(e1, e2, m1, m2) then
      Assigned(e1, m1);
      Assigned(e2, m2);
      Bin(MUL_FLAG, m1, m2)
    else Bin(MUL_FLAG, m1, m2)
  }

  /**
   * MatOp::divide(e1, e2, res): two reciprocals give e2's a over e1's a; a reciprocal e2
   * makes the product of e1's Mat and e2's a; otherwise the quotient of the two Mats.
   * Without reciprocals, and with no zero in what e2 stands for, it stands for the quotient
   * of what e1 and e2 stand for.
   */
  function Divide(e1: MatExpr, e2: MatExpr, m1: Operand, m2: Operand): (r: MatExpr)
    ensures r.op == BinOp
    ensures Multipliable(e1, e2, m1, m2) && !IsReciprocal(e1) && !IsReciprocal(e2)
            && NonZero(Meaning(e2).value.data) ==>
              var u, v := Meaning(e1).value, Meaning(e2).value;
              Meaning(r) == Some(Like(u, Quotients(u.data, v.data)))
  {
    if IsReciprocal(e1) && IsReciprocal(e2) then Bin(DIV_FLAG, e2.a, e1.a)
    else if IsReciprocal(e2) then Bin(MUL_FLAG, m1, e2.a)
    else if Multipliable(e1, e2, m1, m2) then
      Assigned(e1, m1);
      Assigned(e2, m2);
      Bin(DIV_FLAG, m1, m2)
    else Bin(DIV_FLAG, m1, m2)
  }

  /** An assigned operand with a meaning is evaluated to that meaning. */
  lemma Assigned(e: MatExpr, m: Operand)
    requires Meaning(e).Some? && Evaluates(e, m)
    ensures m == Meaning(e).value
  {
    AssignComputesMeaning(e);
  }

  /** A folded product or quotient is never a reciprocal when its divisor has elements. */
  lemma FoldsAreNotReciprocal(e1: MatExpr, e2: MatExpr, m1: Operand, m2: Operand)
    requires !IsReciprocal(e1) && !IsReciprocal(e2) && HasData(m2)
    ensures !IsReciprocal(Multiply(e1, e2, m1, m2)) && !IsReciprocal(Divide(e1, e2, m1, m2))
  {
  }

  // ---------------------------------------------------------------- the operators

  /** +, -, * and / between Mats and expressions. */
  datatype Arith = Plus | Minus | Times | Over

  /** An operand of an operator: a Mat or an expression. */
  datatype Side = OfMat(m: Operand) | OfExpr(e: MatExpr)

  /** The expression a side stands for: MatExpr(m) for a Mat. */
  function ExprOf(s: Side): MatExpr
  {
    if s.OfMat? then Identity(s.m) else s.e
  }

  /** The Mat a side is assigned to: a Mat itself, or m, what assigning the expression writes. */
  function MatOf(s: Side, m: Operand): Operand
  {
    if s.OfMat? then s.m else m
  }

  /** The fold the MatOp of an operator runs. */
  function Fold(op: Arith, e1: MatExpr, e2: MatExpr, m1: Operand, m2: Operand): MatExpr
  {
    match op
    case Plus => Add(e1, e2, m1, m2)
    case Minus => Subtract(e1, e2, m1, m2)
    case Times => Multiply(e1, e2, m1, m2)
    case Over => Divide(e1, e2, m1, m2)
  }

  /**
   * The binary operators: between two Mats, checkOperandsExist asserts unless both have
   * elements, and makeExpr builds AddEx(a, b, 1, 1), AddEx(a, b, 1, -1), Bin('*', a, b) or
   * Bin('/', a, b).  A Mat on the left of an expression is checked; a Mat on the right of
   * one is not.  Mat + expression folds e + a (the operands swapped); every other form folds
   * its operands in order.  None stands for the assert.
   */
  function Operator(op: Arith, x: Side, y: Side, m1: Operand, m2: Operand): (r: Option<MatExpr>)
    ensures x.OfMat? && y.OfMat? ==> (r.None? <==> Empty(x.m) || Empty(y.m))
    ensures !(x.OfMat? && y.OfMat?) ==> (r.None? <==> x.OfMat? && Empty(x.m))
    ensures r.Some? && (op == Plus || op == Minus) ==> IsAddEx(r.value)
    ensures r.Some? && (op == Times || op == Over) ==> r.value.op == BinOp
  {
    if x.OfMat? && y.OfMat? then
      if Empty(x.m) || Empty(y.m) then None
      else Some(match op
                case Plus => AddEx(x.m, y.m, 1, 1)
                case Minus => AddEx(x.m, y.m, 1, -1)
                case Times => Bin(MUL_FLAG, x.m, y.m)
                case Over => Bin(DIV_FLAG, x.m, y.m))
    else if x.OfMat? && Empty(x.m) then None
    else if x.OfMat? && op == Plus then Some(Add(y.e, Identity(x.m), m2, x.m))
    else Some(Fold(op, ExprOf(x), ExprOf(y), MatOf(x, m1), MatOf(y, m2)))
  }

  /** -a for a Mat: checked, then AddEx(a, Mat(), -1, 0). */
  function Negative(a: Operand): Option<MatExpr>
  {
    if Empty(a) then None else Some(AddEx(a, NoMat, -1, 0))
  }

  /**
   * -e, the fold of Mat() - e.  It evaluates to the negation of the Mat e is assigned to, or
   * of e's a when e is folded in with weight 1: assigning Mat() - x calls subtract(Mat(), x),
   * which negates x.
   */
  function NegativeExpr(e: MatExpr, m: Operand): (r: MatExpr)
    ensures IsAddEx(r)
    ensures !Foldable(e) && Valued(m) ==> Evaluates(r, Like(m, Scaled(-1, m.data)))
    ensures Foldable(e) && e.alpha == 1 && Valued(e.a) ==> Evaluates(r, Like(e.a, Scaled(-1, e.a.data)))
  {
    Subtract(Identity(NoMat), e, NoMat, m)
  }

  /** Negating a Mat stands for -a, and is refused exactly for an empty a. */
  lemma NegativeMeans(a: Operand)
    ensures Negative(a).None? <==> Empty(a)
    ensures Valued(a) ==> Meaning(Negative(a).value) == Some(Like(a, Scaled(-1, a.data)))
  {
  }

  /** The element-wise combination an operator stands for. */
  function Combined(op: Arith, u: Operand, v: Operand): Operand
    requires |u.data| == |v.data| && (op == Over ==> NonZero(v.data))
  {
    match op
    case Plus => Like(u, Linear(1, u.data, 1, v.data))
    case Minus => Like(u, Linear(1, u.data, -1, v.data))
    case Times => Like(u, Products(u.data, v.data))
    case Over => Like(u, Quotients(u.data, v.data))
  }

  /** What a side needs for the operator's fold to see its value: m is what assigning it writes. */
  predicate Supplied(op: Arith, s: Side, m: Operand)
  {
    s.OfExpr? ==> (if op == Plus || op == Minus then !Foldable(s.e) ==> Evaluates(s.e, m) else Evaluates(s.e, m))
  }

  /**
   * Every operator on operands with meanings of one type and shape, none a reciprocal, builds
   * an expression standing for the element-wise sum, difference, product or quotient of
   * their meanings.
   */
  lemma OperatorMeans(op: Arith, x: Side, y: Side, m1: Operand, m2: Operand)
    requires Meaning(ExprOf(x)).Some? && Meaning(ExprOf(y)).Some?
    requires SameShape(Meaning(ExprOf(x)).value, Meaning(ExprOf(y)).value)
    requires !IsReciprocal(ExprOf(x)) && !IsReciprocal(ExprOf(y))
    requires Supplied(op, x, m1) && Supplied(op, y, m2)
    requires op == Over ==> NonZero(Meaning(ExprOf(y)).value.data)
    ensures Operator(op, x, y, m1, m2).Some?
    ensures Meaning(Operator(op, x, y, m1, m2).value)
            == Some(Combined(op, Meaning(ExprOf(x)).value, Meaning(ExprOf(y)).value))
  {
    var u, v := Meaning(ExprOf(x)).value, Meaning(ExprOf(y)).value;
    if x.OfMat? {
      IdentityEvaluates(x.m);
    }
    if y.OfMat? {
      IdentityEvaluates(y.m);
    }
    if x.OfMat? && y.OfMat? {
      return;
    }
    var e1, e2, n1, n2 := ExprOf(x), ExprOf(y), MatOf(x, m1), MatOf(y, m2);
    match op
    case Plus =>
      if x.OfMat? {
        assert Summable(e2, e1, n2, n1);
        assert Linear(1, v.data, 1, u.data) == Linear(1, u.data, 1, v.data);
      } else {
        assert Summable(e1, e2, n1, n2);
      }
    case Minus => assert Summable(e1, e2, n1, n2);
    case Times => assert Multipliable(e1, e2, n1, n2);
    case Over => assert Multipliable(e1, e2, n1, n2);
  }

  /** a == b builds a comparison, whose assign writes nothing. */
  function Equal(a: Operand, b: Operand): Option<MatExpr>
  {
    if Empty(a) || Empty(b) then None else Some(Cmp(M_CMP_EQ, a, b))
  }

  lemma EqualLeaves(a: Operand, b: Operand, t: int)
    ensures Equal(a, b).None? <==> Empty(a) || Empty(b)
    ensures Equal(a, b).Some? ==> Assign(Equal(a, b).value, t) == Leaves && Meaning(Equal(a, b).value).None?
  {
  }
}
