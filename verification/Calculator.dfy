/**
 The calculator tool (gateway/app/mcp_broker.py) on its integer fragment. Floats, true
 division and negative exponents leave the fragment; their outcome is Outside.
 */
module Calculator {
  datatype BinOp = Add | Sub | Mult | Div | FloorDiv | Mod | Pow | OtherBinOp

  datatype UnaryOp = UAdd | USub | OtherUnaryOp

  datatype Expr =
    | IntConst(n: int)
    | BoolConst(b: bool)
    | FloatConst
    | OtherConst
    | Binary(op: BinOp, left: Expr, right: Expr)
    | Unary(uop: UnaryOp, operand: Expr)
    | OtherNode

  datatype Error = OnlyNumericConstants | ExponentTooLarge | ZeroDivision | UnsupportedExpression

  datatype Outcome = Number(v: int) | Outside | Failed(error: Error)

  function Abs(x: int): nat { if x < 0 then -x else x }

  /** Python's // and %, which round toward negative infinity. */
  function PyFloorDiv(a: int, b: int): int
    requires b != 0
  {
    if b > 0 then a / b else (-a) / (-b)
  }

  function PyMod(a: int, b: int): int
    requires b != 0
  {
    a - b * PyFloorDiv(a, b)
  }

  function Power(x: int, n: nat): int {
    if n == 0 then 1 else x * Power(x, n - 1)
  }

  const MAX_EXPONENT := 64

  function Apply(op: BinOp, x: int, y: int): Outcome {
    match op
    case Add => Number(x + y)
    case Sub => Number(x - y)
    case Mult => Number(x * y)
    case Div => if y == 0 then Failed(ZeroDivision) else Outside
    case FloorDiv => if y == 0 then Failed(ZeroDivision) else Number(PyFloorDiv(x, y))
    case Mod => if y == 0 then Failed(ZeroDivision) else Number(PyMod(x, y))
    case Pow => if y >= 0 then Number(Power(x, y)) else if x == 0 then Failed(ZeroDivision) else Outside
    case OtherBinOp => Failed(UnsupportedExpression)
  }

  /** `_safe_eval`. */
  function SafeEval(e: Expr): Outcome {
    match e
    case IntConst(n) => Number(n)
    case BoolConst(_) => Failed(OnlyNumericConstants)
    case FloatConst => Outside
    case OtherConst => Failed(OnlyNumericConstants)
    case OtherNode => Failed(UnsupportedExpression)
    case Unary(uop, operand) =>
      if uop.OtherUnaryOp? then Failed(UnsupportedExpression)
      else
        (match SafeEval(operand)
         case Number(x) => Number(if uop.USub? then -x else x)
         case other => other)
    case Binary(op, left, right) =>
      if op.OtherBinOp? then Failed(UnsupportedExpression)
      else
        var r := SafeEval(right);
        if op.Pow? && !r.Number? then r
        else if op.Pow? && Abs(r.v) > MAX_EXPONENT then Failed(ExponentTooLarge)
        else
          match (SafeEval(left), r)
          case (Failed(error), _) => Failed(error)
          case (_, Failed(error)) => Failed(error)
          case (Number(x), Number(y)) => Apply(op, x, y)
          case _ => Outside
  }

  // ---- The mathematical value, with quotient and remainder characterised by their defining equation.

  ghost predicate IsRemainder(r: int, b: int) { 0 <= r < b || b < r <= 0 }

  ghost predicate OpMeans(op: BinOp, x: int, y: int, v: int) {
    match op
    case Add => v == x + y
    case Sub => v == x - y
    case Mult => v == x * y
    case FloorDiv => IsRemainder(x - y * v, y)
    case Mod => IsRemainder(v, y) && exists q: int :: x == y * q + v
    case Pow => y >= 0 && v == Power(x, y)
    case _ => false
  }

  ghost predicate Means(e: Expr, v: int) {
    match e
    case IntConst(n) => v == n
    case Unary(uop, operand) =>
      (uop.UAdd? && Means(operand, v)) || (uop.USub? && Means(operand, -v))
    case Binary(op, left, right) => exists x, y :: Means(left, x) && Means(right, y) && OpMeans(op, x, y, v)
    case _ => false
  }

  function Depth(e: Expr): nat {
    match e
    case Binary(_, l, r) => 1 + (if Depth(l) > Depth(r) then Depth(l) else Depth(r))
    case Unary(_, x) => 1 + Depth(x)
    case _ => 0
  }

  predicate ConstantsAtMost(e: Expr, m: nat) {
    match e
    case IntConst(n) => Abs(n) <= m
    case Binary(_, l, r) => ConstantsAtMost(l, m) && ConstantsAtMost(r, m)
    case Unary(_, x) => ConstantsAtMost(x, m)
    case _ => true
  }

  /** M^(64^d). */
  function Bound(m: nat, d: nat): int { Power(m, TowerExponent(d)) }

  function TowerExponent(d: nat): (e: nat)
    ensures e >= 1
  {
    if d == 0 then 1 else MAX_EXPONENT * TowerExponent(d - 1)
  }

  // ---- Powers.

  lemma {:induction false} PowerAdd(x: int, m: nat, n: nat)
    ensures Power(x, m + n) == Power(x, m) * Power(x, n)
  {
    if m > 0 {
      PowerAdd(x, m - 1, n);
      assert Power(x, m + n) == x * Power(x, m - 1 + n);
    }
  }

  lemma {:induction false} PowerMul(x: int, m: nat, n: nat)
    ensures Power(x, n * m) == Power(Power(x, m), n)
  {
    if n > 0 {
      PowerMul(x, m, n - 1);
      assert n * m == m + (n - 1) * m;
      PowerAdd(x, m, (n - 1) * m);
    }
  }

  lemma {:induction false} PowerGrows(x: int, m: nat, n: nat)
    requires x >= 1 && m <= n
    ensures 1 <= Power(x, m) <= Power(x, n)
  {
    if n > 0 {
      if m == n {
        PowerGrows(x, m - 1, n - 1);
        MulMonotone(1, x, 1, Power(x, n - 1));
      } else {
        PowerGrows(x, m, n - 1);
        MulMonotone(1, x, Power(x, n - 1), Power(x, n - 1));
      }
    }
  }

  lemma MulMonotone(a: int, b: int, c: int, d: int)
    requires 0 <= a <= b && 0 <= c <= d
    ensures a * c <= b * d
  {
    assert a * c <= b * c;
    assert b * c <= b * d;
  }

  lemma AbsMul(x: int, y: int)
    ensures Abs(x * y) == Abs(x) * Abs(y)
  {
    if x < 0 && y < 0 {
      assert x * y == (-x) * (-y);
    } else if x < 0 {
      assert x * y == -((-x) * y);
    } else if y < 0 {
      assert x * y == -(x * (-y));
    }
  }

  lemma {:induction false} PowerAbs(x: int, n: nat, b: int)
    requires Abs(x) <= b
    ensures Abs(Power(x, n)) <= Power(b, n)
  {
    if n > 0 {
      PowerAbs(x, n - 1, b);
      AbsMul(x, Power(x, n - 1));
      MulMonotone(Abs(x), b, Abs(Power(x, n - 1)), Power(b, n - 1));
    }
  }

  lemma FloorDivMeaning(a: int, b: int)
    requires b != 0
    ensures IsRemainder(PyMod(a, b), b) && a == b * PyFloorDiv(a, b) + PyMod(a, b)
    ensures Abs(PyFloorDiv(a, b)) <= Abs(a) && Abs(PyMod(a, b)) < Abs(b)
  {
    var q := PyFloorDiv(a, b);
    if b > 0 {
      assert a == b * (a / b) + a % b;
      QuotientBound(a, b, q);
    } else {
      assert -a == (-b) * ((-a) / (-b)) + (-a) % (-b);
      assert (-b) * q == -(b * q);
      QuotientBound(-a, -b, q);
    }
  }

  lemma QuotientBound(a: int, b: int, q: int)
    requires b > 0 && b * q <= a < b * q + b
    ensures Abs(q) <= Abs(a)
  {
    if q > 0 {
      MulAtLeast(b, q);
    } else if q < 0 {
      MulAtLeast(b, -q - 1);
    }
  }

  lemma MulAtLeast(b: int, n: int)
    requires b >= 1 && n >= 0
    ensures b * n >= n
  {
    MulMonotone(1, b, n, n);
  }

  // ---- Main results.

  /** One operation on operands of at most B, B >= 2, gives at most B^64. */
  lemma ApplyBounded(op: BinOp, x: int, y: int, b: int)
    requires b >= 2 && Abs(x) <= b && Abs(y) <= b && (op.Pow? ==> Abs(y) <= MAX_EXPONENT)
    requires Apply(op, x, y).Number?
    ensures OpMeans(op, x, y, Apply(op, x, y).v)
    ensures Abs(Apply(op, x, y).v) <= Power(b, MAX_EXPONENT)
  {
    var v := Apply(op, x, y).v;
    PowerGrows(b, 1, MAX_EXPONENT);
    PowerGrows(b, 2, MAX_EXPONENT);
    assert Power(b, 1) == b;
    assert Power(b, 2) == b * b;
    match op
    case Add => MulMonotone(2, b, b, b);
    case Sub => MulMonotone(2, b, b, b);
    case Mult => AbsMul(x, y); MulMonotone(Abs(x), b, Abs(y), b);
    case FloorDiv => FloorDivMeaning(x, y);
    case Mod => FloorDivMeaning(x, y);
    case Pow => PowerAbs(x, y, b); PowerGrows(b, y, MAX_EXPONENT);
  }

  lemma BoundStep(m: nat, d: nat)
    requires m >= 2
    ensures Power(Bound(m, d), MAX_EXPONENT) == Bound(m, d + 1) && Bound(m, d) >= 2
  {
    PowerMul(m, TowerExponent(d), MAX_EXPONENT);
    PowerGrows(m, 1, TowerExponent(d));
    assert Power(m, 1) == m;
  }

  lemma {:induction false} BoundGrows(m: nat, c: nat, d: nat)
    requires m >= 2 && c <= d
    ensures Bound(m, c) <= Bound(m, d)
  {
    if c < d {
      BoundGrows(m, c, d - 1);
      PowerGrows(m, TowerExponent(d - 1), TowerExponent(d));
    }
  }

  /**
   Whatever the expression, if evaluation yields an integer it is the mathematical value, and
   with constants of at most M >= 2 and depth d it is at most M^(64^d) in absolute value.
   */
  lemma {:induction false} EvalIsCorrectAndBounded(e: Expr, m: nat)
    requires m >= 2 && ConstantsAtMost(e, m) && SafeEval(e).Number?
    ensures Means(e, SafeEval(e).v) && Abs(SafeEval(e).v) <= Bound(m, Depth(e))
  {
    match e
    case IntConst(n) => assert Power(m, 1) == m;
    case Unary(_, x) =>
      EvalIsCorrectAndBounded(x, m);
      BoundGrows(m, Depth(x), Depth(e));
    case Binary(op, l, r) =>
      EvalIsCorrectAndBounded(l, m);
      EvalIsCorrectAndBounded(r, m);
      var d := Depth(e) - 1;
      BoundGrows(m, Depth(l), d);
      BoundGrows(m, Depth(r), d);
      BoundStep(m, d);
      ApplyBounded(op, SafeEval(l).v, SafeEval(r).v, Bound(m, d));
  }

  lemma RemainderUnique(a: int, b: int, p: int, q: int)
    requires IsRemainder(a - b * p, b) && IsRemainder(a - b * q, b)
    ensures p == q
  {
    assert b * (p - q) == b * p - b * q;
    MulAway(b, p - q);
  }

  lemma MulAway(b: int, d: int)
    ensures b > 0 && d >= 1 ==> b * d >= b
    ensures b > 0 && d <= -1 ==> b * d <= -b
    ensures b < 0 && d >= 1 ==> b * d <= b
    ensures b < 0 && d <= -1 ==> b * d >= -b
  {
  }

  lemma OpMeansUnique(op: BinOp, x: int, y: int, v: int, w: int)
    requires OpMeans(op, x, y, v) && OpMeans(op, x, y, w)
    ensures v == w
  {
    if op.FloorDiv? {
      RemainderUnique(x, y, v, w);
    } else if op.Mod? {
      var p: int :| x == y * p + v;
      var q: int :| x == y * q + w;
      RemainderUnique(x, y, p, q);
    }
  }

  /** An expression has at most one mathematical value. */
  lemma {:induction false} MeansUnique(e: Expr, v: int, w: int)
    requires Means(e, v) && Means(e, w)
    ensures v == w
  {
    match e
    case IntConst(_) =>
    case Unary(uop, x) =>
      if uop.UAdd? { MeansUnique(x, v, w); } else { MeansUnique(x, -v, -w); }
    case Binary(op, l, r) =>
      var x1, y1 :| Means(l, x1) && Means(r, y1) && OpMeans(op, x1, y1, v);
      var x2, y2 :| Means(l, x2) && Means(r, y2) && OpMeans(op, x2, y2, w);
      MeansUnique(l, x1, x2);
      MeansUnique(r, y1, y2);
      OpMeansUnique(op, x1, y1, v, w);
  }

  /** No exponent met in the expression exceeds the cap. */
  ghost predicate ExponentsCapped(e: Expr) {
    match e
    case Binary(op, l, r) =>
      && ExponentsCapped(l) && ExponentsCapped(r)
      && (op.Pow? ==> forall y | Means(r, y) :: y <= MAX_EXPONENT)
    case Unary(_, x) => ExponentsCapped(x)
    case _ => true
  }

  /** An expression with a value is evaluated to it exactly when no exponent exceeds 64. */
  lemma {:induction false} EvalSucceedsIff(e: Expr, v: int)
    requires Means(e, v)
    ensures SafeEval(e) == Number(v) <==> ExponentsCapped(e)
    ensures SafeEval(e).Number? ==> SafeEval(e).v == v
  {
    match e
    case IntConst(_) =>
    case Unary(uop, x) => EvalSucceedsIff(x, if uop.UAdd? then v else -v);
    case Binary(op, l, r) =>
      var x, y :| Means(l, x) && Means(r, y) && OpMeans(op, x, y, v);
      EvalSucceedsIff(l, x);
      EvalSucceedsIff(r, y);
      forall z | Means(r, z) ensures z == y { MeansUnique(r, y, z); }
      ApplyFindsMeaning(op, x, y, v);
  }

  lemma ApplyFindsMeaning(op: BinOp, x: int, y: int, v: int)
    requires OpMeans(op, x, y, v)
    ensures Apply(op, x, y) == Number(v)
  {
    if op.FloorDiv? || op.Mod? {
      FloorDivMeaning(x, y);
      OpMeansUnique(op, x, y, v, Apply(op, x, y).v);
    }
  }

  /** An exponent above the cap is reported as such, whatever the base: it is evaluated and checked first. */
  lemma ExponentCheckedFirst(left: Expr, right: Expr, y: int)
    requires SafeEval(right) == Number(y)
    ensures SafeEval(Binary(Pow, left, right)) == Failed(ExponentTooLarge)
            <==> y > 64 || y < -64 || SafeEval(left) == Failed(ExponentTooLarge)
  {
  }
}
