/** The expression tree of the solver, its guarded evaluator and its renderer
    (operations.py). A tree is a value: leaves hold an input number, inner
    nodes one of five binary or three unary operators. Evaluation returns a
    value or the kind of error the Python code raises; the search skips any
    tree whose evaluation fails. */
module Operations {
  import opened Decimal

  datatype BinaryOp = Add | Subtract | Multiply | Divide | Power

  datatype UnaryOp = SquareRoot | Factorial | DoubleFactorial

  datatype Expr =
    | Num(value: int)
    | Bin(op: BinaryOp, left: Expr, right: Expr)
    | Un(uop: UnaryOp, arg: Expr)

  /** The operator registry, in the order the search applies the operators. */
  const BinaryOperations: seq<BinaryOp> := [Add, Subtract, Multiply, Divide, Power]
  const UnaryOperations: seq<UnaryOp> := [SquareRoot, Factorial, DoubleFactorial]

  /** What each guard raises. The Python code raises ZeroDivisionError,
      ValueError or OverflowError; the kinds below say which guard fired. */
  datatype EvalError =
    | DivideByZero        // divisor 0, or 0 raised to a negative power
    | NonIntegerResult    // quotient not integral
    | ExponentTooLarge    // |exponent| > 1000
    | ComplexResult       // negative base, non-integral exponent
    | NegativeRadicand    // square root of a negative number
    | RadicandTooLarge    // square root of a number > 10^6
    | NonIntegerOperand   // factorial of a non-integral number
    | NegativeOperand     // factorial or double factorial of a negative number
    | OperandTooLarge     // factorial or double factorial of a number > 1000

  datatype Result = Ok(value: real) | Err(error: EvalError)

  /** The two results that only floating point gives: `math.sqrt(x)` and
      `x ** y` for a non-integral `y`. The model keeps them abstract. */
  datatype Oracle = Oracle(sqrt: real -> real, realPow: (real, real) -> real)

  const ExponentLimit: real := 1000.0
  const RadicandLimit: real := 1000000.0
  const FactorialLimit: real := 1000.0

  /** Python's `int(v)`: truncation toward zero. */
  function Int(v: real): int {
    if v >= 0.0 then v.Floor else -((-v).Floor)
  }

  /** `is_integer(v)`, that is `v == int(v)` (operations.py:3-4). */
  predicate IsInteger(v: real) {
    v == Int(v) as real
  }

  function Abs(v: real): real {
    if v < 0.0 then -v else v
  }

  function Fact(n: nat): nat {
    if n == 0 then 1 else n * Fact(n - 1)
  }

  /** n!! on the naturals, with 0!! = 1!! = 1. */
  function DoubleFactNat(n: nat): nat {
    if n <= 1 then 1 else n * DoubleFactNat(n - 2)
  }

  /** What the loop of DoubleFactorial.evaluate computes for any real:
      `x * (x - 2) * ...` over the factors that are still positive. */
  function DoubleFact(x: real): real
    decreases if x > 0.0 then x.Floor + 1 else 0
  {
    if x <= 0.0 then 1.0 else x * DoubleFact(x - 2.0)
  }

  /** b^n for a natural exponent. */
  function Pow(b: real, n: nat): (r: real)
    ensures b != 0.0 ==> r != 0.0
  {
    if n == 0 then 1.0 else b * Pow(b, n - 1)
  }

  /** b^n for an integer exponent, as `**` computes it exactly when the
      exponent is integral; a negative exponent needs a non-zero base. */
  function IntPow(b: real, n: int): real
    requires b != 0.0 || n >= 0
  {
    if n >= 0 then Pow(b, n) else 1.0 / Pow(b, -n)
  }

  /** Power.evaluate once both operands are known (operations.py:83-89).
      Python's `0 ** y` with `y < 0` raises ZeroDivisionError. */
  function PowerOf(base: real, exponent: real, o: Oracle): Result {
    if Abs(exponent) > ExponentLimit then Err(ExponentTooLarge)
    else if base < 0.0 && !IsInteger(exponent) then Err(ComplexResult)
    else if base == 0.0 && exponent < 0.0 then Err(DivideByZero)
    else if IsInteger(exponent) then Ok(IntPow(base, Int(exponent)))
    else Ok(o.realPow(base, exponent))
  }

  /** Divide.evaluate once both operands are known (operations.py:67-73):
      only an integral quotient is a result. */
  function QuotientOf(a: real, b: real): Result {
    if b == 0.0 then Err(DivideByZero)
    else if IsInteger(a / b) then Ok(a / b)
    else Err(NonIntegerResult)
  }

  /** A binary operator applied to the values of its operands. */
  function ApplyBinary(op: BinaryOp, a: real, b: real, o: Oracle): Result {
    match op
    case Add => Ok(a + b)
    case Subtract => Ok(a - b)
    case Multiply => Ok(a * b)
    case Divide => QuotientOf(a, b)
    case Power => PowerOf(a, b, o)
  }

  /** A unary operator applied to the value of its operand. */
  function ApplyUnary(u: UnaryOp, v: real, o: Oracle): Result {
    match u
    case SquareRoot =>
      if v < 0.0 then Err(NegativeRadicand)
      else if v > RadicandLimit then Err(RadicandTooLarge)
      else Ok(o.sqrt(v))
    case Factorial =>
      if !IsInteger(v) then Err(NonIntegerOperand)
      else if v < 0.0 then Err(NegativeOperand)
      else if v > FactorialLimit then Err(OperandTooLarge)
      else Ok(Fact(Int(v)) as real)
    case DoubleFactorial =>
      if v < 0.0 then Err(NegativeOperand)
      else if v > FactorialLimit then Err(OperandTooLarge)
      else Ok(DoubleFact(v))
  }

  /** A binary node's result from its children's results. Divide looks at
      its divisor before its dividend (operations.py:67-70), so a failing
      divisor, or one that is 0, wins over a failing dividend; the other
      operators look at the left child first. */
  function BinaryResult(op: BinaryOp, left: Result, right: Result, o: Oracle): Result {
    if op == Divide then
      match right
      case Err(x) => Err(x)
      case Ok(d) =>
        if d == 0.0 then Err(DivideByZero)
        else match left
          case Err(x) => Err(x)
          case Ok(n) => ApplyBinary(Divide, n, d, o)
    else
      match left
      case Err(x) => Err(x)
      case Ok(a) =>
        match right
        case Err(x) => Err(x)
        case Ok(b) => ApplyBinary(op, a, b, o)
  }

  /** A unary node's result from its child's result. */
  function UnaryResult(u: UnaryOp, arg: Result, o: Oracle): Result {
    match arg
    case Err(x) => Err(x)
    case Ok(v) => ApplyUnary(u, v, o)
  }

  /** `evaluate()`: the children's results, then the node's own operator;
      the first error raised is the result. Evaluation has no side effects,
      so the order only decides which of two errors is reported. */
  function Eval(e: Expr, o: Oracle): Result {
    match e
    case Num(v) => Ok(v as real)
    case Bin(op, l, r) => BinaryResult(op, Eval(l, o), Eval(r, o), o)
    case Un(u, a) => UnaryResult(u, Eval(a, o), o)
  }

  /** DoubleFactorial.evaluate on the value of its operand
      (operations.py:128-139): the guards, then the descending loop. */
  method EvaluateDoubleFactorial(value: real) returns (r: Result)
    ensures value < 0.0 ==> r == Err(NegativeOperand)
    ensures value > FactorialLimit ==> r == Err(OperandTooLarge)
    ensures 0.0 <= value <= FactorialLimit ==> r == Ok(DoubleFact(value))
  {
    if value < 0.0 {
      return Err(NegativeOperand);
    }
    if value > FactorialLimit {
      return Err(OperandTooLarge);
    }
    var result := 1.0;
    var v := value;
    while v > 0.0
      invariant result * DoubleFact(v) == DoubleFact(value)
      decreases if v > 0.0 then v.Floor + 1 else 0
    {
      result := result * v;
      v := v - 2.0;
    }
    return Ok(result);
  }

  function Symbol(op: BinaryOp): string {
    match op
    case Add => "+"
    case Subtract => "-"
    case Multiply => "*"
    case Divide => "/"
    case Power => "^"
  }

  /** `__str__`: a binary node in parentheses with the operator between
      spaces, a square root as a prefix, factorials as suffixes. */
  function Render(e: Expr): string {
    match e
    case Num(v) => IntStr(v)
    case Bin(op, l, r) => "(" + Render(l) + " " + Symbol(op) + " " + Render(r) + ")"
    case Un(SquareRoot, a) => "\U{221A}" + Render(a)
    case Un(Factorial, a) => Render(a) + "!"
    case Un(DoubleFactorial, a) => Render(a) + "!!"
  }

  /** The leaves of a tree, read left to right. */
  function Leaves(e: Expr): (s: seq<int>)
    ensures |s| >= 1
  {
    match e
    case Num(v) => [v]
    case Bin(_, l, r) => Leaves(l) + Leaves(r)
    case Un(_, a) => Leaves(a)
  }

  /** No unary operator is applied directly to another unary node. */
  predicate NoStackedUnary(e: Expr) {
    match e
    case Num(_) => true
    case Bin(_, l, r) => NoStackedUnary(l) && NoStackedUnary(r)
    case Un(_, a) => !a.Un? && NoStackedUnary(a)
  }

  /** The characters a tree's rendering spends on operators and parentheses:
      5 for a binary node, 1 for a root sign or `!`, 2 for `!!`. */
  function OperatorChars(e: Expr): nat {
    match e
    case Num(_) => 0
    case Bin(_, l, r) => 5 + OperatorChars(l) + OperatorChars(r)
    case Un(DoubleFactorial, a) => 2 + OperatorChars(a)
    case Un(_, a) => 1 + OperatorChars(a)
  }

  // ---------------------------------------------------------------------
  // The guards, operator by operator.

  /** Add, Subtract and Multiply never fail themselves: they fail exactly when
      a child fails, and then with the left child's error first. */
  lemma ArithmeticNeverFails(op: BinaryOp, l: Expr, r: Expr, o: Oracle)
    requires op == Add || op == Subtract || op == Multiply
    ensures Eval(Bin(op, l, r), o).Err? <==> Eval(l, o).Err? || Eval(r, o).Err?
    ensures Eval(l, o).Err? ==> Eval(Bin(op, l, r), o) == Eval(l, o)
    ensures Eval(l, o).Ok? && Eval(r, o).Err? ==> Eval(Bin(op, l, r), o) == Eval(r, o)
  {
    assert Eval(Bin(op, l, r), o) == BinaryResult(op, Eval(l, o), Eval(r, o), o);
  }

  /** A division looks at its divisor first: a failing divisor's error wins,
      then a divisor of 0 fails, then a failing dividend's error; two good
      operands give QuotientOf. */
  lemma DivideEvaluation(l: Expr, r: Expr, o: Oracle)
    ensures Eval(r, o).Err? ==> Eval(Bin(Divide, l, r), o) == Eval(r, o)
    ensures Eval(r, o) == Ok(0.0) ==> Eval(Bin(Divide, l, r), o) == Err(DivideByZero)
    ensures Eval(r, o).Ok? && Eval(r, o).value != 0.0 && Eval(l, o).Err? ==>
      Eval(Bin(Divide, l, r), o) == Eval(l, o)
    ensures Eval(l, o).Ok? && Eval(r, o).Ok? ==>
      Eval(Bin(Divide, l, r), o) == QuotientOf(Eval(l, o).value, Eval(r, o).value)
  {
    assert Eval(Bin(Divide, l, r), o) == BinaryResult(Divide, Eval(l, o), Eval(r, o), o);
  }

  /** A quotient is a result exactly when the divisor is non-zero and the
      quotient is integral; the result times the divisor is the dividend. */
  lemma QuotientGuards(a: real, b: real)
    ensures QuotientOf(a, b) == Err(DivideByZero) <==> b == 0.0
    ensures QuotientOf(a, b).Ok? <==> b != 0.0 && IsInteger(a / b)
    ensures QuotientOf(a, b) == Err(NonIntegerResult) <==> b != 0.0 && !IsInteger(a / b)
    ensures QuotientOf(a, b).Ok? ==>
      IsInteger(QuotientOf(a, b).value) && a == QuotientOf(a, b).value * b
  {
    if b != 0.0 {
      QuotientTimesDivisor(a, b);
    }
  }

  lemma QuotientTimesDivisor(n: real, d: real)
    requires d != 0.0
    ensures n == (n / d) * d
  {
  }

  /** Power on evaluated operands: an exponent beyond ±1000 fails first, a
      negative base with a non-integral exponent fails next, 0 to a negative
      power fails last; otherwise an integral exponent gives the exact power
      and only a non-integral one is left to floating point. */
  lemma PowerGuards(base: real, exponent: real, o: Oracle)
    ensures PowerOf(base, exponent, o) == Err(ExponentTooLarge) <==> Abs(exponent) > ExponentLimit
    ensures PowerOf(base, exponent, o) == Err(ComplexResult) <==>
      Abs(exponent) <= ExponentLimit && base < 0.0 && !IsInteger(exponent)
    ensures PowerOf(base, exponent, o) == Err(DivideByZero) <==>
      Abs(exponent) <= ExponentLimit && base == 0.0 && exponent < 0.0
    ensures PowerOf(base, exponent, o).Ok? <==>
      Abs(exponent) <= ExponentLimit && (base >= 0.0 || IsInteger(exponent)) && (base != 0.0 || exponent >= 0.0)
    ensures PowerOf(base, exponent, o).Ok? && IsInteger(exponent) && exponent >= 0.0 ==>
      PowerOf(base, exponent, o).value == Pow(base, Int(exponent))
    ensures PowerOf(base, exponent, o).Ok? && IsInteger(exponent) && exponent < 0.0 ==>
      PowerOf(base, exponent, o).value * Pow(base, -Int(exponent)) == 1.0
  {
  }

  /** Power evaluates its base, then its exponent, then applies PowerOf. */
  lemma PowerEvaluation(l: Expr, r: Expr, o: Oracle)
    ensures Eval(l, o).Err? ==> Eval(Bin(Power, l, r), o) == Eval(l, o)
    ensures Eval(l, o).Ok? && Eval(r, o).Err? ==> Eval(Bin(Power, l, r), o) == Eval(r, o)
    ensures Eval(l, o).Ok? && Eval(r, o).Ok? ==>
      Eval(Bin(Power, l, r), o) == PowerOf(Eval(l, o).value, Eval(r, o).value, o)
  {
    assert Eval(Bin(Power, l, r), o) == BinaryResult(Power, Eval(l, o), Eval(r, o), o);
  }

  /** b^(m+n) == b^m * b^n: the exact power behaves as a power. */
  lemma {:induction false} PowAdd(b: real, m: nat, n: nat)
    ensures Pow(b, m + n) == Pow(b, m) * Pow(b, n)
    decreases m
  {
    if m > 0 {
      PowAdd(b, m - 1, n);
      assert Pow(b, m + n) == b * Pow(b, m - 1 + n);
    }
  }

  /** A unary node passes its operand's error on and otherwise applies its
      operator to the operand's value. */
  lemma UnaryEvaluation(u: UnaryOp, a: Expr, o: Oracle)
    ensures Eval(a, o).Err? ==> Eval(Un(u, a), o) == Eval(a, o)
    ensures Eval(a, o).Ok? ==> Eval(Un(u, a), o) == ApplyUnary(u, Eval(a, o).value, o)
  {
    assert Eval(Un(u, a), o) == UnaryResult(u, Eval(a, o), o);
  }

  /** A square root fails for an operand below 0 or above 10^6 and for no
      other operand. */
  lemma SquareRootGuards(v: real, o: Oracle)
    ensures ApplyUnary(SquareRoot, v, o) == Err(NegativeRadicand) <==> v < 0.0
    ensures ApplyUnary(SquareRoot, v, o) == Err(RadicandTooLarge) <==> v > RadicandLimit
    ensures ApplyUnary(SquareRoot, v, o).Ok? <==> 0.0 <= v <= RadicandLimit
  {
  }

  /** A factorial fails for a non-integral, negative or > 1000 operand (in
      that order of checks); otherwise it is n! of the integral operand. */
  lemma FactorialGuards(v: real, o: Oracle)
    ensures ApplyUnary(Factorial, v, o).Ok? <==> IsInteger(v) && 0.0 <= v <= FactorialLimit
    ensures !IsInteger(v) ==> ApplyUnary(Factorial, v, o) == Err(NonIntegerOperand)
    ensures IsInteger(v) && v < 0.0 ==> ApplyUnary(Factorial, v, o) == Err(NegativeOperand)
    ensures IsInteger(v) && v > FactorialLimit ==> ApplyUnary(Factorial, v, o) == Err(OperandTooLarge)
    ensures ApplyUnary(Factorial, v, o).Ok? ==>
      0 <= Int(v) <= 1000 && ApplyUnary(Factorial, v, o).value == Fact(Int(v)) as real
  {
  }

  /** The recursive double factorial on reals agrees with n!! on the naturals. */
  lemma {:induction false} DoubleFactOfNat(n: nat)
    ensures DoubleFact(n as real) == DoubleFactNat(n) as real
    decreases n
  {
    if n >= 2 {
      DoubleFactOfNat(n - 2);
      assert (n - 2) as real == n as real - 2.0;
    } else if n == 1 {
      assert DoubleFact(1.0) == 1.0 * DoubleFact(-1.0);
    }
  }

  /** A double factorial fails exactly for an operand below 0 or above 1000;
      on an integer n in 0..1000 it is n * (n-2) * ..., with 0!! = 1!! = 1. */
  lemma DoubleFactorialGuards(v: real, o: Oracle)
    ensures ApplyUnary(DoubleFactorial, v, o) == Err(NegativeOperand) <==> v < 0.0
    ensures ApplyUnary(DoubleFactorial, v, o) == Err(OperandTooLarge) <==> v > FactorialLimit
    ensures ApplyUnary(DoubleFactorial, v, o).Ok? <==> 0.0 <= v <= FactorialLimit
    ensures forall n: nat :: v == n as real && n <= 1000 ==>
      ApplyUnary(DoubleFactorial, v, o) == Ok(DoubleFactNat(n) as real)
  {
    forall n: nat | v == n as real && n <= 1000
      ensures ApplyUnary(DoubleFactorial, v, o) == Ok(DoubleFactNat(n) as real)
    {
      DoubleFactOfNat(n);
    }
  }

  /** n! splits into the two double factorials n!! and (n-1)!!. */
  lemma {:induction false} FactorialIsTwoDoubleFactorials(n: nat)
    requires n >= 1
    ensures Fact(n) == DoubleFactNat(n) * DoubleFactNat(n - 1)
    decreases n
  {
    if n >= 2 {
      FactorialIsTwoDoubleFactorials(n - 1);
      var odd, even := DoubleFactNat(n - 1), DoubleFactNat(n - 2);
      assert Fact(n - 1) == odd * even;
      assert DoubleFactNat(n) == n * even;
      assert Fact(n) == n * Fact(n - 1);
      Regroup(n, odd, even);
    }
  }

  lemma Regroup(a: int, b: int, c: int)
    ensures a * (b * c) == (a * c) * b
  {
  }

  // ---------------------------------------------------------------------
  // Rendering lengths.

  /** A node's text is strictly longer than each child's: a binary node adds
      5 characters, a root sign or `!` adds 1, `!!` adds 2. */
  lemma RenderGrows(e: Expr)
    ensures e.Bin? ==> |Render(e)| == |Render(e.left)| + |Render(e.right)| + 5
    ensures e.Un? && e.uop == DoubleFactorial ==> |Render(e)| == |Render(e.arg)| + 2
    ensures e.Un? && e.uop != DoubleFactorial ==> |Render(e)| == |Render(e.arg)| + 1
    ensures e.Bin? ==> |Render(e)| > |Render(e.left)| && |Render(e)| > |Render(e.right)|
    ensures e.Un? ==> |Render(e)| > |Render(e.arg)|
  {
  }

  /** A tree's text is its leaves' digits plus its operator characters, so two
      trees over the same leaves differ in length only by their operators. */
  lemma {:induction false} RenderLength(e: Expr)
    ensures |Render(e)| == |Digits(Leaves(e))| + OperatorChars(e)
  {
    match e
    case Num(v) =>
      assert Digits([v]) == IntStr(v) + Digits([]);
    case Bin(_, l, r) =>
      RenderLength(l);
      RenderLength(r);
      DigitsAppend(Leaves(l), Leaves(r));
    case Un(_, a) =>
      RenderLength(a);
  }

  // ---------------------------------------------------------------------
  // Worked examples: a non-integral quotient, a complex power, a negative factorial.

  lemma DivideExamples(o: Oracle)
    ensures Eval(Bin(Divide, Num(7), Num(2)), o) == Err(NonIntegerResult)
    ensures Eval(Bin(Divide, Num(6), Num(2)), o) == Ok(3.0)
  {
    assert !IsInteger(3.5);
  }

  lemma PowerExamples(o: Oracle)
    ensures Eval(Bin(Power, Num(2), Num(-1)), o) == Ok(0.5)
    ensures Eval(Bin(Power, Num(-4), Bin(Power, Num(2), Num(-1))), o) == Err(ComplexResult)
    ensures Eval(Bin(Power, Num(2), Num(2000)), o) == Err(ExponentTooLarge)
  {
    assert Pow(2.0, 1) == 2.0;
    assert !IsInteger(0.5);
  }

  lemma FactorialExamples(o: Oracle)
    ensures Eval(Un(Factorial, Num(-1)), o) == Err(NegativeOperand)
    ensures Eval(Un(Factorial, Num(5)), o) == Ok(120.0)
  {
    assert Int(-1.0) == -1;
    assert Fact(5) == 120 by {
      assert Fact(2) == 2;
      assert Fact(3) == 6;
      assert Fact(4) == 24;
    }
  }

}
