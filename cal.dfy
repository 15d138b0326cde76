/**
 A model of the simple calculator library: six arithmetic primitives over
 exact numbers and a dispatcher that selects one of them by a
 case-insensitive operation name.

 Numbers are exact reals. The exceptions the library raises become the
 `Err` case of a `Result`. The square root comes from a foreign routine,
 so it enters the model as a parameter `root` that is only required to
 return the non-negative square root at the point where it is called.
 */
module Cal {

  datatype Option<+T> = None | Some(value: T)

  /** Why an operation fails. */
  datatype Error =
    | DivByZero            // ZeroDivisionError from div
    | ZeroToNegativePower  // ZeroDivisionError from the interpreter's `**` on a zero base
    | NegativeSqrt         // ValueError from sqrt_num
    | MissingOperand       // the failed `assert b is not None` of a binary operation
    | UnknownOp(name: string)  // ValueError from calculate, carrying the lower-cased name
    | NonIntegralExponent  // a fractional exponent, which this model does not evaluate

  datatype Result<+T> = Ok(value: T) | Err(error: Error)

  /** The text of the exception each failure raises. */
  function Message(e: Error): (m: string)
    ensures e.UnknownOp? ==> |m| >= |e.name| && m[|m| - |e.name|..] == e.name
    ensures e.MissingOperand? <==> m == ""
  {
    match e
    case DivByZero => "Division by zero is not allowed."
    case ZeroToNegativePower => "0.0 cannot be raised to a negative power"
    case NegativeSqrt => "Cannot take square root of negative number."
    case MissingOperand => ""
    case UnknownOp(name) => "Unknown operation: " + name
    case NonIntegralExponent => "Non-integral exponent."
  }

  // ---------------------------------------------------------------------
  // The primitives
  // ---------------------------------------------------------------------

  /** The sum: taking `b` back off it gives `a`. */
  function Add(a: real, b: real): (r: real)
    ensures r - b == a
  {
    a + b
  }

  /** The difference: adding `b` back to it gives `a`. */
  function Sub(a: real, b: real): (r: real)
    ensures r + b == a
  {
    a - b
  }

  /** The product: zero exactly when a factor is zero. */
  function Mul(a: real, b: real): (r: real)
    ensures r == 0.0 <==> a == 0.0 || b == 0.0
  {
    a * b
  }

  lemma AddCommutes(a: real, b: real)
    ensures Add(a, b) == Add(b, a)
  {
  }

  lemma MulCommutes(a: real, b: real)
    ensures Mul(a, b) == Mul(b, a)
  {
  }

  /** Subtraction undoes addition, and addition undoes subtraction. */
  lemma SubUndoesAdd(a: real, b: real)
    ensures Sub(Add(a, b), b) == a
    ensures Add(Sub(a, b), b) == a
  {
  }

  /**
   Division fails exactly on a zero divisor; otherwise its quotient,
   multiplied back by the divisor, gives the dividend.
   */
  function Div(a: real, b: real): (r: Result<real>)
    ensures r.Err? <==> b == 0.0
    ensures r.Err? ==> r.error == DivByZero
    ensures r.Ok? ==> Mul(r.value, b) == a
  {
    if b == 0.0 then Err(DivByZero) else Ok(a / b)
  }

  /** The quotient is the only number that multiplies back to the dividend. */
  lemma DivUnique(a: real, b: real, q: real)
    requires b != 0.0
    requires Mul(q, b) == a
    ensures Div(a, b) == Ok(q)
  {
    var r := Div(a, b).value;
    assert Mul(r, b) == a;
    assert (r - q) * b == 0.0;
    assert r - q == ((r - q) * b) / b;
  }

  /**
   `a` raised to a natural exponent, by repeated multiplication: a positive
   base gives a positive power, and a zero base a zero power unless the
   exponent is zero.
   */
  function Power(a: real, n: nat): (r: real)
    ensures 0.0 < a ==> 0.0 < r
    ensures a == 0.0 ==> (r == 0.0 <==> n > 0)
    ensures a == 1.0 ==> r == 1.0
  {
    if n == 0 then 1.0 else a * Power(a, n - 1)
  }

  lemma {:induction false} PowerAdd(a: real, m: nat, n: nat)
    ensures Power(a, m + n) == Power(a, m) * Power(a, n)
    decreases m
  {
    if m > 0 {
      PowerAdd(a, m - 1, n);
      assert Power(a, m + n) == a * Power(a, m - 1 + n);
    }
  }

  lemma {:induction false} PowerNonZero(a: real, n: nat)
    requires a != 0.0
    ensures Power(a, n) != 0.0
  {
    if n > 0 {
      PowerNonZero(a, n - 1);
    }
  }

  lemma {:induction false} PowerOfPower(a: real, m: nat, n: nat)
    ensures Power(Power(a, m), n) == Power(a, m * n)
  {
    if n > 0 {
      PowerOfPower(a, m, n - 1);
      PowerAdd(a, m, m * (n - 1));
      assert m + m * (n - 1) == m * n;
    }
  }

  /**
   `a ** n` for an integer exponent: a negative exponent gives the
   reciprocal of the positive power, and fails on a zero base.
   */
  function IntPower(a: real, n: int): (r: Result<real>)
    ensures r.Err? <==> n < 0 && a == 0.0
    ensures r.Err? ==> r.error == ZeroToNegativePower
    ensures r.Ok? && n >= 0 ==> r.value == Power(a, n)
    ensures r.Ok? && n < 0 ==> Mul(r.value, Power(a, -n)) == 1.0
  {
    if n >= 0 then Ok(Power(a, n))
    else if a == 0.0 then Err(ZeroToNegativePower)
    else
      PowerNonZero(a, -n);
      Ok(1.0 / Power(a, -n))
  }

  /** One more factor of the base raises any integer exponent by one. */
  lemma IntPowerSucc(a: real, n: int)
    requires a != 0.0
    ensures IntPower(a, n).Ok? && IntPower(a, n + 1).Ok?
    ensures IntPower(a, n + 1).value == a * IntPower(a, n).value
  {
    if n < -1 {
      var p := Power(a, -n - 1);
      PowerNonZero(a, -n - 1);
      assert Power(a, -n) == a * p;
      calc {
        a * IntPower(a, n).value;
        a * (1.0 / (a * p));
        1.0 / p;
      }
    }
  }

  predicate IsIntegral(x: real)
  {
    x == x.Floor as real
  }

  /**
   `a ** b` where the exponent is an arbitrary number: an integral exponent
   succeeds except for a zero base and a negative exponent; a fractional
   exponent is outside the model.
   */
  function Pow(a: real, b: real): (r: Result<real>)
    ensures !IsIntegral(b) <==> r == Err(NonIntegralExponent)
    ensures r == Err(ZeroToNegativePower) <==> IsIntegral(b) && b < 0.0 && a == 0.0
    ensures r.Err? ==> r == Err(NonIntegralExponent) || r == Err(ZeroToNegativePower)
  {
    if IsIntegral(b) then IntPower(a, b.Floor) else Err(NonIntegralExponent)
  }

  /** A natural exponent gives the repeated product. */
  lemma PowNatural(a: real, n: nat)
    ensures Pow(a, n as real) == Ok(Power(a, n))
  {
    var b := n as real;
    assert b.Floor == n;
    assert IsIntegral(b);
    assert IntPower(a, n) == Ok(Power(a, n));
  }

  /** `a ** 0 == 1` and `a ** (n + 1) == a * a ** n` for a natural `n`. */
  lemma PowZeroAndSucc(a: real, n: nat)
    ensures Pow(a, 0.0) == Ok(1.0)
    ensures Pow(a, n as real).Ok? && Pow(a, (n + 1) as real).Ok?
    ensures Pow(a, (n + 1) as real).value == a * Pow(a, n as real).value
  {
    PowNatural(a, 0);
    PowNatural(a, n);
    PowNatural(a, n + 1);
  }

  /** A negative integral exponent fails exactly on a zero base and otherwise gives the reciprocal. */
  lemma PowNegative(a: real, n: nat)
    requires n > 0
    ensures Pow(a, -(n as real)).Err? <==> a == 0.0
    ensures a == 0.0 ==> Pow(a, -(n as real)) == Err(ZeroToNegativePower)
    ensures a != 0.0 ==> Pow(a, -(n as real)) == Ok(1.0 / Power(a, n))
  {
    assert (-(n as real)).Floor == -(n as int);
  }

  /** `root` returns the non-negative square root at `x`, when `x` has one. */
  predicate SqrtAt(root: real -> real, x: real)
  {
    0.0 <= x ==> 0.0 <= root(x) && root(x) * root(x) == x
  }

  /**
   The square root fails exactly on a negative argument; otherwise its
   result is non-negative and squares back to the argument.
   */
  function SqrtNum(a: real, root: real -> real): (r: Result<real>)
    requires SqrtAt(root, a)
    ensures r.Err? <==> a < 0.0
    ensures r.Err? ==> r.error == NegativeSqrt
    ensures r.Ok? ==> 0.0 <= r.value && r.value * r.value == a
  {
    if a < 0.0 then Err(NegativeSqrt) else Ok(root(a))
  }

  /** Two non-negative numbers with equal squares are equal. */
  lemma EqualSquaresOfNonNegatives(x: real, y: real)
    requires 0.0 <= x && 0.0 <= y && x * x == y * y
    ensures x == y
  {
    assert (x - y) * (x + y) == 0.0;
    if x + y != 0.0 {
      assert x - y == ((x - y) * (x + y)) / (x + y);
    }
  }

  /** The square root of the square of a non-negative number is that number. */
  lemma SqrtNumOfSquare(a: real, x: real, root: real -> real)
    requires 0.0 <= x && x * x == a && SqrtAt(root, a)
    ensures SqrtNum(a, root) == Ok(x)
  {
    EqualSquaresOfNonNegatives(root(a), x);
  }

  /** The square root does not depend on which conforming routine computes it. */
  lemma SqrtNumDetermined(a: real, root1: real -> real, root2: real -> real)
    requires SqrtAt(root1, a) && SqrtAt(root2, a)
    ensures SqrtNum(a, root1) == SqrtNum(a, root2)
  {
    if 0.0 <= a {
      EqualSquaresOfNonNegatives(root1(a), root2(a));
    }
  }

  // ---------------------------------------------------------------------
  // The dispatcher
  // ---------------------------------------------------------------------

  predicate IsUpper(c: char)
  {
    'A' <= c <= 'Z'
  }

  function LowerChar(c: char): char
  {
    if IsUpper(c) then (c as int + 32) as char else c
  }

  /** ASCII lower-casing: every upper-case letter is replaced by its lower-case form, position by position. */
  function Lower(s: string): (r: string)
    ensures |r| == |s|
    ensures forall i :: 0 <= i < |s| ==> r[i] == LowerChar(s[i])
    ensures forall i :: 0 <= i < |r| ==> !IsUpper(r[i])
  {
    if s == [] then [] else [LowerChar(s[0])] + Lower(s[1..])
  }

  lemma LowerIdempotent(s: string)
    ensures Lower(Lower(s)) == Lower(s)
  {
    var t := Lower(s);
    assert forall i :: 0 <= i < |t| ==> LowerChar(t[i]) == t[i];
  }

  /** The operations `calculate` dispatches to. */
  datatype Primitive = AddOp | SubOp | MulOp | DivOp | PowerOp | SqrtOp

  /** The lower-case names that select each primitive. */
  function Aliases(p: Primitive): set<string>
  {
    match p
    case AddOp => {"+", "add", "plus"}
    case SubOp => {"-", "sub", "minus"}
    case MulOp => {"*", "mul", "times"}
    case DivOp => {"/", "div", "divide"}
    case PowerOp => {"^", "pow", "power"}
    case SqrtOp => {"sqrt", "root"}
  }

  function AllAliases(): set<string>
  {
    Aliases(AddOp) + Aliases(SubOp) + Aliases(MulOp)
      + Aliases(DivOp) + Aliases(PowerOp) + Aliases(SqrtOp)
  }

  /**
   One branch of the dispatcher: a binary primitive asserts that `b` is
   present and then computes; the square root ignores `b`.
   */
  function Apply(p: Primitive, a: real, b: Option<real>, root: real -> real): (r: Result<real>)
    requires SqrtAt(root, a)
    ensures r.Err? ==> !r.error.UnknownOp?
    ensures p != SqrtOp ==> (b.None? <==> r == Err(MissingOperand))
  {
    match p
    case AddOp => if b.None? then Err(MissingOperand) else Ok(Add(a, b.value))
    case SubOp => if b.None? then Err(MissingOperand) else Ok(Sub(a, b.value))
    case MulOp => if b.None? then Err(MissingOperand) else Ok(Mul(a, b.value))
    case DivOp => if b.None? then Err(MissingOperand) else Div(a, b.value)
    case PowerOp => if b.None? then Err(MissingOperand) else Pow(a, b.value)
    case SqrtOp => SqrtNum(a, root)
  }

  /**
   `calculate(op, a, b)`: lower-case the name, try the alias groups in
   order, and fail with the lower-cased name when none matches. A name
   outside the seventeen aliases, and only such a name, fails as unknown.
   */
  function Calculate(op: string, a: real, b: Option<real>, root: real -> real): (r: Result<real>)
    requires SqrtAt(root, a)
    ensures r.Err? && r.error.UnknownOp? <==> Lower(op) !in AllAliases()
    ensures r.Err? && r.error.UnknownOp? ==> r.error.name == Lower(op)
  {
    var name := Lower(op);
    if name in Aliases(AddOp) then Apply(AddOp, a, b, root)
    else if name in Aliases(SubOp) then Apply(SubOp, a, b, root)
    else if name in Aliases(MulOp) then Apply(MulOp, a, b, root)
    else if name in Aliases(DivOp) then Apply(DivOp, a, b, root)
    else if name in Aliases(PowerOp) then Apply(PowerOp, a, b, root)
    else if name in Aliases(SqrtOp) then Apply(SqrtOp, a, b, root)
    else Err(UnknownOp(name))
  }

  // ---------------------------------------------------------------------
  // Properties of the dispatcher
  // ---------------------------------------------------------------------

  /** No name belongs to two alias groups, so at most one branch can match. */
  lemma AliasesDisjoint(p: Primitive, q: Primitive)
    requires p != q
    ensures Aliases(p) !! Aliases(q)
  {
  }

  /** Each binary primitive has three names, and the square root two. */
  lemma AliasGroupSizes(p: Primitive)
    ensures |Aliases(p)| == if p == SqrtOp then 2 else 3
  {
  }

  /** There are seventeen distinct aliases. */
  lemma AliasCount()
    ensures |AllAliases()| == 17
  {
    forall p, q | p != q ensures Aliases(p) !! Aliases(q) {
      AliasesDisjoint(p, q);
    }
    assert |Aliases(AddOp)| == 3 && |Aliases(SubOp)| == 3 && |Aliases(MulOp)| == 3;
    assert |Aliases(DivOp)| == 3 && |Aliases(PowerOp)| == 3 && |Aliases(SqrtOp)| == 2;
  }

  /** Every alias of a group selects that group's primitive, whatever the order of the tests. */
  lemma Dispatch(op: string, p: Primitive, a: real, b: Option<real>, root: real -> real)
    requires SqrtAt(root, a)
    requires Lower(op) in Aliases(p)
    ensures Calculate(op, a, b, root) == Apply(p, a, b, root)
  {
    forall q | q != p ensures Lower(op) !in Aliases(q) {
      AliasesDisjoint(p, q);
    }
  }

  /** The dispatcher reads the operation name only through its lower-case form. */
  lemma CaseInsensitive(op: string, a: real, b: Option<real>, root: real -> real)
    requires SqrtAt(root, a)
    ensures Calculate(op, a, b, root) == Calculate(Lower(op), a, b, root)
  {
    LowerIdempotent(op);
  }

  /** Two names that agree after lower-casing select the same result. */
  lemma SameLowerSameResult(op1: string, op2: string, a: real, b: Option<real>, root: real -> real)
    requires SqrtAt(root, a)
    requires Lower(op1) == Lower(op2)
    ensures Calculate(op1, a, b, root) == Calculate(op2, a, b, root)
  {
  }

  /** Without a second operand, exactly the binary aliases fail their assertion. */
  lemma MissingSecondOperand(op: string, a: real, root: real -> real)
    requires SqrtAt(root, a)
    ensures Calculate(op, a, None, root) == Err(MissingOperand)
      <==> Lower(op) in AllAliases() - Aliases(SqrtOp)
  {
    var name := Lower(op);
    if name in Aliases(SqrtOp) {
      Dispatch(op, SqrtOp, a, None, root);
      assert Calculate(op, a, None, root) == SqrtNum(a, root);
    }
  }

  /** The square root aliases ignore the second operand. */
  lemma SqrtIgnoresSecondOperand(op: string, a: real, b1: Option<real>, b2: Option<real>, root: real -> real)
    requires SqrtAt(root, a)
    requires Lower(op) in Aliases(SqrtOp)
    ensures Calculate(op, a, b1, root) == Calculate(op, a, b2, root) == SqrtNum(a, root)
  {
    Dispatch(op, SqrtOp, a, b1, root);
    Dispatch(op, SqrtOp, a, b2, root);
  }

  /** A division alias with a zero divisor propagates the division error. */
  lemma DivisionByZeroPropagates(op: string, a: real, root: real -> real)
    requires SqrtAt(root, a)
    requires Lower(op) in Aliases(DivOp)
    ensures Calculate(op, a, Some(0.0), root) == Err(DivByZero)
  {
    Dispatch(op, DivOp, a, Some(0.0), root);
  }

  /** Concrete calls with names in mixed case: the arithmetic aliases. */
  lemma ArithmeticExamples(root: real -> real)
    requires SqrtAt(root, 2.0) && SqrtAt(root, 1.0)
    ensures Calculate("Plus", 2.0, Some(3.0), root) == Ok(5.0)
    ensures Calculate("/", 1.0, Some(0.0), root) == Err(DivByZero)
    ensures Calculate("mod", 2.0, Some(3.0), root) == Err(UnknownOp("mod"))
  {
    assert Lower("Plus") == "plus";
    assert Lower("/") == "/";
    assert Lower("mod") == "mod";
  }

  /** `2 ** 10` through the dispatcher. */
  lemma PowerExample(root: real -> real)
    requires SqrtAt(root, 2.0)
    ensures Calculate("POW", 2.0, Some(10.0), root) == Ok(1024.0)
  {
    assert Lower("POW") == "pow";
    Dispatch("POW", PowerOp, 2.0, Some(10.0), root);
    PowNatural(2.0, 10);
    assert (10 as real) == 10.0;
    assert Power(2.0, 10) == 1024.0;
  }

  /** `Root`, in any case, dispatches to the square root and ignores the missing operand. */
  lemma RootDispatch(root: real -> real)
    requires SqrtAt(root, 9.0)
    ensures Calculate("Root", 9.0, None, root) == SqrtNum(9.0, root)
  {
    assert Lower("Root") == "root";
    Dispatch("Root", SqrtOp, 9.0, None, root);
  }

  /** The square root of a perfect square through the dispatcher. */
  lemma SqrtExample(root: real -> real)
    requires SqrtAt(root, 9.0)
    ensures Calculate("Root", 9.0, None, root) == Ok(3.0)
  {
    RootDispatch(root);
    SqrtNumOfSquare(9.0, 3.0, root);
  }

  /** A negative argument fails, whatever the second operand. */
  lemma NegativeSqrtExample(root: real -> real)
    requires SqrtAt(root, -4.0)
    ensures Calculate("sqrt", -4.0, Some(1.0), root) == Err(NegativeSqrt)
  {
    assert Lower("sqrt") == "sqrt";
    Dispatch("sqrt", SqrtOp, -4.0, Some(1.0), root);
  }
}
