# Calculator library model

A Dafny model of `cal.py`, the small arithmetic helper library. It has six
primitive operations (`add`, `sub`, `mul`, `div`, `power`, `sqrt_num`) and a
dispatcher `calculate(op, a, b=None)`. The dispatcher lower-cases the
operation name, tests it against six alias groups in order, and either calls
the matching primitive or raises `ValueError("Unknown operation: …")`.

Everything is in `cal.dfy`, module `Cal`. It uses these modelling choices:

- Numbers (`int | float`) are exact `real`s.
- Exceptions become the `Err` case of `Result<real>`. The error kinds are:
  - `DivByZero`: the `ZeroDivisionError` that `div` raises.
  - `ZeroToNegativePower`: the `ZeroDivisionError` that the interpreter's own
    `**` raises for a zero base and a negative exponent, with the
    interpreter's text.
  - `NegativeSqrt`: the `ValueError` of `sqrt_num`.
  - `MissingOperand`: the failed `assert b is not None`.
  - `UnknownOp(name)`: the `ValueError` of `calculate`.
  - `NonIntegralExponent`: a fractional exponent, which the model does not
    evaluate (see "Left out"); its text is the model's own.
  `Message` gives the text each one carries.
- The optional `b` is an `Option<real>`.
- `math.sqrt` is a foreign routine. It enters as a parameter
  `root: real -> real`, which is only required to return the non-negative
  square root at the argument it is called on (`SqrtAt`).
  `SqrtNumDetermined` shows that the result does not depend on which such
  routine is passed.
- `power` is modelled for integral exponents. `Power` is the natural-exponent
  product. `IntPower` adds negative exponents: the reciprocal, or
  `ZeroDivisionError` on a zero base, as Python does. `Pow` is `a ** b` for a
  real `b`.
- `str.lower` is ASCII lower-casing (`Lower`), which covers every alias.
- `calculate` is `Calculate`. Each of its branches is `Apply`, which is the
  assertion on `b` followed by the primitive call. The alias groups are
  `Aliases`.

## Model

| member | source | states |
|---|---|---|
| Cal.Message | cal.py:20-52 | The message of an unknown operation ends with the offending name; only the failed assertion has an empty message |
| Cal.Add | cal.py:9-10 | Taking `b` back off `add(a, b)` gives `a` |
| Cal.Sub | cal.py:12-13 | Adding `b` back to `sub(a, b)` gives `a` |
| Cal.Mul | cal.py:15-16 | `mul(a, b)` is zero exactly when a factor is zero |
| Cal.AddCommutes | cal.py:9-10 | `add(a, b) == add(b, a)` |
| Cal.MulCommutes | cal.py:15-16 | `mul(a, b) == mul(b, a)` |
| Cal.SubUndoesAdd | cal.py:9-13 | `sub(add(a, b), b) == a` and `add(sub(a, b), b) == a` |
| Cal.Div | cal.py:18-21 | Fails with `DivByZero` exactly when `b == 0`; otherwise `mul(div(a, b), b) == a` |
| Cal.DivUnique | cal.py:18-21 | The quotient is the unique number that multiplies back to the dividend |
| Cal.Power | cal.py:23-24 | A natural power of a positive base is positive, of a zero base is zero exactly for a positive exponent, and of one is one |
| Cal.PowerAdd | cal.py:23-24 | `a ** (m + n) == a ** m * a ** n` for natural exponents |
| Cal.PowerNonZero | cal.py:23-24 | A non-zero base raised to a natural power is non-zero |
| Cal.PowerOfPower | cal.py:23-24 | `(a ** m) ** n == a ** (m * n)` for natural exponents |
| Cal.IntPower | cal.py:23-24 | Integer exponent: fails with `ZeroToNegativePower` exactly for a zero base and a negative exponent; a natural exponent gives the repeated product; a negative one gives its reciprocal |
| Cal.IntPowerSucc | cal.py:23-24 | `a ** (n + 1) == a * a ** n` for every integer `n` and non-zero `a` |
| Cal.Pow | cal.py:23-24 | `power(a, b)` with an integral `b` fails only for a zero base and a negative `b`, with `ZeroToNegativePower`; a fractional `b` is the model's `NonIntegralExponent` and nothing else is |
| Cal.PowNatural | cal.py:23-24 | `power(a, n)` with a natural `n` succeeds with the repeated product |
| Cal.PowZeroAndSucc | cal.py:23-24 | `power(a, 0) == 1` and `power(a, n + 1) == a * power(a, n)` |
| Cal.PowNegative | cal.py:23-24 | A negative integral exponent fails exactly on a zero base, with `ZeroToNegativePower`, and otherwise gives `1 / a ** n` |
| Cal.SqrtNum | cal.py:26-29 | Fails with `NegativeSqrt` exactly when `a < 0`; otherwise the result `r` has `r >= 0` and `r * r == a` |
| Cal.EqualSquaresOfNonNegatives | cal.py:26-29 | Two non-negative numbers with equal squares are equal, so the square root is unique |
| Cal.SqrtNumOfSquare | cal.py:26-29 | `sqrt_num(x * x) == x` for a non-negative `x` |
| Cal.SqrtNumDetermined | cal.py:29 | `sqrt_num(a)` is the same for every square-root routine that meets its contract at `a` |
| Cal.Lower | cal.py:34 | Lower-casing keeps the length, maps each character to its lower-case form and leaves no upper-case letter |
| Cal.LowerIdempotent | cal.py:34 | Lower-casing twice is lower-casing once |
| Cal.Apply | cal.py:35-51 | A binary branch fails with `MissingOperand` exactly when `b` is absent; no branch reports an unknown operation |
| Cal.Calculate | cal.py:32-52 | The result is the unknown-operation error exactly when the lower-cased name is none of the 17 aliases, and that error carries the lower-cased name |
| Cal.Aliases | cal.py:35-50 | The six alias tuples as sets of lower-case names; its properties are stated by the three lemmas below |
| Cal.AliasGroupSizes | cal.py:35-50 | Each binary alias tuple holds three names and the square-root tuple two |
| Cal.AliasesDisjoint | cal.py:35-50 | The six alias groups are pairwise disjoint, so at most one branch matches |
| Cal.AliasCount | cal.py:35-50 | There are exactly 17 aliases |
| Cal.Dispatch | cal.py:35-51 | Every alias of a group dispatches to that group's primitive, so `+`/`add`/`plus` (and so on) behave the same |
| Cal.CaseInsensitive | cal.py:34 | `calculate(op, a, b) == calculate(op.lower(), a, b)` |
| Cal.SameLowerSameResult | cal.py:34 | Names that agree after lower-casing give the same result |
| Cal.MissingSecondOperand | cal.py:35-51 | With `b` absent, the assertion fails exactly for the 15 binary aliases |
| Cal.SqrtIgnoresSecondOperand | cal.py:50-51 | The `sqrt`/`root` result does not depend on `b` |
| Cal.DivisionByZeroPropagates | cal.py:44-46 | A division alias with a zero divisor propagates the division-by-zero error |
| Cal.ArithmeticExamples | cal.py:32-52 | `calculate("Plus", 2, 3) == 5`, `calculate("/", 1, 0)` fails with division by zero, and `calculate("mod", 2, 3)` fails as unknown |
| Cal.PowerExample | cal.py:47-49 | `calculate("POW", 2, 10) == 1024` |
| Cal.RootDispatch | cal.py:34-51 | `calculate("Root", 9)` lower-cases the name and reaches `sqrt_num(9)` without a second operand |
| Cal.SqrtExample | cal.py:50-51 | `calculate("Root", 9) == 3` |
| Cal.NegativeSqrtExample | cal.py:50-51 | `calculate("sqrt", -4, 1)` fails with the negative-root error |

## Left out

- Floating-point behaviour: rounding, infinities and NaN. Numbers are exact reals.
- OverflowError: the interpreter raises it for a float `**` whose result is too large (cal.py:24), for a true division of integers too large for a float (cal.py:21), and for `math.sqrt` of an integer too large for a float (cal.py:29). With unbounded exact numbers the model never overflows, so it has no such failure.
- Pow: a non-integral exponent is not evaluated. Python gives a real power for a positive base, `0.0` for a zero base and a positive fractional exponent (`0 ** 0.5`), a `ZeroDivisionError` for a zero base and a negative fractional exponent (`0 ** -0.5`), and a complex number for a negative base. The model returns its own error `NonIntegralExponent` for all of these.
- The implementation of `math.sqrt`: it is a foreign routine, specified only by its result, and passed in as `root`.
- Lower: full Unicode `str.lower` is not modelled, only ASCII letters. Every alias is ASCII.
- Aliases: a plain table with no contract of its own; `AliasGroupSizes`, `AliasesDisjoint` and `AliasCount` state its properties.
- Calculate: under `python -O` the `assert b is not None` is removed. `add(a, None)` and its siblings then raise `TypeError`. The model always reports `MissingOperand`.
- Operands that are not numbers, and a non-string `op`, are outside the model's types. In Python some of these calls fail and others succeed: `calculate("+", "a", "b")` gives `"ab"` and `calculate("*", "ab", 3)` gives `"ababab"`.
- `mon.py`, the dashboard script: it is UI, an HTTP client for a statistics API, chart construction and floating-point statistics, with no logic of this library.
