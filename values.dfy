/**
 * The exact part of the numeric type of src/models/value.rs: a value is Null,
 * an arbitrary-precision Integer, a Rational kept in lowest terms with a
 * positive denominator, or a Float. Integer and Rational arithmetic is exact;
 * a Float (an MPFR `rug::Float`) is kept as a sign and a magnitude, and only
 * negation touches it.
 */
module Values {
  import opened Wrappers
  import opened Errors
  import opened Checked

  /** The magnitude of an MPFR float: NaN, infinity, or a finite absolute value held at a precision in bits. */
  datatype Magnitude = NaN | Infinity | Finite(precision: nat, absValue: real)

  /** A Float is the sign and the magnitude of an MPFR float. */
  datatype Value = Null | Integer(i: int) | Rational(num: int, den: int) | Float(negative: bool, magnitude: Magnitude)

  /** `type_name`: the variant's name. */
  function TypeName(v: Value): (s: string)
    ensures s == "Null" <==> v.Null?
    ensures s == "Integer" <==> v.Integer?
    ensures s == "Rational" <==> v.Rational?
    ensures s == "Float" <==> v.Float?
  {
    match v
    case Null => "Null"
    case Integer(_) => "Integer"
    case Rational(_, _) => "Rational"
    case Float(_, _) => "Float"
  }

  /** Two values have the same type name exactly when they are the same variant. */
  lemma TypeNameInjective(v: Value, w: Value)
    ensures TypeName(v) == TypeName(w) <==>
      (v.Null? && w.Null?) || (v.Integer? && w.Integer?) || (v.Rational? && w.Rational?) || (v.Float? && w.Float?)
  {
  }

  /** `Add`: only Integer + Integer is implemented; the sum is exact (no overflow). */
  function Add(x: Value, y: Value): (r: Value)
    requires x.Integer? && y.Integer?
    ensures r.Integer? && r.i == x.i + y.i
  {
    Integer(x.i + y.i)
  }

  /** `Sub`: only Integer - Integer is implemented; the difference is exact. */
  function Sub(x: Value, y: Value): (r: Value)
    requires x.Integer? && y.Integer?
    ensures r.Integer? && r.i == x.i - y.i
  {
    Integer(x.i - y.i)
  }

  /** `Mul`: only Integer * Integer is implemented; the product is exact. */
  function Mul(x: Value, y: Value): (r: Value)
    requires x.Integer? && y.Integer?
    ensures r.Integer? && r.i == x.i * y.i
  {
    Integer(x.i * y.i)
  }

  /** `Neg`: exact for an Integer; for a Float it flips the sign and keeps the magnitude, as MPFR negation does. */
  function Neg(x: Value): (r: Value)
    requires x.Integer? || x.Float?
    ensures x.Integer? ==> r == Integer(-x.i)
    ensures x.Float? ==> r.Float? && r.negative != x.negative && r.magnitude == x.magnitude
  {
    match x
    case Integer(n) => Integer(-n)
    case Float(sign, m) => Float(!sign, m)
  }

  /** Negating twice gives back the value. */
  lemma NegInvolution(x: Value)
    requires x.Integer? || x.Float?
    ensures Neg(Neg(x)) == x
  {
  }

  /** Subtraction undoes addition, and is addition of the negation. */
  lemma SubInvertsAdd(x: Value, y: Value)
    requires x.Integer? && y.Integer?
    ensures Sub(Add(x, y), y) == x
    ensures Sub(x, y) == Add(x, Neg(y))
  {
  }

  /** Integer multiplication distributes over addition and has 1 as its unit. */
  lemma MulDistributes(x: Value, y: Value, z: Value)
    requires x.Integer? && y.Integer? && z.Integer?
    ensures Mul(x, Add(y, z)) == Add(Mul(x, y), Mul(x, z))
    ensures Mul(x, Integer(1)) == x
  {
    assert x.i * (y.i + z.i) == x.i * y.i + x.i * z.i;
  }

  // ---- exact division ----

  lemma MulAtLeast(g: int, m: int)
    requires g > 0 && m >= 1
    ensures g * m >= g
  {
    if m > 1 {
      MulAtLeast(g, m - 1);
      assert g * m == g * (m - 1) + g;
    }
  }

  /** The only multiple of g strictly between -g and g is 0. */
  lemma SmallMultiple(g: int, m: int)
    requires g > 0 && -g < g * m < g
    ensures m == 0
  {
    if m >= 1 {
      MulAtLeast(g, m);
    } else if m <= -1 {
      assert g * -m == -(g * m);
      MulAtLeast(g, -m);
    }
  }

  /** Euclidean quotient and remainder are unique. */
  lemma DivModUnique(n: int, g: int, q: int, r: int)
    requires g > 0 && 0 <= r < g && n == g * q + r
    ensures n / g == q && n % g == r
  {
    var m := q - n / g;
    assert g * m == n % g - r by {
      assert g * q - g * (n / g) == g * m;
    }
    SmallMultiple(g, m);
  }

  lemma DivExact(g: int, k: int)
    requires g > 0
    ensures (g * k) / g == k && (g * k) % g == 0
  {
    DivModUnique(g * k, g, k, 0);
  }

  lemma Cancel(g: int, a: int, b: int)
    requires g > 0 && g * a == g * b
    ensures a == b
  {
    assert g * (a - b) == 0;
    SmallMultiple(g, a - b);
  }

  /** Euclid's algorithm with Bezout coefficients: g = gcd(a, b) = a*s + b*t. */
  function ExtGcd(a: nat, b: nat): (r: (nat, int, int))
    ensures a * r.1 + b * r.2 == r.0
    ensures (a > 0 || b > 0) ==> r.0 > 0 && a % r.0 == 0 && b % r.0 == 0
    decreases b
  {
    if b == 0 then (a, 1, 0)
    else
      var (g, s, t) := ExtGcd(b, a % b);
      ExtGcdStep(a, b, g, s, t);
      (g, t, s - (a / b) * t)
  }

  lemma ExtGcdStep(a: nat, b: nat, g: nat, s: int, t: int)
    requires b > 0 && b * s + (a % b) * t == g
    requires g > 0 && b % g == 0 && (a % b) % g == 0
    ensures a * t + b * (s - (a / b) * t) == g
    ensures a % g == 0
  {
    var q := a / b;
    assert a == q * b + a % b;
    assert a * t + b * (s - q * t) == b * s + (a - q * b) * t;
    var k1, k2 := b / g, (a % b) / g;
    assert b == g * k1 + b % g;
    assert a % b == g * k2 + (a % b) % g;
    assert q * b == g * (q * k1);
    assert a == g * (q * k1 + k2);
    DivExact(g, q * k1 + k2);
  }

  /** No integer greater than 1 divides both n and d. */
  ghost predicate Coprime(n: int, d: int) {
    forall c: int {:trigger n % c, d % c} :: c > 1 ==> !(n % c == 0 && d % c == 0)
  }

  lemma BezoutCoprime(n: int, d: int, s: int, t: int)
    requires n * s + d * t == 1
    ensures Coprime(n, d)
  {
    forall c: int | c > 1 && n % c == 0 && d % c == 0
      ensures false
    {
      var k1, k2 := n / c, d / c;
      assert n == c * k1 && d == c * k2;
      assert c * (k1 * s + k2 * t) == 1 by {
        assert n * s == c * (k1 * s);
        assert d * t == c * (k2 * t);
      }
      SmallMultiple(c, k1 * s + k2 * t - 0);
    }
  }

  /** `Rational::from((n, d))`: the fraction n/d in lowest terms with a positive denominator. */
  function Reduce(n: int, d: int): (r: Value)
    requires d != 0
    ensures r.Rational? && r.den > 0 && r.num * d == n * r.den
  {
    var (g, s, t) := ExtGcd(Abs(n), Abs(d));
    var signed := if d < 0 then -n else n;
    ReduceExact(n, d, g, signed);
    Rational(signed / g, Abs(d) / g)
  }

  function Abs(n: int): (r: nat)
    ensures r == n || r == -n
  {
    if n < 0 then -n else n
  }

  lemma ExactQuotient(a: int, g: int)
    requires g > 0 && a % g == 0
    ensures a == g * (a / g) && (-a) / g == -(a / g)
  {
    assert a == g * (a / g) + a % g;
    DivExact(g, -(a / g));
  }

  lemma PositiveFactor(g: int, q: int)
    requires g > 0 && g * q > 0
    ensures q > 0
  {
  }

  lemma ScaledProducts(g: int, m: int, q: int, d: int, n: int)
    requires g > 0 && (g * m) * d == n * (g * q)
    ensures m * d == n * q
  {
    assert g * (m * d) == (g * m) * d;
    assert n * (g * q) == g * (n * q);
    Cancel(g, m * d, n * q);
  }

  lemma ReduceExact(n: int, d: int, g: nat, signed: int)
    requires d != 0 && g > 0 && Abs(n) % g == 0 && Abs(d) % g == 0
    requires signed == if d < 0 then -n else n
    ensures Abs(d) / g > 0 && (signed / g) * d == n * (Abs(d) / g)
    ensures signed == g * (signed / g) && Abs(d) == g * (Abs(d) / g)
  {
    ExactQuotient(Abs(n), g);
    ExactQuotient(Abs(d), g);
    var p, q := Abs(n) / g, Abs(d) / g;
    var m := signed / g;
    var a: int := Abs(n);
    assert signed == g * m by {
      if signed != a {
        assert signed == -a;
      }
    }
    PositiveFactor(g, q);
    assert signed * d == n * Abs(d);
    ScaledProducts(g, m, q, d, n);
  }

  /** The Bezout identity survives the reduction, so a reduced fraction is in lowest terms. */
  ghost function ReducedBezout(n: int, d: int): (st: (int, int))
    requires d != 0
  {
    var (g, s, t) := ExtGcd(Abs(n), Abs(d));
    (if (d < 0) == (n < 0) then s else -s, t)
  }

  lemma FactorOut(g: int, m: int, s: int, q: int, t: int)
    ensures (g * m) * s + (g * q) * t == g * (m * s + q * t)
  {
  }

  lemma ReduceBezout(n: int, d: int)
    requires d != 0
    ensures Reduce(n, d).num * ReducedBezout(n, d).0 + Reduce(n, d).den * ReducedBezout(n, d).1 == 1
  {
    var (g, s0, t0) := ExtGcd(Abs(n), Abs(d));
    var a: int := Abs(n);
    var signed := if d < 0 then -n else n;
    ReduceExact(n, d, g, signed);
    var m, q := signed / g, Abs(d) / g;
    var (s, t) := ReducedBezout(n, d);
    assert signed * s == a * s0 by {
      if signed != a {
        assert signed == -a && s == -s0;
      }
    }
    assert (g * m) * s + (g * q) * t == g;
    FactorOut(g, m, s, q, t);
    Cancel(g, m * s + q * t, 1);
  }

  /** If n*s + d*t == 1 and n/d == n'/d', then d divides d'. */
  lemma DividesOther(n: int, d: int, s: int, t: int, n': int, d': int)
    requires n * s + d * t == 1 && n * d' == n' * d
    ensures d' == d * (n' * s + d' * t)
  {
    calc {
      d';
      d' * (n * s + d * t);
      (n * d') * s + d * (d' * t);
      (n' * d) * s + d * (d' * t);
      d * (n' * s) + d * (d' * t);
      d * (n' * s + d' * t);
    }
  }

  /** Two fractions in Bezout form that are equal as numbers are the same pair. */
  lemma ReducedUnique(n: int, d: int, s: int, t: int, n': int, d': int, s': int, t': int)
    requires d > 0 && d' > 0 && n * s + d * t == 1 && n' * s' + d' * t' == 1
    requires n * d' == n' * d
    ensures n == n' && d == d'
  {
    DividesOther(n, d, s, t, n', d');
    DividesOther(n', d', s', t', n, d);
    var k, k' := n' * s + d' * t, n * s' + d * t';
    PositiveFactor(d, k);
    PositiveFactor(d', k');
    assert d * 1 == d * (k * k') by {
      assert d == (d * k) * k';
    }
    Cancel(d, 1, k * k');
    if k > 1 {
      MulAtLeast(k, k');
    }
    assert d * n' == d * n;
    Cancel(d, n', n);
  }

  /** `Div`: Integer / Integer is the exact Rational in lowest terms, or DivisionByZero. */
  function Div(x: Value, y: Value): (r: Result<Value, EvalError>)
    requires x.Integer? && y.Integer?
    ensures r.Err? <==> y.i == 0
    ensures r.Err? ==> r.error == DivisionByZero
    ensures r.Ok? ==> r.value.Rational? && r.value.den > 0 && Coprime(r.value.num, r.value.den)
                      && r.value.num * y.i == x.i * r.value.den
  {
    if y.i == 0 then Err(DivisionByZero)
    else
      var q := Reduce(x.i, y.i);
      ReduceBezout(x.i, y.i);
      BezoutCoprime(q.num, q.den, ReducedBezout(x.i, y.i).0, ReducedBezout(x.i, y.i).1);
      Ok(q)
  }

  lemma CancelNonZero(g: int, a: int, b: int)
    requires g != 0 && g * a == g * b
    ensures a == b
  {
    if g > 0 {
      Cancel(g, a, b);
    } else {
      assert (-g) * a == (-g) * b;
      Cancel(-g, a, b);
    }
  }

  lemma CrossProducts(x: int, y: int, n: int, d: int, x': int, y': int, n': int, d': int)
    requires n * y == x * d && n' * y' == x' * d'
    ensures (y * y') * (n * d') == (d * d') * (x * y')
    ensures (y * y') * (n' * d) == (d * d') * (x' * y)
  {
    calc {
      (y * y') * (n * d');
      (n * y) * (y' * d');
      (x * d) * (y' * d');
      (d * d') * (x * y');
    }
    calc {
      (y * y') * (n' * d);
      (n' * y') * (y * d);
      (x' * d') * (y * d);
      (d * d') * (x' * y);
    }
  }

  /** Two quotients are the same value exactly when the fractions are equal: the Rational form is canonical. */
  lemma DivCanonical(x: Value, y: Value, x': Value, y': Value)
    requires x.Integer? && y.Integer? && x'.Integer? && y'.Integer? && y.i != 0 && y'.i != 0
    ensures Div(x, y) == Div(x', y') <==> x.i * y'.i == x'.i * y.i
  {
    var r, r' := Div(x, y).value, Div(x', y').value;
    CrossProducts(x.i, y.i, r.num, r.den, x'.i, y'.i, r'.num, r'.den);
    PositiveFactor(r.den, r'.den);
    if x.i * y'.i == x'.i * y.i {
      assert y.i * y'.i != 0;
      CancelNonZero(y.i * y'.i, r.num * r'.den, r'.num * r.den);
      ReduceBezout(x.i, y.i);
      ReduceBezout(x'.i, y'.i);
      var (s, t) := ReducedBezout(x.i, y.i);
      var (s', t') := ReducedBezout(x'.i, y'.i);
      ReducedUnique(r.num, r.den, s, t, r'.num, r'.den, s', t');
    }
    if r == r' {
      assert r.den * r.den > 0 by {
        PositiveFactor(r.den, r.den);
      }
      CancelNonZero(r.den * r'.den, x.i * y'.i, x'.i * y.i);
    }
  }

  // ---- Euclidean remainder ----

  /** Quotient and remainder by a divisor of either sign are unique. */
  lemma DivModUniqueSigned(n: int, y: int, q: int, r: int)
    requires y != 0 && 0 <= r < Abs(y) && n == y * q + r
    ensures n / y == q && n % y == r
  {
    var m := q - n / y;
    assert y * m == n % y - r by {
      assert y * q - y * (n / y) == y * m;
    }
    if y > 0 {
      SmallMultiple(y, m);
    } else {
      assert (-y) * (-m) == y * m;
      SmallMultiple(-y, -m);
    }
  }

  /** `rem_euclid`: Integer remainder, never negative and below the divisor's magnitude, or DivisionByZero. */
  function RemEuclid(x: Value, y: Value): (r: Result<Value, EvalError>)
    requires x.Integer? && y.Integer?
    ensures r.Err? <==> y.i == 0
    ensures r.Err? ==> r.error == DivisionByZero
    ensures r.Ok? ==> r.value.Integer? && 0 <= r.value.i < Abs(y.i) && (x.i - r.value.i) % y.i == 0
  {
    if y.i == 0 then Err(DivisionByZero)
    else
      var rem := x.i % y.i;
      DivModUniqueSigned(x.i - rem, y.i, x.i / y.i, 0);
      Ok(Integer(rem))
  }

  /** The remainder is the only r with 0 <= r < |y| and x = q*y + r. */
  lemma RemEuclidUnique(x: int, y: int, q: int, r: int)
    requires y != 0 && 0 <= r < Abs(y) && x == y * q + r
    ensures RemEuclid(Integer(x), Integer(y)) == Ok(Integer(r))
  {
    DivModUniqueSigned(x, y, q, r);
  }

  // ---- powers ----

  /** Largest value of a u32 exponent. */
  const U32Max: nat := 0xFFFF_FFFF

  function IntPow(x: int, n: nat): int {
    if n == 0 then 1 else IntPow(x, n - 1) * x
  }

  /** `pow`: an Integer to a non-negative Integer power is the exact Integer power. */
  function Pow(x: Value, y: Value): (r: Value)
    requires x.Integer? && y.Integer? && 0 <= y.i <= U32Max
    ensures r.Integer?
    ensures y.i == 1 ==> r == x
    ensures y.i == 0 ==> r == Integer(1)
  {
    assert IntPow(x.i, 1) == IntPow(x.i, 0) * x.i;
    Integer(IntPow(x.i, y.i))
  }

  /** x^0 is 1, and x^(a+b) is x^a * x^b. */
  lemma {:induction false} PowAdds(x: Value, a: nat, b: nat)
    requires x.Integer? && a + b <= U32Max
    ensures Pow(x, Integer(0)) == Integer(1)
    ensures Pow(x, Integer(a + b)) == Mul(Pow(x, Integer(a)), Pow(x, Integer(b)))
    decreases b
  {
    if b > 0 {
      PowAdds(x, a, b - 1);
      calc {
        IntPow(x.i, a + b);
        IntPow(x.i, a + b - 1) * x.i;
        (IntPow(x.i, a) * IntPow(x.i, b - 1)) * x.i;
        IntPow(x.i, a) * (IntPow(x.i, b - 1) * x.i);
        IntPow(x.i, a) * IntPow(x.i, b);
      }
    }
  }

  // ---- factorial ----

  /** `factorial`: n! of a non-negative Integer, accumulated in a checked i32. */
  function Factorial(v: Value): (r: Result<Value, EvalError>)
    ensures !v.Integer? ==> r == Err(TypeError("Integer", TypeName(v)))
    ensures v.Integer? && v.i < 0 ==> r == Err(MathDomain)
    ensures r.Ok? ==> r.value.Integer? && r.value.i <= I32Max
  {
    match v
    case Integer(n) =>
      if n < 0 then Err(MathDomain)
      else
        (match CheckedFactorial(n, I32Max)
         case Some(k) => CheckedFactorialFits(n, I32Max); Ok(Integer(k))
         case None => Err(Overflow))
    case _ => Err(TypeError("Integer", TypeName(v)))
  }

  /** The i32 accumulator holds 12! but not 13!. */
  lemma FactorialI32(n: nat)
    ensures n <= 12 ==> Factorial(Integer(n)) == Ok(Integer(Fact(n)))
    ensures n >= 13 ==> Factorial(Integer(n)) == Err(Overflow)
  {
    I32Threshold();
    CheckedFactorialThreshold(n, I32Max, 12);
  }
}
