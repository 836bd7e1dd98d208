/** Integer number theory shared by every module of the model: powers,
    divisibility, the greatest common divisor and its Bezout coefficients,
    and the congruence facts the modular algorithms rely on. */
module NumberTheory {

  function Abs(x: int): nat
  {
    if x < 0 then -x else x
  }

  /** b raised to the natural power e. */
  function Pow(b: int, e: nat): int
    decreases e
  {
    if e == 0 then 1 else b * Pow(b, e - 1)
  }

  /** d divides x. */
  ghost predicate Divides(d: int, x: int)
  {
    exists k :: x == d * k
  }

  /** Primality in its textbook sense: no divisor strictly between 1 and n. */
  ghost predicate Prime(n: int)
  {
    n >= 2 && forall k :: 2 <= k < n ==> n % k != 0
  }

  /** Euclid's algorithm on natural numbers; the reference meaning of "gcd". */
  function Gcd(a: nat, b: nat): nat
    decreases b
  {
    if b == 0 then a else Gcd(b, a % b)
  }

  // ---------------------------------------------------------------------
  // Division and remainder

  lemma DivModUnique(x: int, m: int, q: int, r: int)
    requires m > 0 && x == m * q + r && 0 <= r < m
    ensures x % m == r && x / m == q
  {
    var q0, r0 := x / m, x % m;
    assert m * (q - q0) == r0 - r;
    if q > q0 {
      MulAtLeast(m, q - q0);
    } else if q < q0 {
      MulAtLeast(m, q0 - q);
    }
  }

  lemma MulAtLeast(m: int, k: int)
    requires m > 0 && k >= 1
    ensures m * k >= m
  {
    assert m * k == m + m * (k - 1);
  }

  lemma MulMonotone(a: int, b: int, c: int)
    requires 0 <= a <= b && c >= 0
    ensures a * c <= b * c
  {
    assert b * c == a * c + (b - a) * c;
  }

  lemma ModAddMultiple(a: int, k: int, m: int)
    requires m > 0
    ensures (a + m * k) % m == a % m
  {
    DivModUnique(a + m * k, m, a / m + k, a % m);
  }

  lemma ModMulLeft(x: int, y: int, m: int)
    requires m > 0
    ensures ((x % m) * y) % m == (x * y) % m
  {
    var q := x / m;
    assert x * y == (x % m) * y + m * (q * y);
    ModAddMultiple((x % m) * y, q * y, m);
  }

  lemma ModMulRight(x: int, y: int, m: int)
    requires m > 0
    ensures (x * (y % m)) % m == (x * y) % m
  {
    ModMulLeft(y, x, m);
  }

  lemma ModAddLeft(x: int, y: int, m: int)
    requires m > 0
    ensures ((x % m) + y) % m == (x + y) % m
  {
    ModAddMultiple((x % m) + y, x / m, m);
  }

  lemma ModOfMod(x: int, m: int)
    requires m > 0
    ensures (x % m) % m == x % m
  {
    DivModUnique(x % m, m, 0, x % m);
  }

  lemma DividesIffModZero(d: int, x: int)
    requires d > 0
    ensures Divides(d, x) <==> x % d == 0
  {
    if x % d == 0 {
      assert x == d * (x / d);
    }
    if Divides(d, x) {
      var k :| x == d * k;
      DivModUnique(x, d, k, 0);
    }
  }

  lemma DividesLe(d: int, x: int)
    requires d > 0 && x > 0 && Divides(d, x)
    ensures d <= x
  {
    var k :| x == d * k;
    if k <= 0 {
      assert d * k == -(d * -k);
      if k < 0 { MulAtLeast(d, -k); }
    } else {
      MulAtLeast(d, k);
    }
  }

  lemma DividesAbs(c: int, x: int)
    ensures Divides(c, Abs(x)) <==> Divides(c, x)
  {
    if Divides(c, x) {
      var k :| x == c * k;
      assert -x == c * -k;
    }
    if Divides(c, -x) {
      var k :| -x == c * k;
      assert x == c * -k;
    }
  }

  lemma DividesLinear(c: int, x: int, y: int, q: int)
    requires Divides(c, x) && Divides(c, y)
    ensures Divides(c, x - q * y)
  {
    var kx :| x == c * kx;
    var ky :| y == c * ky;
    assert x - q * y == c * (kx - q * ky);
  }

  lemma DividesAntisym(x: nat, y: nat)
    requires Divides(x, y) && Divides(y, x)
    ensures x == y
  {
    if x == 0 {
      var k :| y == x * k;
    } else if y == 0 {
      var k :| x == y * k;
    } else {
      DividesLe(x, y);
      DividesLe(y, x);
    }
  }

  lemma DividesTrans(a: int, b: int, c: int)
    requires Divides(a, b) && Divides(b, c)
    ensures Divides(a, c)
  {
    var k1 :| b == a * k1;
    var k2 :| c == b * k2;
    assert c == a * (k1 * k2);
  }

  // ---------------------------------------------------------------------
  // The greatest common divisor

  lemma {:induction false} GcdDivides(a: nat, b: nat)
    ensures Divides(Gcd(a, b), a) && Divides(Gcd(a, b), b)
    decreases b
  {
    var g := Gcd(a, b);
    if b == 0 {
      assert a == g * 1;
      assert b == g * 0;
    } else {
      GcdDivides(b, a % b);
      var k1 :| b == g * k1;
      var k2 :| a % b == g * k2;
      assert a == g * (k1 * (a / b) + k2);
    }
  }

  lemma {:induction false} GcdGreatest(a: nat, b: nat, c: int)
    requires Divides(c, a) && Divides(c, b)
    ensures Divides(c, Gcd(a, b))
    decreases b
  {
    if b != 0 {
      DividesLinear(c, a, b, a / b);
      assert a - (a / b) * b == a % b;
      GcdGreatest(b, a % b, c);
    }
  }

  /** Two pairs with the same common divisors have the same gcd. */
  lemma GcdSameDivisors(a: nat, b: nat, a2: nat, b2: nat)
    requires forall c :: Divides(c, a) && Divides(c, b) ==> Divides(c, a2) && Divides(c, b2)
    requires forall c :: Divides(c, a2) && Divides(c, b2) ==> Divides(c, a) && Divides(c, b)
    ensures Gcd(a, b) == Gcd(a2, b2)
  {
    GcdDivides(a, b);
    GcdDivides(a2, b2);
    GcdGreatest(a2, b2, Gcd(a, b));
    GcdGreatest(a, b, Gcd(a2, b2));
    DividesAntisym(Gcd(a, b), Gcd(a2, b2));
  }

  /** Replacing (x, y) by (y, x - q*y) keeps the gcd of the magnitudes: the
      step every Euclid-style loop in the model takes, whatever its quotient. */
  lemma GcdStep(x: int, y: int, q: int)
    ensures Gcd(Abs(y), Abs(x - q * y)) == Gcd(Abs(x), Abs(y))
  {
    forall c | Divides(c, Abs(x)) && Divides(c, Abs(y))
      ensures Divides(c, Abs(y)) && Divides(c, Abs(x - q * y))
    {
      DividesAbs(c, x);
      DividesAbs(c, y);
      DividesLinear(c, x, y, q);
      DividesAbs(c, x - q * y);
    }
    forall c | Divides(c, Abs(y)) && Divides(c, Abs(x - q * y))
      ensures Divides(c, Abs(x)) && Divides(c, Abs(y))
    {
      DividesAbs(c, y);
      DividesAbs(c, x - q * y);
      DividesLinear(c, x - q * y, y, -q);
      assert x - q * y - (-q) * y == x;
      DividesAbs(c, x);
    }
    GcdSameDivisors(Abs(x), Abs(y), Abs(y), Abs(x - q * y));
  }

  lemma GcdCommutes(a: nat, b: nat)
    ensures Gcd(a, b) == Gcd(b, a)
  {
    GcdSameDivisors(a, b, b, a);
  }

  /** Bezout: the gcd is an integer combination of its arguments. */
  lemma {:induction false} Bezout(a: nat, b: nat) returns (x: int, y: int)
    ensures a * x + b * y == Gcd(a, b)
    decreases b
  {
    if b == 0 {
      x, y := 1, 0;
    } else {
      var x1, y1 := Bezout(b, a % b);
      assert a % b == a - b * (a / b);
      x, y := y1, x1 - (a / b) * y1;
      assert b * x1 + (a - b * (a / b)) * y1 == Gcd(a, b);
    }
  }

  /** Inverses modulo m are unique: the property that pins the default
      calculator's private exponent to a single value. */
  lemma InverseUnique(a: int, m: int, x: int, y: int)
    requires m > 1 && 0 <= x < m && 0 <= y < m
    requires (a * x) % m == 1 && (a * y) % m == 1
    ensures x == y
  {
    // x = x * (a * y) = (a * x) * y = y (mod m)
    ModMulRight(x, a * y, m);
    assert (x * (a * y)) % m == x % m;
    assert x * (a * y) == (a * x) * y;
    ModMulLeft(a * x, y, m);
    assert ((a * x) * y) % m == y % m;
    DivModUnique(x, m, 0, x);
    DivModUnique(y, m, 0, y);
  }

  /** Coprimality is exactly the existence of an inverse. */
  lemma InverseImpliesCoprime(a: nat, m: nat, x: int)
    requires m > 1 && (a * x) % m == 1
    ensures Gcd(a, m) == 1
  {
    var g := Gcd(a, m);
    GcdDivides(a, m);
    var k :| a == g * k;
    var j :| m == g * j;
    var t := (a * x) / m;
    assert a * x == m * t + 1;
    assert 1 == g * (k * x - j * t);
    if g == 0 {
      assert false;
    } else if g > 1 {
      DividesLe(g, 1);
    }
  }

  // ---------------------------------------------------------------------
  // Powers

  lemma {:induction false} PowAdd(b: int, i: nat, j: nat)
    ensures Pow(b, i + j) == Pow(b, i) * Pow(b, j)
    decreases i
  {
    if i > 0 {
      PowAdd(b, i - 1, j);
      assert Pow(b, i + j) == b * Pow(b, i - 1 + j);
    }
  }

  lemma {:induction false} PowMul(b: int, i: nat, j: nat)
    ensures Pow(b, i * j) == Pow(Pow(b, i), j)
    decreases j
  {
    if j > 0 {
      PowMul(b, i, j - 1);
      assert i * j == i + i * (j - 1);
      PowAdd(b, i, i * (j - 1));
    }
  }

  lemma {:induction false} PowSquare(b: int, k: nat)
    ensures Pow(b * b, k) == Pow(b, 2 * k)
    decreases k
  {
    if k > 0 {
      PowSquare(b, k - 1);
      PowAdd(b, 2, 2 * (k - 1));
      assert Pow(b, 2) == b * b;
    }
  }

  lemma {:induction false} PowNonNegative(b: int, e: nat)
    requires b >= 0
    ensures Pow(b, e) >= 0
    decreases e
  {
    if e > 0 {
      PowNonNegative(b, e - 1);
    }
  }

  lemma {:induction false} PowOfOne(e: nat)
    ensures Pow(1, e) == 1
    decreases e
  {
    if e > 0 {
      PowOfOne(e - 1);
    }
  }

  /** A power only depends on the base's residue. */
  lemma {:induction false} PowMod(b: int, e: nat, m: int)
    requires m > 0
    ensures Pow(b % m, e) % m == Pow(b, e) % m
    decreases e
  {
    if e > 0 {
      PowMod(b, e - 1, m);
      calc {
        Pow(b % m, e) % m;
        ((b % m) * Pow(b % m, e - 1)) % m;
        { ModMulRight(b % m, Pow(b % m, e - 1), m); }
        ((b % m) * (Pow(b % m, e - 1) % m)) % m;
        ((b % m) * (Pow(b, e - 1) % m)) % m;
        { ModMulRight(b % m, Pow(b, e - 1), m); }
        ((b % m) * Pow(b, e - 1)) % m;
        { ModMulLeft(b, Pow(b, e - 1), m); }
        (b * Pow(b, e - 1)) % m;
      }
    }
  }

  /** A base congruent to 1 keeps every power congruent to 1. */
  lemma PowOfUnit(b: int, e: nat, m: int)
    requires m > 1 && b % m == 1
    ensures Pow(b, e) % m == 1
  {
    PowMod(b, e, m);
    PowOfOne(e);
    DivModUnique(1, m, 0, 1);
  }

  /** The remainder of a multiple of m is zero. */
  lemma {:induction false} PowOfMultiple(b: int, e: nat, m: int)
    requires m > 0 && e >= 1 && b % m == 0
    ensures Pow(b, e) % m == 0
  {
    PowMod(b, e, m);
    assert Pow(0, e) == 0 * Pow(0, e - 1);
  }

  // ---------------------------------------------------------------------
  // Steps of the extended Euclidean algorithm

  /** The quotient Math.floor(x / y) of JavaScript: rounded toward negative
      infinity, unlike Dafny's `/`, which rounds so that the remainder is
      never negative. */
  function FloorDiv(x: int, y: int): (q: int)
    requires y != 0
    ensures y > 0 ==> y * q <= x < y * q + y
    ensures y < 0 ==> y * q + y < x <= y * q
  {
    if y > 0 || x % y == 0 then x / y else x / y - 1
  }

  /** For a positive divisor the two quotients agree. */
  lemma FloorDivPositive(x: int, y: int)
    requires y > 0
    ensures FloorDiv(x, y) == x / y
  {
  }

  /** Subtracting q >= 0 times y0 from a coefficient of the opposite sign
      adds the magnitudes and keeps the signs opposite. */
  lemma OppositeSignStep(y0: int, y1: int, q: int)
    requires y0 * y1 <= 0 && q >= 0
    ensures Abs(y1 - q * y0) == Abs(y1) + q * Abs(y0)
    ensures (y1 - q * y0) * y0 <= 0
  {
    assert (y1 - q * y0) * y0 == y1 * y0 - q * (y0 * y0);
    assert q * (y0 * y0) >= 0;
    if y0 > 0 {
      assert y1 <= 0;
      assert q * y0 >= 0;
    } else if y0 < 0 {
      assert y1 >= 0;
      assert q * y0 <= 0;
    }
  }

  lemma CoefficientSum(a0: int, a1: int, q: int, u: int, v: int)
    ensures (a1 + q * a0) * v + a0 * (u - q * v) == a0 * u + a1 * v
  {
    assert (a1 + q * a0) * v == a1 * v + q * a0 * v;
    assert a0 * (u - q * v) == a0 * u - a0 * q * v;
  }

  /** One step of the extended Euclidean algorithm keeps the bound on the
      coefficients of e: |y0| * u + |y1| * v == phi, opposite signs, and
      |y1| * u <= phi, where (u, v) is the running remainder pair. */
  lemma ExtendedEuclidStep(phi: int, u: int, v: int, y0: int, y1: int)
    requires 0 < v < u
    requires Abs(y0) * u + Abs(y1) * v == phi && y0 * y1 <= 0 && Abs(y1) * u <= phi
    ensures Abs(y1 - (u / v) * y0) * v + Abs(y0) * (u % v) == phi
    ensures (y1 - (u / v) * y0) * y0 <= 0
    ensures Abs(y0) * v <= phi
  {
    var q := u / v;
    var a0, a1 := Abs(y0), Abs(y1);
    assert u % v == u - q * v;
    OppositeSignStep(y0, y1, q);
    CoefficientSum(a0, a1, q, u, v);
    MulMonotone(v, u, a0);
    assert v * a0 == a0 * v && u * a0 == a0 * u;
    assert a1 * v >= 0;
  }

  /** A multiple of m is never congruent to 1 modulo m > 1. */
  lemma MultipleNotUnit(y: int, e: int, m: int)
    requires m > 1 && (y * e) % m == 1
    ensures y != m && y != -m
  {
    ModAddMultiple(0, e, m);
    ModAddMultiple(0, -e, m);
    assert m * -e == -m * e;
  }

  lemma CombinationStep(u: int, v: int, q: int, x0: int, x1: int, y0: int, y1: int, phi: int, e: int)
    requires u == x1 * phi + y1 * e && v == x0 * phi + y0 * e
    ensures u - q * v == (x1 - q * x0) * phi + (y1 - q * y0) * e
  {
    assert q * v == (q * x0) * phi + (q * y0) * e;
    assert (x1 - q * x0) * phi == x1 * phi - (q * x0) * phi;
    assert (y1 - q * y0) * e == y1 * e - (q * y0) * e;
  }

}
