/** Fermat's little theorem and the correctness of textbook RSA
    (the RSAEP/RSADP primitives of section 5.1 of RFC 8017 without
    padding): for n = p*q with distinct primes p, q and e*d = 1 modulo
    (p-1)(q-1), raising to e and then to d modulo n gives back every
    message below n. */
module Fermat {
  import opened NumberTheory

  /** Binomial coefficients by Pascal's rule. */
  function Binom(n: nat, k: nat): nat
    decreases n
  {
    if k == 0 then 1 else if n == 0 then 0 else Binom(n - 1, k - 1) + Binom(n - 1, k)
  }

  /** The first k terms of the binomial expansion of (x + 1)^n. */
  function BinomSum(n: nat, x: int, k: nat): int
    decreases k
  {
    if k == 0 then 0 else BinomSum(n, x, k - 1) + Binom(n, k - 1) * Pow(x, k - 1)
  }

  lemma {:induction false} BinomAboveTop(n: nat, k: nat)
    requires k > n
    ensures Binom(n, k) == 0
    decreases n
  {
    if n > 0 {
      BinomAboveTop(n - 1, k - 1);
      BinomAboveTop(n - 1, k);
    }
  }

  lemma {:induction false} BinomTop(n: nat)
    ensures Binom(n, n) == 1
    decreases n
  {
    if n > 0 {
      BinomTop(n - 1);
      BinomAboveTop(n - 1, n);
    }
  }

  /** The absorption identity k * C(n, k) == n * C(n-1, k-1). */
  lemma {:induction false} BinomAbsorb(n: nat, k: nat)
    requires n >= 1 && k >= 1
    ensures k * Binom(n, k) == n * Binom(n - 1, k - 1)
    decreases n
  {
    if n == 1 {
      if k > 1 {
        BinomAboveTop(0, k - 1);
        BinomAboveTop(1, k);
      }
    } else if k == 1 {
      BinomAbsorb(n - 1, 1);
    } else {
      BinomAbsorb(n - 1, k);
      BinomAbsorb(n - 1, k - 1);
      AbsorbStep(n, k, Binom(n - 1, k - 1), Binom(n - 1, k), Binom(n - 2, k - 2), Binom(n - 2, k - 1));
    }
  }

  lemma AbsorbStep(n: int, k: int, a: int, b: int, c: int, dd: int)
    requires a == c + dd
    requires (k - 1) * a == (n - 1) * c && k * b == (n - 1) * dd
    ensures k * (a + b) == n * a
  {
    assert k * (a + b) == (k - 1) * a + a + k * b;
    assert (n - 1) * c + (n - 1) * dd == (n - 1) * a;
  }

  /** Euclid's lemma: a prime dividing a product divides a factor. */
  lemma EuclidLemma(p: int, a: int, b: int)
    requires Prime(p) && (a * b) % p == 0
    ensures a % p == 0 || b % p == 0
  {
    if a % p != 0 {
      var r := a % p;
      var g := Gcd(p, r);
      GcdDivides(p, r);
      if g >= 2 {
        DividesLe(g, r);
        DividesIffModZero(g, p);
      }
      assert g == 1;
      var x, y := Bezout(p, r);
      assert b == p * (x * b) + (r * b) * y;
      ModAddMultiple((r * b) * y, x * b, p);
      ModMulLeft(r * b, y, p);
      ModMulLeft(a, b, p);
      assert (r * b) % p == 0;
    }
  }

  lemma BinomPrime(p: int, k: nat)
    requires Prime(p) && 0 < k < p
    ensures Binom(p, k) % p == 0
  {
    BinomAbsorb(p, k);
    ModAddMultiple(0, Binom(p - 1, k - 1), p);
    assert (k * Binom(p, k)) % p == 0;
    EuclidLemma(p, k, Binom(p, k));
    DivModUnique(k, p, 0, k);
  }

  lemma {:induction false} PascalSum(n: nat, x: int, k: nat)
    ensures BinomSum(n + 1, x, k + 1) == BinomSum(n, x, k + 1) + x * BinomSum(n, x, k)
    decreases k
  {
    if k > 0 {
      PascalSum(n, x, k - 1);
      var s0, s1 := BinomSum(n, x, k - 1), BinomSum(n, x, k);
      var c0, c1 := Binom(n, k - 1), Binom(n, k);
      var w0, w1 := Pow(x, k - 1), Pow(x, k);
      assert w1 == x * w0;
      assert s1 == s0 + c0 * w0;
      assert BinomSum(n, x, k + 1) == s1 + c1 * w1;
      assert Binom(n + 1, k) == c0 + c1;
      assert BinomSum(n + 1, x, k + 1) == s1 + x * s0 + (c0 + c1) * w1;
      PascalAlgebra(x, s0, s1, c0, c1, w0, w1);
    }
  }

  lemma PascalAlgebra(x: int, s0: int, s1: int, c0: int, c1: int, w0: int, w1: int)
    requires w1 == x * w0 && s1 == s0 + c0 * w0
    ensures s1 + x * s0 + (c0 + c1) * w1 == (s1 + c1 * w1) + x * s1
  {
    assert x * s1 == x * s0 + x * (c0 * w0);
    assert x * (c0 * w0) == c0 * (x * w0);
  }

  /** The binomial theorem for (x + 1)^n. */
  lemma {:induction false} BinomialTheorem(n: nat, x: int)
    ensures Pow(x + 1, n) == BinomSum(n, x, n + 1)
    decreases n
  {
    if n > 0 {
      BinomialTheorem(n - 1, x);
      PascalSum(n - 1, x, n);
      BinomAboveTop(n - 1, n);
      assert BinomSum(n - 1, x, n + 1) == BinomSum(n - 1, x, n);
    }
  }

  lemma {:induction false} MiddleTermsVanish(p: int, x: int, k: nat)
    requires Prime(p) && 1 <= k <= p
    ensures BinomSum(p, x, k) % p == 1
    decreases k
  {
    if k == 1 {
      assert BinomSum(p, x, 1) == 1;
      DivModUnique(1, p, 0, 1);
    } else {
      MiddleTermsVanish(p, x, k - 1);
      BinomPrime(p, k - 1);
      AddMultipleKeepsRemainder(BinomSum(p, x, k - 1), Binom(p, k - 1), Pow(x, k - 1), p);
    }
  }

  /** Adding a multiple of m does not change the remainder. */
  lemma AddMultipleKeepsRemainder(a: int, c: int, w: int, m: int)
    requires m > 0 && c % m == 0
    ensures (a + c * w) % m == a % m
  {
    var j := c / m;
    assert c == m * j;
    assert c * w == m * (j * w);
    ModAddMultiple(a, j * w, m);
  }

  /** (x + 1)^p = x^p + 1 modulo a prime p. */
  lemma FreshmansDream(p: int, x: int)
    requires Prime(p)
    ensures Pow(x + 1, p) % p == (Pow(x, p) + 1) % p
  {
    BinomialTheorem(p, x);
    BinomTop(p);
    MiddleTermsVanish(p, x, p);
    var a := BinomSum(p, x, p);
    assert Pow(x + 1, p) == a + Pow(x, p);
    ModAddLeft(a, Pow(x, p), p);
    assert 1 + Pow(x, p) == Pow(x, p) + 1;
  }

  /** Fermat's little theorem: a^p = a modulo a prime p. */
  lemma {:induction false} FermatLittle(a: nat, p: int)
    requires Prime(p)
    ensures Pow(a, p) % p == a % p
    decreases a
  {
    if a == 0 {
      PowOfMultiple(0, p, p);
    } else {
      FermatLittle(a - 1, p);
      FreshmansDream(p, a - 1);
      ModAddLeft(Pow(a - 1, p), 1, p);
      ModAddLeft(a - 1, 1, p);
    }
  }

  lemma ModSubZero(x: int, y: int, m: int)
    requires m > 0 && x % m == y % m
    ensures (x - y) % m == 0
  {
    assert x - y == m * (x / m - y / m);
    DivModUnique(x - y, m, x / m - y / m, 0);
  }

  /** A unit to the power p - 1 is 1 modulo p. */
  lemma FermatUnit(a: nat, p: int)
    requires Prime(p) && a % p != 0
    ensures Pow(a, p - 1) % p == 1
  {
    FermatLittle(a, p);
    var x := Pow(a, p - 1);
    assert Pow(a, p) == a * x;
    ModSubZero(a * x, a, p);
    assert a * x - a == a * (x - 1);
    EuclidLemma(p, a, x - 1);
    ModAddLeft(x - 1, 1, p);
    DivModUnique(1, p, 0, 1);
  }

  /** m^(e*d) = m modulo one prime factor p of n. */
  lemma RsaPrimeFactor(p: int, q: int, e: nat, d: nat, m: nat)
    requires Prime(p) && Prime(q)
    requires (e * d) % ((p - 1) * (q - 1)) == 1
    ensures (Pow(m, e * d) - m) % p == 0
  {
    var phi := (p - 1) * (q - 1);
    MulAtLeast(p - 1, q - 1);
    var k := (e * d) / phi;
    assert e * d == phi * k + 1;
    if m % p == 0 {
      PowOfMultiple(m, e * d, p);
      ModSubZero(Pow(m, e * d), m, p);
    } else {
      var j := (q - 1) * k;
      assert e * d == 1 + (p - 1) * j;
      PowAdd(m, 1, (p - 1) * j);
      PowMul(m, p - 1, j);
      var x := Pow(Pow(m, p - 1), j);
      assert Pow(m, e * d) == m * x;
      FermatUnit(m, p);
      PowOfUnit(Pow(m, p - 1), j, p);
      ModMulRight(m, x, p);
      assert (m * (x % p)) % p == m % p;
      ModSubZero(Pow(m, e * d), m, p);
    }
  }

  /** Divisible by two distinct primes means divisible by their product. */
  lemma DistinctPrimesDivide(p: int, q: int, x: int)
    requires Prime(p) && Prime(q) && p != q
    requires x % p == 0 && x % q == 0
    ensures x % (p * q) == 0
  {
    var s := x / p;
    assert x == p * s;
    EuclidLemma(q, p, s);
    if p % q == 0 {
      if q < p {
        assert false;
      } else {
        DivModUnique(p, q, 0, p);
      }
    }
    var t := s / q;
    assert s == q * t;
    assert x == (p * q) * t;
    MulAtLeast(p, q);
    DivModUnique(x, p * q, t, 0);
  }

  /** Two distinct primes give phi >= 2. */
  lemma TotientAtLeastTwo(p: int, q: int)
    requires Prime(p) && Prime(q) && p != q
    ensures (p - 1) * (q - 1) >= 2
  {
    if p >= 3 {
      MulMonotone(1, q - 1, p - 1);
      MulMonotone(2, p - 1, q - 1);
    } else {
      MulMonotone(2, q - 1, p - 1);
    }
  }

  /** RSA correctness: decryption undoes encryption for every m < n. */
  lemma RsaRoundTrip(p: int, q: int, e: nat, d: nat, m: nat)
    requires Prime(p) && Prime(q) && p != q
    requires (e * d) % ((p - 1) * (q - 1)) == 1
    requires m < p * q
    ensures Pow(Pow(m, e) % (p * q), d) % (p * q) == m
  {
    var n := p * q;
    MulAtLeast(p, q);
    PowMod(Pow(m, e), d, n);
    PowMul(m, e, d);
    RsaPrimeFactor(p, q, e, d, m);
    assert (p - 1) * (q - 1) == (q - 1) * (p - 1);
    RsaPrimeFactor(q, p, e, d, m);
    var x := Pow(m, e * d) - m;
    DistinctPrimesDivide(p, q, x);
    assert x == n * (x / n);
    ModAddMultiple(m, x / n, n);
    DivModUnique(m, n, 0, m);
  }
}
