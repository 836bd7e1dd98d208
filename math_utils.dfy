/** Modular exponentiation by square-and-multiply (src/utils/math.js).

    The JavaScript `%` agrees with Dafny's `%` whenever the dividend is not
    negative, whatever the sign of the divisor; every dividend in modPow is
    a non-negative product once the base is, so the model uses `%` as is. */
module MathUtils {
  import opened NumberTheory

  /** What modPow returns: 0 for modulus 1 (its early return), 1 when the
      loop never runs, and otherwise base^exponent reduced modulo the
      modulus (whose sign does not matter to a non-negative dividend). */
  function PowModulo(base: int, exponent: int, modulus: int): (r: int)
    requires base >= 0 && modulus != 0
    ensures r >= 0
    ensures modulus >= 2 ==> r < modulus
    ensures modulus == 1 ==> r == 0
  {
    if modulus == 1 then 0
    else if exponent <= 0 then 1
    else (PowNonNegative(base, exponent); Pow(base, exponent) % modulus)
  }

  lemma ModAbs(x: int, m: int)
    requires m != 0
    ensures x % m == x % Abs(m)
  {
    if m < 0 {
      DivModUnique(x, -m, -(x / m), x % m);
    }
  }

  /** For a modulus of at least 2 the result is exactly b^e mod m,
      including e == 0, where the unreduced initial 1 is already reduced. */
  lemma PowModuloIsPower(base: int, exponent: nat, modulus: int)
    requires base >= 0 && modulus >= 2
    ensures PowModulo(base, exponent, modulus) == Pow(base, exponent) % modulus
  {
    if exponent == 0 {
      DivModUnique(1, modulus, 0, 1);
    }
  }

  /** Exponent 0 yields 1 once the modulus is at least 2. */
  lemma PowModuloZeroExponent(base: int, modulus: int)
    requires base >= 0 && modulus >= 2
    ensures PowModulo(base, 0, modulus) == 1
  {
  }

  /** The result only depends on the base modulo the modulus (line 4 of
      math.js reduces it up front). */
  lemma PowModuloReducedBase(base: int, exponent: int, modulus: int)
    requires base >= 0 && modulus != 0
    ensures PowModulo(base % modulus, exponent, modulus) == PowModulo(base, exponent, modulus)
  {
    if modulus != 1 && exponent > 0 {
      var m := Abs(modulus);
      ModAbs(base, modulus);
      PowMod(base, exponent, m);
      ModAbs(Pow(base % m, exponent), modulus);
      ModAbs(Pow(base, exponent), modulus);
    }
  }

  /** One iteration of the square-and-multiply loop keeps
      result * base^exponent unchanged modulo m. */
  lemma SquareAndMultiplyStep(result: int, b: int, e: nat, m: int)
    requires m > 0 && e > 0
    ensures ((if e % 2 == 1 then (result * b) % m else result) * Pow((b * b) % m, e / 2)) % m
            == (result * Pow(b, e)) % m
  {
    var k := e / 2;
    var x := if e % 2 == 1 then (result * b) % m else result;
    PowMod(b * b, k, m);
    PowSquare(b, k);
    var p := Pow(b, 2 * k);
    ModMulRight(x, Pow((b * b) % m, k), m);
    ModMulRight(x, Pow(b * b, k), m);
    assert (x * Pow((b * b) % m, k)) % m == (x * p) % m;
    if e % 2 == 1 {
      ModMulLeft(result * b, p, m);
      PowAdd(b, 2 * k, 1);
      assert Pow(b, e) == p * b;
      assert (result * b) * p == result * Pow(b, e);
    } else {
      assert e == 2 * k;
    }
  }

  /** modPow(base, exponent, modulus) of src/utils/math.js. */
  method ModPow(base: int, exponent: int, modulus: int) returns (r: int)
    requires base >= 0 && modulus != 0
    ensures r == PowModulo(base, exponent, modulus)
  {
    if modulus == 1 {
      return 0;
    }
    ghost var m := Abs(modulus);
    var result := 1;
    var b := base % modulus;
    var e := exponent;
    ModAbs(base, modulus);
    if exponent > 0 {
      PowMod(base, exponent, m);
    }
    while e > 0
      invariant b >= 0
      invariant exponent <= 0 ==> e == exponent && result == 1
      invariant exponent > 0 ==> e >= 0 && (result * Pow(b, e)) % m == Pow(base, exponent) % m
      invariant exponent > 0 ==> (0 <= result < m) || (result == 1 && e > 0)
      decreases e
    {
      SquareAndMultiplyStep(result, b, e, m);
      if e % 2 == 1 {
        ModAbs(result * b, modulus);
        result := (result * b) % modulus;
      }
      ModAbs(b * b, modulus);
      b := (b * b) % modulus;
      e := e / 2;
    }
    if exponent > 0 {
      DivModUnique(result, m, 0, result);
      PowNonNegative(base, exponent);
      ModAbs(Pow(base, exponent), modulus);
    }
    r := result;
  }
}
