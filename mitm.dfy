/** The man-in-the-middle attack on Diffie-Hellman
    (src/components/MITM/MITM.jsx): Alice and Bob each agree a key with
    Mallory instead of with one another. The arithmetic is the ZZ = y^x mod p
    of section 2.1.1 of RFC 2631. */
module Mitm {
  import opened Wrappers
  import opened NumberTheory
  import MathUtils

  /** modPow of the component: the same algorithm as src/utils/math.js. */
  method ModPow(base: int, exponent: int, modulus: int) returns (r: int)
    requires base >= 0 && modulus != 0
    ensures r == MathUtils.PowModulo(base, exponent, modulus)
  {
    r := MathUtils.ModPow(base, exponent, modulus);
  }

  /** The eight values simulate computes: four public values and the four
      keys. Alice's key is the one she shares with Mallory (who posed as
      Bob with d), and Bob's the one he shares with Mallory (who posed as
      Alice with c). */
  datatype Exchange = Exchange(
    alicePublic: int, bobPublic: int, malloryC: int, malloryD: int,
    aliceFinal: int, bobFinal: int, malloryAlice: int, malloryBob: int)

  /** A key derived on both sides of one link agrees: (g^y)^x and (g^x)^y
      modulo p, for every modulus except -1. */
  lemma SharedKey(g: int, x: int, y: int, p: int)
    requires g >= 0 && p != 0 && p != -1
    ensures MathUtils.PowModulo(MathUtils.PowModulo(g, y, p), x, p)
         == MathUtils.PowModulo(MathUtils.PowModulo(g, x, p), y, p)
  {
    if p != 1 {
      if x > 0 && y > 0 {
        NestedPower(g, y, x, p);
        NestedPower(g, x, y, p);
        assert y * x == x * y;
      } else {
        DivModUnique(1, Abs(p), 0, 1);
        MathUtils.ModAbs(1, p);
        PowOfOne(if x > 0 then x else 0);
        PowOfOne(if y > 0 then y else 0);
      }
    }
  }

  /** For positive exponents, two nested reductions are one power. */
  lemma NestedPower(g: int, x: int, y: int, p: int)
    requires g >= 0 && x > 0 && y > 0 && Abs(p) >= 2
    ensures MathUtils.PowModulo(MathUtils.PowModulo(g, x, p), y, p) == Pow(g, x * y) % Abs(p)
  {
    var m := Abs(p);
    PowNonNegative(g, x);
    var h := Pow(g, x) % p;
    MathUtils.ModAbs(Pow(g, x), p);
    assert h >= 0;
    PowNonNegative(h, y);
    MathUtils.ModAbs(Pow(h, y), p);
    PowMod(Pow(g, x), y, m);
    PowMul(g, x, y);
  }

  /** What simulate computes from parsed, non-zero inputs. */
  function ExchangeValues(p: int, g: int, a: int, b: int, c: int, d: int): (r: Exchange)
    requires g >= 0 && p != 0
    ensures p >= 2 ==>
      0 <= r.alicePublic < p && 0 <= r.bobPublic < p && 0 <= r.malloryC < p && 0 <= r.malloryD < p
    ensures p != -1 ==> r.aliceFinal == r.malloryAlice && r.bobFinal == r.malloryBob
  {
    var alicePublic := MathUtils.PowModulo(g, a, p);
    var bobPublic := MathUtils.PowModulo(g, b, p);
    var malloryC := MathUtils.PowModulo(g, c, p);
    var malloryD := MathUtils.PowModulo(g, d, p);
    KeysAgree(g, a, b, c, d, p);
    Exchange(alicePublic, bobPublic, malloryC, malloryD,
      MathUtils.PowModulo(malloryD, a, p), MathUtils.PowModulo(malloryC, b, p),
      MathUtils.PowModulo(alicePublic, d, p), MathUtils.PowModulo(bobPublic, c, p))
  }

  /** Alice and Mallory agree on g^(a*d), Bob and Mallory on g^(b*c). */
  lemma KeysAgree(g: int, a: int, b: int, c: int, d: int, p: int)
    requires g >= 0 && p != 0
    ensures p != -1 ==>
      MathUtils.PowModulo(MathUtils.PowModulo(g, d, p), a, p) == MathUtils.PowModulo(MathUtils.PowModulo(g, a, p), d, p) &&
      MathUtils.PowModulo(MathUtils.PowModulo(g, c, p), b, p) == MathUtils.PowModulo(MathUtils.PowModulo(g, b, p), c, p)
  {
    if p != -1 {
      SharedKey(g, a, d, p);
      SharedKey(g, b, c, p);
    }
  }

  /** A parsed input the guard rejects: NaN, or 0 (both falsy). */
  predicate Missing(x: Option<int>)
  {
    x.None? || x.value == 0
  }

  /** simulate: nothing is computed unless all six inputs are present and
      non-zero; otherwise the public values and keys of the exchange. */
  method Simulate(p: Option<int>, g: Option<int>, a: Option<int>, b: Option<int>,
                  c: Option<int>, d: Option<int>) returns (r: Option<Exchange>)
    requires g.Some? ==> g.value >= 0
    ensures r.None? <==> Missing(p) || Missing(g) || Missing(a) || Missing(b) || Missing(c) || Missing(d)
    ensures r.Some? ==> r.value == ExchangeValues(p.value, g.value, a.value, b.value, c.value, d.value)
  {
    if Missing(p) || Missing(g) || Missing(a) || Missing(b) || Missing(c) || Missing(d) {
      return None;
    }
    var alicePublic := ModPow(g.value, a.value, p.value);
    var bobPublic := ModPow(g.value, b.value, p.value);
    var malloryC := ModPow(g.value, c.value, p.value);
    var malloryD := ModPow(g.value, d.value, p.value);
    var aliceFinal := ModPow(malloryD, a.value, p.value);
    var bobFinal := ModPow(malloryC, b.value, p.value);
    var malloryAlice := ModPow(alicePublic, d.value, p.value);
    var malloryBob := ModPow(bobPublic, c.value, p.value);
    r := Some(Exchange(alicePublic, bobPublic, malloryC, malloryD,
                       aliceFinal, bobFinal, malloryAlice, malloryBob));
  }

  /** With modulus -1 the keys can differ: x mod -1 is 0 for a positive
      exponent, but a non-positive exponent yields the unreduced 1. */
  lemma KeysDifferForModulusMinusOne()
    ensures ExchangeValues(-1, 5, -1, 1, 1, 7).aliceFinal == 1
    ensures ExchangeValues(-1, 5, -1, 1, 1, 7).malloryAlice == 0
  {
    assert MathUtils.PowModulo(5, 7, -1) == 0;
    assert MathUtils.PowModulo(5, -1, -1) == 1;
    assert Pow(1, 7) == 1 by {
      PowOfOne(7);
    }
  }

  /** The default form values p = 23, g = 5, a = 6, b = 8, c = 4, d = 7:
      Alice ends with key 12 and Bob with key 9, each shared with Mallory
      and not with one another. */
  lemma DefaultExchange()
    ensures ExchangeValues(23, 5, 6, 8, 4, 7) == Exchange(8, 16, 4, 17, 12, 9, 12, 9)
  {
    assert Pow(5, 4) == 625 && Pow(5, 6) == 15625 && Pow(5, 7) == 78125 && Pow(5, 8) == 390625 by {
      assert Pow(5, 2) == 25;
      assert Pow(5, 4) == 5 * (5 * Pow(5, 2));
    }
    assert Pow(17, 6) == 24137569 by {
      assert Pow(17, 2) == 289;
      assert Pow(17, 4) == 17 * (17 * Pow(17, 2));
    }
    assert Pow(4, 8) == 65536 by {
      assert Pow(4, 2) == 16;
      assert Pow(4, 4) == 4 * (4 * Pow(4, 2));
      assert Pow(4, 6) == 4 * (4 * Pow(4, 4));
    }
    assert Pow(8, 7) == 2097152 by {
      assert Pow(8, 2) == 64;
      assert Pow(8, 4) == 8 * (8 * Pow(8, 2));
    }
    assert Pow(16, 4) == 65536 by {
      assert Pow(16, 2) == 256;
    }
  }
}
