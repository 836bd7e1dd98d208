/** The RSA mapping visualisation (src/components/RSAVizMap.jsx): the
    RSACalculator object, the fix points that pair every plaintext with its
    ciphertext, the column lookup, and the step counter of the controls. */
module RsaVizMap {
  import opened NumberTheory
  import MathUtils
  import Fermat

  // ---------------------------------------------------------------------
  // RSACalculator.modInverse

  /** The loop invariant of modInverse: both remainders are integer
      combinations of a and m (Bezout), they share the gcd of a and m, and
      from the second iteration on, with m > 0, the coefficients of a stay
      bounded so that the final one lies within m of 0. */
  ghost predicate ModInverseInvariant(a: int, m: int, started: bool,
                                      oldR: int, r: int, oldS: int, s: int, oldT: int, t: int)
  {
    oldR == oldS * a + oldT * m && r == s * a + t * m &&
    Gcd(Abs(oldR), Abs(r)) == Gcd(Abs(a), Abs(m)) &&
    (!started ==> oldR == a && r == m && oldS == 1 && s == 0) &&
    (started && m > 0 ==>
      0 <= r < oldR && Abs(s) * oldR + Abs(oldS) * r == m && s * oldS <= 0 && Abs(oldS) * oldR <= m)
  }

  lemma ModInverseStep(a: int, m: int, started: bool,
                       oldR: int, r: int, oldS: int, s: int, oldT: int, t: int)
    requires ModInverseInvariant(a, m, started, oldR, r, oldS, s, oldT, t) && r != 0
    ensures var q := FloorDiv(oldR, r);
      ModInverseInvariant(a, m, true, r, oldR - q * r, s, oldS - q * s, t, oldT - q * t)
    ensures Abs(oldR - FloorDiv(oldR, r) * r) < Abs(r)
  {
    var q := FloorDiv(oldR, r);
    CombinationStep(oldR, r, q, s, oldS, t, oldT, a, m);
    GcdStep(oldR, r, q);
    if m > 0 {
      FloorDivPositiveStep(oldR, r, q);
      if started {
        ExtendedEuclidStep(m, oldR, r, s, oldS);
      } else {
        FirstStepBounds(a, m, q);
      }
    }
  }

  lemma FloorDivPositiveStep(x: int, y: int, q: int)
    requires y > 0 && q == FloorDiv(x, y)
    ensures q == x / y && x - q * y == x % y && 0 <= x % y < y
  {
  }

  /** The first iteration turns (a, m) into (m, a mod m) with coefficients
      (0, 1), which satisfies the bounds. */
  lemma FirstStepBounds(a: int, m: int, q: int)
    requires m > 0 && q == a / m
    ensures var r := a - q * m;
      0 <= r < m && Abs(1 - q * 0) * m + Abs(0) * r == m && (1 - q * 0) * 0 <= 0 && Abs(0) * m <= m
  {
    assert a - q * m == a % m;
  }

  /** At the end (r == 0, m > 0) old_r is the gcd and the adjusted old_s is
      in [0, m]; for a unit a and m > 1 it is the inverse of a. */
  lemma ModInverseExit(a: int, m: int, oldR: int, oldS: int, s: int, oldT: int, t: int)
    requires m > 0 && ModInverseInvariant(a, m, true, oldR, 0, oldS, s, oldT, t)
    ensures var x := if oldS < 0 then oldS + m else oldS;
      0 <= x <= m &&
      (m > 1 && Gcd(Abs(a), m) == 1 ==> x < m && (a * x) % m == 1)
  {
    ExitRange(m, oldR, oldS);
    if m > 1 && Gcd(Abs(a), m) == 1 {
      assert Gcd(Abs(oldR), 0) == Abs(oldR);
      ExitInverse(a, m, oldS, oldT);
    }
  }

  /** The final coefficient lies within m of 0, so shifting a negative one
      by m lands in [0, m]. */
  lemma ExitRange(m: int, oldR: int, oldS: int)
    requires m > 0 && oldR >= 1 && Abs(oldS) * oldR <= m
    ensures var x := if oldS < 0 then oldS + m else oldS;
      0 <= x <= m
  {
    MulMonotone(1, oldR, Abs(oldS));
  }

  /** From oldS * a + oldT * m == 1 the shifted coefficient is the inverse
      of a below m. */
  lemma ExitInverse(a: int, m: int, oldS: int, oldT: int)
    requires m > 1 && oldS * a + oldT * m == 1
    ensures var x := if oldS < 0 then oldS + m else oldS;
      (a * x) % m == 1 && x != m
  {
    assert oldS * a == 1 + m * -oldT;
    ModAddMultiple(1, -oldT, m);
    DivModUnique(1, m, 0, 1);
    MultipleNotUnit(oldS, a, m);
    if oldS < 0 {
      assert a * (oldS + m) == oldS * a + m * a;
      ModAddMultiple(oldS * a, a, m);
    } else {
      assert a * oldS == oldS * a;
    }
  }

  /** Without coprimality there is no inverse at all, so the value
      modInverse returns then (it has no guard) is not one. */
  lemma NoInverseWithoutCoprimality(a: int, m: int)
    requires m > 1 && Gcd(Abs(a), m) != 1
    ensures forall x :: (a * x) % m != 1
  {
    forall x | (a * x) % m == 1
      ensures false
    {
      assert Abs(a) * (if a < 0 then -x else x) == a * x;
      InverseImpliesCoprime(Abs(a), m, if a < 0 then -x else x);
    }
  }

  /** RSACalculator: the key material fixed at construction. */
  class RSACalculator {
    const p: int
    const q: int
    const e: int
    const n: int
    const phi: int
    const d: int

    /** n = p * q, phi = (p - 1)(q - 1), and d is the inverse of e modulo
        phi whenever e is a unit modulo phi > 1. */
    ghost predicate Valid()
    {
      n == p * q && phi == (p - 1) * (q - 1) &&
      (phi > 1 && Gcd(Abs(e), phi) == 1 ==> 0 <= d < phi && (e * d) % phi == 1)
    }

    /** The constructor, with calculateD folded in. */
    constructor(p: int, q: int, e: int)
      ensures this.p == p && this.q == q && this.e == e
      ensures Valid()
    {
      this.p := p;
      this.q := q;
      this.e := e;
      this.n := p * q;
      this.phi := (p - 1) * (q - 1);
      var inverse := ModInverse(e, (p - 1) * (q - 1));
      this.d := inverse;
    }

    /** modInverse: the extended Euclidean algorithm on (a, m) with floor
        division, returning the coefficient of a shifted into [0, m]. */
    static method ModInverse(a: int, m: int) returns (inverse: int)
      ensures m > 0 ==> 0 <= inverse <= m
      ensures m > 1 && Gcd(Abs(a), m) == 1 ==> inverse < m && (a * inverse) % m == 1
    {
      var oldR, r := a, m;
      var oldS, s := 1, 0;
      var oldT, t := 0, 1;
      ghost var started := false;
      while r != 0
        invariant ModInverseInvariant(a, m, started, oldR, r, oldS, s, oldT, t)
        decreases Abs(r)
      {
        var quotient := FloorDiv(oldR, r);
        ModInverseStep(a, m, started, oldR, r, oldS, s, oldT, t);
        oldR, r := r, oldR - quotient * r;
        oldS, s := s, oldS - quotient * s;
        oldT, t := t, oldT - quotient * t;
        started := true;
      }
      if m > 0 {
        ModInverseExit(a, m, oldR, oldS, s, oldT, t);
      }
      inverse := if oldS < 0 then oldS + m else oldS;
    }

    /** modPow: the same square-and-multiply as src/utils/math.js. */
    static method ModPow(base: int, exponent: int, modulus: int) returns (r: int)
      requires base >= 0 && modulus != 0
      ensures r == MathUtils.PowModulo(base, exponent, modulus)
    {
      r := MathUtils.ModPow(base, exponent, modulus);
    }

    /** encrypt: message^e mod n. */
    method Encrypt(message: int) returns (c: int)
      requires message >= 0 && n != 0
      ensures c == MathUtils.PowModulo(message, e, n)
    {
      c := ModPow(message, e, n);
    }

    /** decrypt: ciphertext^d mod n. */
    method Decrypt(ciphertext: int) returns (m: int)
      requires ciphertext >= 0 && n != 0
      ensures m == MathUtils.PowModulo(ciphertext, d, n)
    {
      m := ModPow(ciphertext, d, n);
    }
  }

  /** decrypt undoes encrypt on every message in [0, n) when p and q are
      distinct primes and e >= 1 is a unit modulo phi. */
  lemma CalculatorRoundTrip(calculator: RSACalculator, x: int)
    requires calculator.Valid()
    requires Prime(calculator.p) && Prime(calculator.q) && calculator.p != calculator.q
    requires calculator.e >= 1 && Gcd(calculator.e, calculator.phi) == 1
    requires 0 <= x < calculator.n
    ensures MathUtils.PowModulo(MathUtils.PowModulo(x, calculator.e, calculator.n), calculator.d, calculator.n) == x
  {
    var p, q, e, d, n := calculator.p, calculator.q, calculator.e, calculator.d, calculator.n;
    MulAtLeast(p, q);
    Fermat.TotientAtLeastTwo(p, q);
    assert e * d == d * e;
    var c := MathUtils.PowModulo(x, e, n);
    MathUtils.PowModuloIsPower(x, e, n);
    MathUtils.PowModuloIsPower(c, d, n);
    Fermat.RsaRoundTrip(p, q, e, d, x);
  }

  /** The defaults p = 7, q = 11, e = 17 give n = 77, phi = 60, d = 53. */
  method DefaultCalculator() returns (calculator: RSACalculator)
    ensures calculator.p == 7 && calculator.q == 11 && calculator.e == 17
    ensures calculator.n == 77 && calculator.phi == 60 && calculator.d == 53
  {
    calculator := new RSACalculator(7, 11, 17);
    assert Gcd(17, 60) == Gcd(60, 17) == Gcd(17, 9) == Gcd(9, 8);
    assert Gcd(9, 8) == Gcd(8, 1) == Gcd(1, 0) == 1;
    InverseUnique(17, 60, calculator.d, 53);
  }

  // ---------------------------------------------------------------------
  // Fix points and the column lookup

  datatype PointKind = Plaintext | Ciphertext

  /** A point of the picture without its canvas coordinates. */
  datatype FixPoint = FixPoint(value: int, kind: PointKind)

  /** The j-th point of the interleaved list for messages from start on:
      even positions hold the plaintexts, odd ones their ciphertexts. */
  function ExpectedPoint(e: int, n: int, start: int, j: nat): FixPoint
    requires start >= 0 && n != 0
  {
    if j % 2 == 0 then FixPoint(start + j / 2, Plaintext)
    else FixPoint(MathUtils.PowModulo(start + j / 2, e, n), Ciphertext)
  }

  ghost predicate Interleaved(points: seq<FixPoint>, e: int, n: int, start: int)
    requires start >= 0 && n != 0
  {
    |points| % 2 == 0 &&
    forall j :: 0 <= j < |points| ==> points[j] == ExpectedPoint(e, n, start, j)
  }

  /** The fix-point loop of initialize: for every message from messageStart
      to messageEnd, its plaintext point and then its ciphertext point. */
  method BuildFixPoints(calculator: RSACalculator, messageStart: int, messageEnd: int) returns (points: seq<FixPoint>)
    requires messageStart >= 0 && calculator.n != 0
    ensures |points| == 2 * (if messageEnd < messageStart then 0 else messageEnd - messageStart + 1)
    ensures Interleaved(points, calculator.e, calculator.n, messageStart)
  {
    points := [];
    var i := messageStart;
    while i <= messageEnd
      invariant messageStart <= i <= if messageEnd < messageStart then messageStart else messageEnd + 1
      invariant |points| == 2 * (i - messageStart)
      invariant Interleaved(points, calculator.e, calculator.n, messageStart)
      decreases messageEnd - i
    {
      var encrypted := calculator.Encrypt(i);
      ghost var k := |points|;
      points := points + [FixPoint(i, Plaintext), FixPoint(encrypted, Ciphertext)];
      assert k / 2 == i - messageStart && (k + 1) / 2 == i - messageStart && (k + 1) % 2 == 1;
      i := i + 1;
    }
  }

  predicate IsCiphertextOf(point: FixPoint, encrypted: int)
  {
    point.kind == Ciphertext && point.value == encrypted
  }

  /** findIndex from position k: the first ciphertext point at or after k
      holding the value, or -1. */
  function FirstCiphertextFrom(encrypted: int, points: seq<FixPoint>, k: nat): (idx: int)
    requires k <= |points|
    ensures idx == -1 || k <= idx < |points|
    ensures idx == -1 ==> forall j :: k <= j < |points| ==> !IsCiphertextOf(points[j], encrypted)
    ensures idx >= 0 ==> IsCiphertextOf(points[idx], encrypted)
    ensures idx >= 0 ==> forall j :: k <= j < idx ==> !IsCiphertextOf(points[j], encrypted)
    decreases |points| - k
  {
    if k == |points| then -1
    else if IsCiphertextOf(points[k], encrypted) then k
    else FirstCiphertextFrom(encrypted, points, k + 1)
  }

  /** findEncryptedIndex: the column (half the position, rounded down) of
      the first matching ciphertext point; -1 when there is none, because
      Math.floor(-1 / 2) is -1. */
  function FindEncryptedIndex(encrypted: int, points: seq<FixPoint>): (column: int)
    ensures column >= -1
    ensures column == -1 <==> forall j :: 0 <= j < |points| ==> !IsCiphertextOf(points[j], encrypted)
  {
    FloorDiv(FirstCiphertextFrom(encrypted, points, 0), 2)
  }

  /** On the interleaved list, a column found is the first message whose
      ciphertext is the value, and its odd point holds that ciphertext. */
  lemma FindEncryptedIndexColumn(points: seq<FixPoint>, e: int, n: int, start: int, encrypted: int)
    requires start >= 0 && n != 0 && Interleaved(points, e, n, start)
    ensures var column := FindEncryptedIndex(encrypted, points);
      column >= 0 ==>
        2 * column + 1 < |points| &&
        points[2 * column + 1] == FixPoint(encrypted, Ciphertext) &&
        MathUtils.PowModulo(start + column, e, n) == encrypted &&
        forall x :: start <= x < start + column ==> MathUtils.PowModulo(x, e, n) != encrypted
  {
    var idx := FirstCiphertextFrom(encrypted, points, 0);
    var column := FindEncryptedIndex(encrypted, points);
    if idx >= 0 {
      assert points[idx] == ExpectedPoint(e, n, start, idx);
      assert idx % 2 == 1;
      assert column == idx / 2 && idx == 2 * column + 1;
      forall x | start <= x < start + column
        ensures MathUtils.PowModulo(x, e, n) != encrypted
      {
        var j := 2 * (x - start) + 1;
        assert points[j] == ExpectedPoint(e, n, start, j);
        assert j / 2 == x - start;
      }
    }
  }

  // ---------------------------------------------------------------------
  // Step controls

  /** The step counter of the controls over a fixed list of connections. */
  class StepControls {
    var currentStep: int
    var isPlaying: bool
    const connectionsLength: nat

    /** currentStep stays within [0, connections.length]. */
    predicate Valid()
      reads this
    {
      0 <= currentStep <= connectionsLength
    }

    constructor(connectionsLength: nat)
      ensures this.connectionsLength == connectionsLength
      ensures currentStep == 0 && !isPlaying
      ensures Valid()
    {
      this.connectionsLength := connectionsLength;
      currentStep := 0;
      isPlaying := false;
    }

    /** "Next step": one step on, never past the number of connections. */
    method Next()
      modifies this
      ensures currentStep == if old(currentStep) + 1 < connectionsLength then old(currentStep) + 1 else connectionsLength
      ensures isPlaying == old(isPlaying)
      ensures old(Valid()) ==> Valid()
    {
      currentStep := if currentStep + 1 < connectionsLength then currentStep + 1 else connectionsLength;
    }

    /** "Previous step": one step back, never below 0. */
    method Previous()
      modifies this
      ensures currentStep == if old(currentStep) - 1 > 0 then old(currentStep) - 1 else 0
      ensures isPlaying == old(isPlaying)
      ensures old(Valid()) ==> Valid()
    {
      currentStep := if currentStep - 1 > 0 then currentStep - 1 else 0;
    }

    /** "Reset", and updateParameters' return to step 0. */
    method Reset()
      modifies this
      ensures currentStep == 0 && isPlaying == old(isPlaying)
      ensures Valid()
    {
      currentStep := 0;
    }

    /** "Pause"/"Continue". */
    method TogglePlaying()
      modifies this
      ensures isPlaying == !old(isPlaying) && currentStep == old(currentStep)
    {
      isPlaying := !isPlaying;
    }

    /** One autoplay tick: stop at the end, otherwise one step on. */
    method Tick()
      modifies this
      ensures old(currentStep) >= connectionsLength ==> currentStep == old(currentStep) && !isPlaying
      ensures old(currentStep) < connectionsLength ==> currentStep == old(currentStep) + 1 && isPlaying == old(isPlaying)
      ensures old(Valid()) ==> Valid()
    {
      if currentStep >= connectionsLength {
        isPlaying := false;
      } else {
        currentStep := currentStep + 1;
      }
    }
  }
}
