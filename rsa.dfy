/** Textbook RSA over small numbers (src/rsa/index.js): Euclid's gcd, the
    extended-Euclid inverse, trial-division primality, key generation and
    the per-character cipher that writes every encrypted character as a
    zero-padded group of hex digits. */
module Rsa {
  import opened Wrappers
  import opened NumberTheory
  import opened Hex
  import Fermat

  // ---------------------------------------------------------------------
  // gcd and the multiplicative inverse

  /** gcd: Euclid's algorithm by repeated remainder. */
  method Gcd(a: int, b: int) returns (r: int)
    requires a >= 0 && b >= 0
    ensures r >= 0 && r == NumberTheory.Gcd(a, b)
    ensures Divides(r, a) && Divides(r, b)
    ensures forall c :: Divides(c, a) && Divides(c, b) ==> Divides(c, r)
  {
    var x, y := a, b;
    while y != 0
      invariant x >= 0 && y >= 0
      invariant NumberTheory.Gcd(x, y) == NumberTheory.Gcd(a, b)
      decreases y
    {
      x, y := y, x % y;
    }
    r := x;
    GcdDivides(a, b);
    forall c | Divides(c, a) && Divides(c, b)
      ensures Divides(c, r)
    {
      GcdGreatest(a, b, c);
    }
  }

  /** The loop invariant of multiplicativeInverse: (u, v) are integer
      combinations of the inputs with coefficients (x1, y1) and (x0, y0),
      share their gcd, and the coefficients of e stay bounded by phi. */
  ghost predicate InverseInvariant(e: int, phi: int, u: int, v: int, x0: int, x1: int, y0: int, y1: int)
  {
    0 <= e < phi && 0 <= v < u &&
    u == x1 * phi + y1 * e && v == x0 * phi + y0 * e &&
    NumberTheory.Gcd(u, v) == NumberTheory.Gcd(phi, e) &&
    Abs(y0) * u + Abs(y1) * v == phi && y0 * y1 <= 0 && Abs(y1) * u <= phi &&
    (e == 0 ==> v == 0 && y1 == 0)
  }

  lemma InverseInvariantStep(e: int, phi: int, u: int, v: int, x0: int, x1: int, y0: int, y1: int)
    requires InverseInvariant(e, phi, u, v, x0, x1, y0, y1) && v != 0
    ensures var q := u / v;
      InverseInvariant(e, phi, v, u % v, x1 - q * x0, x0, y1 - q * y0, y0)
  {
    var q := u / v;
    assert u % v == u - q * v;
    ExtendedEuclidStep(phi, u, v, y0, y1);
    GcdStep(u, v, q);
    CombinationStep(u, v, q, x0, x1, y0, y1, phi, e);
  }

  /** When the remainder reaches 0 with u == 1, the adjusted coefficient is
      the inverse of e in [0, phi). */
  lemma InverseAtExit(e: int, phi: int, x0: int, x1: int, y0: int, y1: int)
    requires InverseInvariant(e, phi, 1, 0, x0, x1, y0, y1)
    ensures var d := if y1 < 0 then y1 + phi else y1;
      0 <= d < phi && (d * e) % phi == 1 % phi
  {
    ExitCoefficient(e, phi, x1, y1);
  }

  /** The coefficient of e in x1 * phi + y1 * e == 1, shifted into
      [0, phi), is the inverse of e. */
  lemma ExitCoefficient(e: int, phi: int, x1: int, y1: int)
    requires 0 <= e < phi && x1 * phi + y1 * e == 1 && Abs(y1) <= phi && (e == 0 ==> y1 == 0)
    ensures var d := if y1 < 0 then y1 + phi else y1;
      0 <= d < phi && (d * e) % phi == 1 % phi
  {
    assert y1 * e == 1 + phi * -x1;
    ModAddMultiple(1, -x1, phi);
    if phi > 1 {
      DivModUnique(1, phi, 0, 1);
      MultipleNotUnit(y1, e, phi);
    }
    if y1 < 0 {
      assert (y1 + phi) * e == y1 * e + phi * e;
      ModAddMultiple(y1 * e, e, phi);
    }
  }

  /** multiplicativeInverse: the extended Euclidean algorithm on (phi, e),
      tracking the coefficient of e; null exactly when e and phi are not
      coprime, otherwise the inverse of e in [0, phi). */
  method MultiplicativeInverse(e: int, phi: int) returns (r: Option<int>)
    requires 0 <= e < phi
    ensures r.None? <==> NumberTheory.Gcd(e, phi) != 1
    ensures r.Some? ==> 0 <= r.value < phi && (r.value * e) % phi == 1 % phi
  {
    // (u, v) is the source's running (phi, e) pair
    var x0, x1, y0, y1 := 0, 1, 1, 0;
    var u, v := phi, e;
    while v != 0
      invariant InverseInvariant(e, phi, u, v, x0, x1, y0, y1)
      decreases v
    {
      var q := u / v;
      InverseInvariantStep(e, phi, u, v, x0, x1, y0, y1);
      u, v := v, u % v;
      x0, x1 := x1 - q * x0, x0;
      y0, y1 := y1 - q * y0, y0;
    }
    GcdCommutes(phi, e);
    if u != 1 {
      return None;
    }
    InverseAtExit(e, phi, x0, x1, y0, y1);
    r := Some(if y1 < 0 then y1 + phi else y1);
  }

  // ---------------------------------------------------------------------
  // Primality by trial division

  lemma SquareLess(a: int, b: int)
    requires a >= 0 && b >= 0 && a * a < b * b
    ensures a < b
  {
    assert b * b - a * a == (b - a) * (b + a);
  }

  /** A composite number has a factor no larger than its square root: the
      cofactor of a factor above the root. */
  lemma SmallCofactor(num: int, k: int)
    requires 2 <= k < num && num % k == 0 && k * k > num
    ensures 2 <= num / k && (num / k) * (num / k) <= num && num % (num / k) == 0
  {
    var j := num / k;
    assert num == k * j;
    if j <= 0 {
      MulMonotone(0, k, -j);
    }
    assert j * j < k * j;
    MulMonotone(j, k, j);
    DivModUnique(num, j, k, 0);
  }

  /** Trying every i with i * i <= num suffices to establish primality. */
  lemma TrialDivisionSuffices(num: int, i: int)
    requires num >= 2 && i >= 2 && i * i > num
    requires forall k :: 2 <= k < i ==> num % k != 0
    ensures Prime(num)
  {
    forall k | 2 <= k < num
      ensures num % k != 0
    {
      if k >= i && num % k == 0 {
        MulMonotone(i, k, i);
        MulMonotone(i, k, k);
        SmallCofactor(num, k);
        SquareLess(num / k, i);
      }
    }
  }

  /** isPrime: trial division by every i with i * i <= num; false below 2. */
  method IsPrime(num: int) returns (r: bool)
    ensures r <==> Prime(num)
  {
    if num < 2 {
      return false;
    }
    var i := 2;
    while i * i <= num
      invariant 2 <= i
      invariant forall k :: 2 <= k < i ==> num % k != 0
      decreases num - i
    {
      MulMonotone(2, i, i);
      if num % i == 0 {
        assert 2 <= i < num;
        return false;
      }
      i := i + 1;
    }
    TrialDivisionSuffices(num, i);
    return true;
  }

  // ---------------------------------------------------------------------
  // Key generation

  datatype PublicKey = PublicKey(e: int, n: int)
  datatype PrivateKey = PrivateKey(d: int, n: int)
  datatype KeyPair = KeyPair(publicKey: PublicKey, privateKey: PrivateKey)

  /** The three errors generateKeypair throws; the last is unreachable. */
  datatype KeyError = NotPrime | SamePrimes | NoInverse

  /** What a key pair built from p and q satisfies: n = p * q, e is a unit
      below phi = (p - 1)(q - 1) and d its inverse in [0, phi). */
  ghost predicate IsKeyPairFor(p: int, q: int, k: KeyPair)
  {
    Prime(p) && Prime(q) && p != q &&
    var n, phi := p * q, (p - 1) * (q - 1);
    k.publicKey.n == n && k.privateKey.n == n &&
    1 <= k.publicKey.e < phi && NumberTheory.Gcd(k.publicKey.e, phi) == 1 &&
    0 <= k.privateKey.d < phi && (k.privateKey.d * k.publicKey.e) % phi == 1
  }

  lemma GcdOfOne(m: nat)
    requires m >= 2
    ensures NumberTheory.Gcd(1, m) == 1
  {
    assert 1 % m == 1;
    assert NumberTheory.Gcd(1, m) == NumberTheory.Gcd(m, 1);
    assert NumberTheory.Gcd(m, 1) == NumberTheory.Gcd(1, 0);
  }

  /** generateKeypair: both arguments must be prime and distinct; e is a
      random unit below phi (the retry loop stops at the first draw coprime
      to phi, so the outcome is any such e) and d its inverse. */
  method GenerateKeypair(p: int, q: int) returns (r: Result<KeyPair, KeyError>)
    ensures r == Failure(NotPrime) <==> !(Prime(p) && Prime(q))
    ensures r == Failure(SamePrimes) <==> Prime(p) && Prime(q) && p == q
    ensures r.Success? <==> Prime(p) && Prime(q) && p != q
    ensures r.Success? ==> IsKeyPairFor(p, q, r.value)
  {
    var pPrime := IsPrime(p);
    if !pPrime {
      return Failure(NotPrime);
    }
    var qPrime := IsPrime(q);
    if !qPrime {
      return Failure(NotPrime);
    }
    if p == q {
      return Failure(SamePrimes);
    }
    var n := p * q;
    var phi := (p - 1) * (q - 1);
    Fermat.TotientAtLeastTwo(p, q);
    GcdOfOne(phi);
    var e :| 1 <= e < phi && NumberTheory.Gcd(e, phi) == 1;
    var d := MultiplicativeInverse(e, phi);
    if d.None? {
      assert false;
    }
    DivModUnique(1, phi, 0, 1);
    return Success(KeyPair(PublicKey(e, n), PrivateKey(d.value, n)));
  }

  // ---------------------------------------------------------------------
  // The text cipher

  /** A UTF-16 code unit, the element of a JavaScript string. */
  type CodeUnit = x: int | 0 <= x < 0x10000

  predicate IsHighSurrogate(u: CodeUnit) { 0xD800 <= u <= 0xDBFF }
  predicate IsLowSurrogate(u: CodeUnit) { 0xDC00 <= u <= 0xDFFF }

  /** No high surrogate directly followed by a low one. */
  predicate NoSurrogatePairs(s: seq<CodeUnit>) {
    forall i :: 0 <= i < |s| - 1 ==> !(IsHighSurrogate(s[i]) && IsLowSurrogate(s[i + 1]))
  }

  /** Array.from(text) yields one string per code point and charCodeAt(0)
      keeps its first code unit: a surrogate pair shrinks to its high half. */
  function FirstUnits(s: seq<CodeUnit>): (r: seq<CodeUnit>)
    ensures |r| <= |s|
    ensures forall i :: 0 <= i < |r| ==> r[i] in s
    decreases |s|
  {
    if s == [] then []
    else if |s| >= 2 && IsHighSurrogate(s[0]) && IsLowSurrogate(s[1]) then [s[0]] + FirstUnits(s[2..])
    else [s[0]] + FirstUnits(s[1..])
  }

  /** The cipher sees every code unit exactly when no surrogate pair is
      present; otherwise it sees strictly fewer. */
  lemma {:induction false} FirstUnitsIdentity(s: seq<CodeUnit>)
    ensures FirstUnits(s) == s <==> NoSurrogatePairs(s)
    ensures !NoSurrogatePairs(s) ==> |FirstUnits(s)| < |s|
    decreases |s|
  {
    if |s| >= 2 {
      if IsHighSurrogate(s[0]) && IsLowSurrogate(s[1]) {
        FirstUnitsIdentity(s[2..]);
      } else {
        FirstUnitsIdentity(s[1..]);
        SingleStep(s);
        NoPairsTail(s);
      }
    } else if |s| == 1 {
      assert s[1..] == [];
    }
  }

  /** Without a pair at the front, the first unit is kept as it is. */
  lemma SingleStep(s: seq<CodeUnit>)
    requires |s| >= 2 && !(IsHighSurrogate(s[0]) && IsLowSurrogate(s[1]))
    ensures FirstUnits(s) == [s[0]] + FirstUnits(s[1..])
    ensures FirstUnits(s) == s <==> FirstUnits(s[1..]) == s[1..]
  {
    assert [s[0]] + s[1..] == s;
    if FirstUnits(s) == s {
      assert FirstUnits(s)[1..] == FirstUnits(s[1..]);
    }
  }

  /** ... and the rest has a pair exactly when the whole text does. */
  lemma NoPairsTail(s: seq<CodeUnit>)
    requires |s| >= 2 && !(IsHighSurrogate(s[0]) && IsLowSurrogate(s[1]))
    ensures NoSurrogatePairs(s) <==> NoSurrogatePairs(s[1..])
  {
    if !NoSurrogatePairs(s[1..]) {
      var i :| 0 <= i < |s[1..]| - 1 && IsHighSurrogate(s[1..][i]) && IsLowSurrogate(s[1..][i + 1]);
      assert IsHighSurrogate(s[i + 1]) && IsLowSurrogate(s[i + 2]);
    }
  }

  /** The encrypted value of one code unit, c^e mod n. */
  function EncryptUnit(c: CodeUnit, e: nat, n: int): (v: nat)
    requires n != 0
    ensures v < Abs(n)
  {
    Pow(c, e) % n
  }

  /** The hex group of every code unit: its encrypted value in lower-case
      hex, padded with zeros to at least w digits. */
  function EncryptedGroups(key: PublicKey, units: seq<CodeUnit>, w: nat): (r: seq<string>)
    requires key.e >= 0 && key.n != 0
    ensures |r| == |units|
    ensures forall i :: 0 <= i < |r| ==> IsHex(r[i]) && |r[i]| >= w
  {
    seq(|units|, i requires 0 <= i < |units| => PadStart(ToHex(EncryptUnit(units[i], key.e, key.n)), w, '0'))
  }

  /** The groups joined. */
  function EncryptWithWidth(key: PublicKey, units: seq<CodeUnit>, w: nat): (r: string)
    requires key.e >= 0 && key.n != 0
    ensures IsHex(r)
  {
    Concat(EncryptedGroups(key, units, w))
  }

  /** The ciphertext cut into groups of w hex digits, each decrypted as
      v^d mod n and truncated to a code unit as String.fromCharCode does. */
  function DecryptWithWidth(key: PrivateKey, ciphertext: string, w: nat): (r: seq<CodeUnit>)
    requires key.d >= 0 && key.n != 0 && IsHex(ciphertext) && w >= 1
    ensures w * (|r| - 1) < |ciphertext| <= w * |r| || (ciphertext == [] && r == [])
  {
    ChunksCount(ciphertext, w);
    var chunks := Chunks(ciphertext, w);
    seq(|chunks|, i requires 0 <= i < |chunks| => (Pow(ParseHex(chunks[i]), key.d) % key.n) % 0x10000)
  }

  /** When every encrypted value fits in w digits, each group is exactly w
      digits long and reads back as that value. */
  lemma GroupsReadBack(key: PublicKey, units: seq<CodeUnit>, w: nat)
    requires key.e >= 0 && key.n >= 1
    requires |ToHex(key.n - 1)| <= w
    ensures forall i :: 0 <= i < |units| ==>
      |EncryptedGroups(key, units, w)[i]| == w &&
      ParseHex(EncryptedGroups(key, units, w)[i]) == EncryptUnit(units[i], key.e, key.n)
  {
    forall i | 0 <= i < |units|
      ensures |EncryptedGroups(key, units, w)[i]| == w
      ensures ParseHex(EncryptedGroups(key, units, w)[i]) == EncryptUnit(units[i], key.e, key.n)
    {
      var v := EncryptUnit(units[i], key.e, key.n);
      ToHexLengthMonotone(v, key.n - 1);
      PaddedRoundTrip(v, w);
    }
  }

  /** The cipher at group width w undoes itself for a key pair of p and q
      when every group fits in w digits and every code unit is below n. */
  lemma RoundTripWithWidth(p: int, q: int, k: KeyPair, units: seq<CodeUnit>, w: nat)
    requires IsKeyPairFor(p, q, k)
    requires w >= 1 && |ToHex(p * q - 1)| <= w
    requires forall i :: 0 <= i < |units| ==> units[i] < p * q
    ensures DecryptWithWidth(k.privateKey, EncryptWithWidth(k.publicKey, units, w), w) == units
  {
    var n, e, d := p * q, k.publicKey.e, k.privateKey.d;
    MulAtLeast(p, q);
    var groups := EncryptedGroups(k.publicKey, units, w);
    GroupsReadBack(k.publicKey, units, w);
    ChunksOfConcat(groups, w);
    var r := DecryptWithWidth(k.privateKey, EncryptWithWidth(k.publicKey, units, w), w);
    assert |r| == |units|;
    forall i | 0 <= i < |units|
      ensures r[i] == units[i]
    {
      assert e * d == d * e;
      Fermat.RsaRoundTrip(p, q, e, d, units[i]);
      DivModUnique(units[i], 0x10000, 0, units[i]);
    }
  }

  /** encrypt: every code point's first code unit as a group of at least
      four hex digits; exactly four per unit when |n| <= 0x10000. */
  function Encrypt(key: PublicKey, plaintext: seq<CodeUnit>): (r: string)
    requires key.e >= 0 && key.n != 0
    ensures IsHex(r)
    ensures 1 <= key.n <= 0x10000 ==> |r| == 4 * |FirstUnits(plaintext)|
  {
    var units := FirstUnits(plaintext);
    if 1 <= key.n <= 0x10000 then
      ToHexFourDigits(key.n - 1);
      GroupsReadBack(key, units, 4);
      ConcatLength(EncryptedGroups(key, units, 4), 4);
      EncryptWithWidth(key, units, 4)
    else
      EncryptWithWidth(key, units, 4)
  }

  /** decrypt: one code unit per group of four hex digits, the last group
      possibly shorter. */
  function Decrypt(key: PrivateKey, ciphertext: string): (r: seq<CodeUnit>)
    requires key.d >= 0 && key.n != 0 && IsHex(ciphertext)
    ensures 4 * |r| - 3 <= |ciphertext| <= 4 * |r|
  {
    DecryptWithWidth(key, ciphertext, 4)
  }

  /** With n <= 0x10000 and every code unit below n, decrypt undoes
      encrypt up to the surrogate pairs encrypt shrinks, and exactly on
      text without surrogate pairs. */
  lemma RoundTrip(p: int, q: int, k: KeyPair, plaintext: seq<CodeUnit>)
    requires IsKeyPairFor(p, q, k) && p * q <= 0x10000
    requires forall i :: 0 <= i < |plaintext| ==> plaintext[i] < p * q
    ensures Decrypt(k.privateKey, Encrypt(k.publicKey, plaintext)) == FirstUnits(plaintext)
    ensures NoSurrogatePairs(plaintext) ==> Decrypt(k.privateKey, Encrypt(k.publicKey, plaintext)) == plaintext
  {
    MulAtLeast(p, q);
    ToHexFourDigits(p * q - 1);
    RoundTripWithWidth(p, q, k, FirstUnits(plaintext), 4);
    FirstUnitsIdentity(plaintext);
  }

  // ---------------------------------------------------------------------
  // Moduli above 0x10000

  /** The number of hex digits that holds every value below n, and never
      fewer than the four the cipher pads to. */
  function BlockWidth(n: int): (w: nat)
    requires n >= 1
    ensures w >= 4 && |ToHex(n - 1)| <= w
    ensures n <= 0x10000 ==> w == 4
  {
    ToHexFourDigits(if n <= 0x10000 then n - 1 else 0);
    if |ToHex(n - 1)| <= 4 then 4 else |ToHex(n - 1)|
  }

  /** encrypt with every group padded to the width of n - 1. */
  function EncryptFixedWidth(key: PublicKey, plaintext: seq<CodeUnit>): (r: string)
    requires key.e >= 0 && key.n >= 1
    ensures IsHex(r)
    ensures key.n <= 0x10000 ==> r == Encrypt(key, plaintext)
  {
    EncryptWithWidth(key, FirstUnits(plaintext), BlockWidth(key.n))
  }

  /** decrypt reading groups of the width of n - 1. */
  function DecryptFixedWidth(key: PrivateKey, ciphertext: string): (r: seq<CodeUnit>)
    requires key.d >= 0 && key.n >= 1 && IsHex(ciphertext)
    ensures key.n <= 0x10000 ==> r == Decrypt(key, ciphertext)
  {
    DecryptWithWidth(key, ciphertext, BlockWidth(key.n))
  }

  /** With groups as wide as n needs, the round trip holds for every key
      pair, whatever the size of n. */
  lemma FixedWidthRoundTrip(p: int, q: int, k: KeyPair, plaintext: seq<CodeUnit>)
    requires IsKeyPairFor(p, q, k)
    requires forall i :: 0 <= i < |plaintext| ==> plaintext[i] < p * q
    ensures DecryptFixedWidth(k.privateKey, EncryptFixedWidth(k.publicKey, plaintext)) == FirstUnits(plaintext)
  {
    MulAtLeast(p, q);
    RoundTripWithWidth(p, q, k, FirstUnits(plaintext), BlockWidth(p * q));
  }

  /** p = 257, q = 263, e = 5 is a key pair generateKeypair can return
      (n = 67591 > 0x10000), and the character '(' (code 40) encrypts to the
      five digits "1069a", which decrypt reads as two characters. */
  lemma WideModulusBreaksRoundTrip()
    ensures IsKeyPairFor(257, 263, KeyPair(PublicKey(5, 67591), PrivateKey(26829, 67591)))
    ensures Encrypt(PublicKey(5, 67591), [40]) == "1069a"
    ensures |Decrypt(PrivateKey(26829, 67591), "1069a")| == 2
  {
    WideKeyPair();
    WideEncryption();
    WideDecryption();
  }

  lemma WideKeyPair()
    ensures IsKeyPairFor(257, 263, KeyPair(PublicKey(5, 67591), PrivateKey(26829, 67591)))
  {
    forall k | 2 <= k < 17
      ensures 257 % k != 0 && 263 % k != 0
    {
      assert k == 2 || k == 3 || k == 4 || k == 5 || k == 6 || k == 7 || k == 8 || k == 9 ||
        k == 10 || k == 11 || k == 12 || k == 13 || k == 14 || k == 15 || k == 16;
    }
    TrialDivisionSuffices(257, 17);
    TrialDivisionSuffices(263, 17);
    assert NumberTheory.Gcd(5, 67072) == NumberTheory.Gcd(67072, 5) == NumberTheory.Gcd(5, 2);
    assert NumberTheory.Gcd(5, 2) == NumberTheory.Gcd(2, 1) == NumberTheory.Gcd(1, 0) == 1;
  }

  lemma WideEncryption()
    ensures Encrypt(PublicKey(5, 67591), [40]) == "1069a"
  {
    assert FirstUnits([40]) == [40];
    assert Pow(40, 5) == 102400000 by {
      assert Pow(40, 2) == 1600;
      assert Pow(40, 4) == 40 * (40 * Pow(40, 2));
    }
    assert EncryptUnit(40, 5, 67591) == 67226;
    assert ToHex(67226) == "1069a" by {
      assert ToHex(1) == "1";
      assert ToHex(16) == "10";
      assert ToHex(262) == "106";
      assert ToHex(4201) == "1069";
    }
    var groups := EncryptedGroups(PublicKey(5, 67591), [40], 4);
    assert groups == ["1069a"];
    assert Concat(groups) == "1069a" + Concat([]);
  }

  lemma WideDecryption()
    ensures |Decrypt(PrivateKey(26829, 67591), "1069a")| == 2
  {
    var c: string := "1069a";
    assert c[..4] == "1069" && c[4..] == "a";
    assert Chunks(c, 4) == ["1069", "a"];
  }
}
