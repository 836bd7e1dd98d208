/** The step-by-step RSA wizard (src/pages/RSAVisualizer.jsx): eight steps
    that read p, q, e and a message from one text field, check each entry
    before moving on, and derive n, phi and d along the way. */
module RsaVisualizer {
  import opened Wrappers
  import opened NumberTheory
  import JsText
  import Rsa

  /** The number of steps: p, q, n, phi, e, message, encryption,
      decryption. */
  const StepCount := 8

  // ---------------------------------------------------------------------
  // Utility functions of the page

  /** isPrime on the result of parseInt. Every comparison with NaN is
      false, so NaN (None) passes both the `num < 2` test and the loop and
      is reported prime; the steps reject it with `num > 1` instead. The
      integer case is the trial division of src/rsa/index.js. */
  method IsPrime(num: Option<int>) returns (r: bool)
    ensures r <==> num.None? || Prime(num.value)
  {
    if num.None? {
      return true;
    }
    r := Rsa.IsPrime(num.value);
  }

  /** k is an inverse of e modulo phi. */
  predicate IsInverse(k: int, e: int, phi: int)
  {
    phi > 0 && (k * e) % phi == 1
  }

  /** d is the least positive inverse of e modulo phi. */
  ghost predicate IsLeastInverse(d: int, e: int, phi: int)
  {
    1 <= d && IsInverse(d, e, phi) && forall k :: 1 <= k < d ==> !IsInverse(k, e, phi)
  }

  /** A unit modulo phi has an inverse in [1, phi). */
  lemma InverseBelow(e: nat, phi: nat) returns (b: int)
    requires phi >= 2 && Gcd(e, phi) == 1
    ensures 1 <= b < phi && IsInverse(b, e, phi)
  {
    var x, y := Bezout(e, phi);
    b := ReduceCombination(e, phi, x, y);
  }

  /** From e * x + phi * y == 1, the inverse x reduced into [1, phi). */
  lemma ReduceCombination(e: int, phi: int, x: int, y: int) returns (b: int)
    requires phi >= 2 && e * x + phi * y == 1
    ensures 1 <= b < phi && IsInverse(b, e, phi)
  {
    assert e * x == 1 + phi * (-y);
    ModAddMultiple(1, -y, phi);
    assert (e * x) % phi == 1 % phi;
    ModMulRight(e, x, phi);
    b := x % phi;
    assert (e * b) % phi == 1;
    assert b * e == e * b;
  }

  /** modInverse of the page: counts d up from 1 until d * e is 1 modulo
      phi. The search ends exactly when e is a unit modulo phi (see
      SearchNeverEnds), which the step that calls it has checked. */
  method ModInverse(e: int, phi: int) returns (d: int)
    requires e >= 0 && phi >= 2 && Gcd(e, phi) == 1
    ensures d < phi && IsLeastInverse(d, e, phi)
  {
    ghost var bound := InverseBelow(e, phi);
    d := 1;
    while (d * e) % phi != 1
      invariant 1 <= d <= bound
      invariant forall k :: 1 <= k < d ==> !IsInverse(k, e, phi)
      decreases bound - d
    {
      d := d + 1;
    }
  }

  /** When e is not a unit modulo phi (or phi is 1) no d satisfies the
      loop's exit test, so modInverse never returns. */
  lemma SearchNeverEnds(e: nat, phi: nat)
    requires phi >= 1 && (phi == 1 || Gcd(e, phi) != 1)
    ensures forall d :: !IsInverse(d, e, phi)
  {
    forall d | IsInverse(d, e, phi)
      ensures false
    {
      if phi > 1 {
        assert (e * d) % phi == 1 by {
          assert e * d == d * e;
        }
        InverseImpliesCoprime(e, phi, d);
      }
    }
  }

  /** The least positive inverse below phi is the only inverse in
      [0, phi): the linear search finds the value the extended Euclidean
      algorithm of src/rsa/index.js computes. */
  lemma LeastInverseIsTheInverse(d: int, e: int, phi: int)
    requires phi >= 2 && d < phi && IsLeastInverse(d, e, phi)
    ensures forall r :: 0 <= r < phi && IsInverse(r, e, phi) ==> r == d
  {
    forall r | 0 <= r < phi && IsInverse(r, e, phi)
      ensures r == d
    {
      assert e * r == r * e && e * d == d * e;
      InverseUnique(e, phi, d, r);
    }
  }

  // ---------------------------------------------------------------------
  // The wizard's state

  /** The record stored by step 4: both primes, n, phi, e and d. */
  datatype RsaDetails = RsaDetails(p: int, q: int, n: int, phi: int, e: int, d: int)

  /** A snapshot of the page's state variables; None is null. */
  datatype WizardState = WizardState(
    step: int, p: Option<int>, q: Option<int>, message: string,
    rsaDetails: Option<RsaDetails>, currentInput: string)

  /** The details derived from p and q: n = p * q, phi = (p - 1)(q - 1),
      1 < e < phi coprime to phi, and d the least positive inverse of e. */
  ghost predicate DetailsFor(r: RsaDetails, p: int, q: int)
  {
    r.p == p && r.q == q && r.n == p * q && r.phi == (p - 1) * (q - 1) &&
    1 < r.e < r.phi && Gcd(r.e, r.phi) == 1 &&
    r.d < r.phi && IsLeastInverse(r.d, r.e, r.phi)
  }

  /** What holds at each step: every earlier step was passed with the
      values now stored. Going back keeps these facts, and going forward
      again passes the later steps anew. */
  ghost predicate ValidState(s: WizardState)
  {
    0 <= s.step < StepCount &&
    (s.step >= 1 ==> s.p.Some? && Prime(s.p.value)) &&
    (s.step >= 2 ==> s.q.Some? && Prime(s.q.value) && s.q.value != s.p.value) &&
    (s.step >= 5 ==> s.rsaDetails.Some? && DetailsFor(s.rsaDetails.value, s.p.value, s.q.value)) &&
    (s.step >= 6 ==> |JsText.Trim(s.message)| > 0)
  }

  /** The validate function of the current step: a prime for p, a prime
      other than p for q, a unit 1 < e < phi for e, a message that is not
      blank; the calculation steps accept anything. */
  ghost predicate Accepts(s: WizardState)
    requires ValidState(s)
  {
    var input := JsText.ParseInt(s.currentInput);
    if s.step == 0 then
      input.Some? && Prime(input.value)
    else if s.step == 1 then
      input.Some? && Prime(input.value) && input.value != s.p.value
    else if s.step == 4 then
      var phi := (s.p.value - 1) * (s.q.value - 1);
      input.Some? && 1 < input.value < phi && Gcd(input.value, phi) == 1
    else if s.step == 5 then
      |JsText.Trim(s.currentInput)| > 0
    else
      true
  }

  /** handleNext on an accepted entry: the step's onNext, then the next
      step. Each input step stores what was entered and clears the field;
      step 4 stores the details with the least inverse d. */
  ghost predicate NextOf(s: WizardState, t: WizardState)
    requires ValidState(s) && Accepts(s)
  {
    if s.step == 0 then
      t == s.(step := 1, p := JsText.ParseInt(s.currentInput), currentInput := "")
    else if s.step == 1 then
      t == s.(step := 2, q := JsText.ParseInt(s.currentInput), currentInput := "")
    else if s.step == 4 then
      var p, q := s.p.value, s.q.value;
      var phi := (p - 1) * (q - 1);
      var e := JsText.ParseInt(s.currentInput).value;
      t.rsaDetails.Some? &&
      t == s.(step := 5, rsaDetails := Some(RsaDetails(p, q, p * q, phi, e, t.rsaDetails.value.d)),
              currentInput := "") &&
      t.rsaDetails.value.d < phi && IsLeastInverse(t.rsaDetails.value.d, e, phi)
    else if s.step == 5 then
      t == s.(step := 6, message := s.currentInput, currentInput := "")
    else
      t == s.(step := s.step + 1)
  }

  /** Moving on from an accepted step, short of the last, keeps every
      fact about the earlier steps. */
  lemma NextKeepsValid(s: WizardState, t: WizardState)
    requires ValidState(s) && s.step < StepCount - 1 && Accepts(s) && NextOf(s, t)
    ensures ValidState(t)
  {
    if s.step == 4 {
      var p, q := s.p.value, s.q.value;
      assert DetailsFor(t.rsaDetails.value, p, q);
    }
  }

  /** The details of every state past step 4 are an RSA key pair in the
      sense of src/rsa/index.js, so Rsa.RoundTrip applies to them. */
  lemma DetailsAreKeyPair(s: WizardState)
    requires ValidState(s) && s.step >= 5
    ensures Rsa.IsKeyPairFor(s.p.value, s.q.value,
              Rsa.KeyPair(Rsa.PublicKey(s.rsaDetails.value.e, s.rsaDetails.value.n),
                          Rsa.PrivateKey(s.rsaDetails.value.d, s.rsaDetails.value.n)))
  {
    var r := s.rsaDetails.value;
    assert IsInverse(r.d, r.e, r.phi);
  }

  /** The onNext of an accepted step followed by setStep(step + 1). */
  method Advance(s: WizardState) returns (t: WizardState)
    requires ValidState(s) && s.step < StepCount - 1 && Accepts(s)
    ensures NextOf(s, t) && ValidState(t)
  {
    var input := JsText.ParseInt(s.currentInput);
    if s.step == 0 {
      t := s.(step := 1, p := input, currentInput := "");
    } else if s.step == 1 {
      t := s.(step := 2, q := input, currentInput := "");
    } else if s.step == 4 {
      var p, q := s.p.value, s.q.value;
      var phi := (p - 1) * (q - 1);
      var e := input.value;
      var d := ModInverse(e, phi);
      t := s.(step := 5, rsaDetails := Some(RsaDetails(p, q, p * q, phi, e, d)), currentInput := "");
    } else if s.step == 5 {
      t := s.(step := 6, message := s.currentInput, currentInput := "");
    } else {
      t := s.(step := s.step + 1);
    }
    NextKeepsValid(s, t);
  }

  /** The wizard component: its state variables and event handlers. */
  class Wizard {
    var step: int
    var p: Option<int>
    var q: Option<int>
    var message: string
    var rsaDetails: Option<RsaDetails>
    var currentInput: string

    function State(): WizardState
      reads this
    {
      WizardState(step, p, q, message, rsaDetails, currentInput)
    }

    ghost predicate Valid()
      reads this
    {
      ValidState(State())
    }

    /** The initial state: step 0, no primes, empty message and field. */
    constructor()
      ensures State() == WizardState(0, None, None, "", None, "")
      ensures Valid()
    {
      step := 0;
      p := None;
      q := None;
      message := "";
      rsaDetails := None;
      currentInput := "";
    }

    /** The input field's onChange. */
    method SetInput(text: string)
      requires Valid()
      modifies this
      ensures State() == old(State()).(currentInput := text)
      ensures Valid()
    {
      currentInput := text;
    }

    /** validate of the current step. */
    method Validate() returns (ok: bool)
      requires Valid()
      ensures ok <==> Accepts(State())
    {
      var num := JsText.ParseInt(currentInput);
      if step == 0 {
        var prime := IsPrime(num);
        ok := prime && num.Some? && num.value > 1;
      } else if step == 1 {
        var prime := IsPrime(num);
        ok := prime && num.Some? && num.value > 1 && num.value != p.value;
      } else if step == 4 {
        var phi := (p.value - 1) * (q.value - 1);
        if num.Some? && num.value > 1 && num.value < phi {
          var g := Rsa.Gcd(num.value, phi);
          ok := g == 1;
        } else {
          ok := false;
        }
      } else if step == 5 {
        ok := |JsText.Trim(currentInput)| > 0;
      } else {
        ok := true;
      }
    }

    /** handleNext, reachable while the Next button shows (every step but
      the last): a rejected entry changes nothing (the page alerts), an
      accepted one runs the step's onNext and moves to the next step. */
    method HandleNext() returns (accepted: bool)
      requires Valid() && step < StepCount - 1
      modifies this
      ensures accepted <==> Accepts(old(State()))
      ensures accepted ==> NextOf(old(State()), State())
      ensures !accepted ==> State() == old(State())
      ensures Valid()
    {
      accepted := Validate();
      if !accepted {
        return;
      }
      var s := State();
      var next := Advance(s);
      step, p, q, message, rsaDetails, currentInput :=
        next.step, next.p, next.q, next.message, next.rsaDetails, next.currentInput;
      assert State() == next;
    }

    /** handlePrevious: one step back, except at the first step. Nothing
      else is undone. */
    method HandlePrevious()
      requires Valid()
      modifies this
      ensures State() == old(State()).(step := if old(step) > 0 then old(step) - 1 else 0)
      ensures Valid()
    {
      if step > 0 {
        step := step - 1;
      }
    }
  }
}
