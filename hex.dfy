/** Hexadecimal text as the RSA demo produces and reads it:
    BigInt.prototype.toString(16), String.prototype.padStart,
    parseInt(_, 16) on a string of hex digits, the block split done by
    match(/.{1,w}/g) and join(""). */
module Hex {
  const Digits: string := "0123456789abcdef"

  predicate IsHexDigit(c: char) {
    '0' <= c <= '9' || 'a' <= c <= 'f' || 'A' <= c <= 'F'
  }

  predicate IsHex(s: string) {
    forall i :: 0 <= i < |s| ==> IsHexDigit(s[i])
  }

  /** Value of one hex digit; upper and lower case are both accepted, as
      parseInt does. */
  function DigitValue(c: char): (v: nat)
    requires IsHexDigit(c)
    ensures v < 16
    ensures c in Digits ==> Digits[v] == c
  {
    if c <= '9' then c as int - '0' as int
    else if c <= 'F' then c as int - 'A' as int + 10
    else c as int - 'a' as int + 10
  }

  /** Lower-case hex digits without leading zeros (one digit for zero). */
  function ToHex(v: nat): (s: string)
    ensures |s| >= 1 && IsHex(s)
    ensures s[0] != '0' || v == 0
    decreases v
  {
    if v < 16 then [Digits[v]] else ToHex(v / 16) + [Digits[v % 16]]
  }

  /** s preceded by as many copies of fill as bring it to width. */
  function PadStart(s: string, width: nat, fill: char): (r: string)
    ensures |r| == if |s| >= width then |s| else width
    ensures r[|r| - |s|..] == s
    ensures forall i :: 0 <= i < |r| - |s| ==> r[i] == fill
  {
    if |s| >= width then s else seq(width - |s|, _ => fill) + s
  }

  /** The number whose hex digits are s, most significant first. */
  function ParseHex(s: string): nat
    requires IsHex(s)
  {
    if s == [] then 0 else ParseHex(s[..|s| - 1]) * 16 + DigitValue(s[|s| - 1])
  }

  /** The strings of a sequence joined end to end. */
  function Concat(blocks: seq<string>): (r: string)
    ensures (forall i :: 0 <= i < |blocks| ==> IsHex(blocks[i])) ==> IsHex(r)
    decreases |blocks|
  {
    if blocks == [] then [] else blocks[0] + Concat(blocks[1..])
  }

  /** s cut into consecutive pieces of w characters, the last one shorter
      when w does not divide |s|; an empty string gives no piece (the
      `|| []` after a failed match). */
  function Chunks(s: string, w: nat): (r: seq<string>)
    requires w >= 1
    ensures forall i :: 0 <= i < |r| ==> 1 <= |r[i]| <= w
    ensures Concat(r) == s
    ensures IsHex(s) ==> forall i :: 0 <= i < |r| ==> IsHex(r[i])
    decreases |s|
  {
    if s == [] then []
    else if |s| <= w then [s]
    else [s[..w]] + Chunks(s[w..], w)
  }

  /** Every piece but the last is full: |s| pieces of w need between
      w * (count - 1) + 1 and w * count characters. */
  lemma {:induction false} ChunksCount(s: string, w: nat)
    requires w >= 1
    ensures var r := Chunks(s, w);
      w * (|r| - 1) < |s| <= w * |r| || (s == [] && r == [])
    decreases |s|
  {
    if s != [] && |s| > w {
      ChunksCount(s[w..], w);
      var k := |Chunks(s[w..], w)|;
      assert |Chunks(s, w)| == k + 1;
      Distribute(w, k);
    }
  }

  lemma Distribute(w: int, k: int)
    ensures w * (k - 1) + w == w * k && w * k + w == w * (k + 1)
  {
  }

  lemma DigitRoundTrip(k: nat)
    requires k < 16
    ensures IsHexDigit(Digits[k]) && DigitValue(Digits[k]) == k
  {
    if k < 8 {
      assert k == 0 || k == 1 || k == 2 || k == 3 || k == 4 || k == 5 || k == 6 || k == 7;
    } else {
      assert k == 8 || k == 9 || k == 10 || k == 11 || k == 12 || k == 13 || k == 14 || k == 15;
    }
  }

  /** Joining n blocks of w characters gives w * n characters. */
  lemma {:induction false} ConcatLength(blocks: seq<string>, w: nat)
    requires forall i :: 0 <= i < |blocks| ==> |blocks[i]| == w
    ensures |Concat(blocks)| == w * |blocks|
    decreases |blocks|
  {
    if blocks != [] {
      ConcatLength(blocks[1..], w);
      assert w * |blocks| == w * |blocks[1..]| + w;
    }
  }

  lemma {:induction false} ParseToHex(v: nat)
    ensures ParseHex(ToHex(v)) == v
    decreases v
  {
    DigitRoundTrip(v % 16);
    if v >= 16 {
      ParseToHex(v / 16);
      var s := ToHex(v);
      var t := ToHex(v / 16);
      assert s == t + [Digits[v % 16]];
      assert s[..|s| - 1] == t;
      assert ParseHex(s) == ParseHex(t) * 16 + v % 16;
    } else {
      assert ToHex(v) == [Digits[v]];
      assert ToHex(v)[..0] == [];
    }
  }

  /** Leading zeros do not change the value read back. */
  lemma {:induction false} ParseLeadingZeros(k: nat, s: string)
    requires IsHex(s)
    ensures IsHex(seq(k, _ => '0') + s)
    ensures ParseHex(seq(k, _ => '0') + s) == ParseHex(s)
    decreases |s| + k
  {
    var z := seq(k, _ => '0');
    var t := z + s;
    if s != [] {
      assert t[..|t| - 1] == z + s[..|s| - 1];
      ParseLeadingZeros(k, s[..|s| - 1]);
    } else if k > 0 {
      assert t[..|t| - 1] == seq(k - 1, _ => '0') + s;
      ParseLeadingZeros(k - 1, s);
    }
  }

  /** A larger number never has fewer hex digits. */
  lemma {:induction false} ToHexLengthMonotone(a: nat, b: nat)
    requires a <= b
    ensures |ToHex(a)| <= |ToHex(b)|
    decreases b
  {
    if a >= 16 {
      ToHexLengthMonotone(a / 16, b / 16);
    }
  }

  /** Every value below 16^4 fits in four hex digits. */
  lemma ToHexFourDigits(v: nat)
    requires v < 0x10000
    ensures |ToHex(v)| <= 4
  {
    ToHexLengthMonotone(v, 0xFFFF);
    assert ToHex(0xFFFF) == "ffff";
  }

  /** A value that fits in w digits comes back from its zero-padded form,
      which has exactly w digits. */
  lemma PaddedRoundTrip(v: nat, w: nat)
    requires |ToHex(v)| <= w
    ensures |PadStart(ToHex(v), w, '0')| == w
    ensures IsHex(PadStart(ToHex(v), w, '0'))
    ensures ParseHex(PadStart(ToHex(v), w, '0')) == v
  {
    var h := ToHex(v);
    assert PadStart(h, w, '0') == seq(w - |h|, _ => '0') + h;
    ParseLeadingZeros(w - |h|, h);
    ParseToHex(v);
  }

  /** Joining blocks of exactly w characters and cutting the result every
      w characters gives the blocks back. */
  lemma {:induction false} ChunksOfConcat(blocks: seq<string>, w: nat)
    requires w >= 1
    requires forall i :: 0 <= i < |blocks| ==> |blocks[i]| == w
    ensures Chunks(Concat(blocks), w) == blocks
    decreases |blocks|
  {
    if blocks != [] {
      ChunksOfConcat(blocks[1..], w);
      var rest := Concat(blocks[1..]);
      assert Concat(blocks) == blocks[0] + rest;
      if |blocks| == 1 {
        assert rest == [];
        assert Concat(blocks) == blocks[0];
      } else {
        assert rest == blocks[1] + Concat(blocks[2..]);
        assert (blocks[0] + rest)[..w] == blocks[0];
        assert (blocks[0] + rest)[w..] == rest;
      }
    }
  }
}
