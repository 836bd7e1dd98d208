/** The JavaScript string conversions the RSA step wizard relies on:
    String.prototype.trim and parseInt with no radix, which reads decimal
    digits, or hex digits after a "0x" or "0X" prefix. */
module JsText {
  import opened Wrappers
  import Hex

  /** WhiteSpace and LineTerminator of ECMAScript, the characters trim and
      parseInt skip. */
  predicate IsWhitespace(c: char)
  {
    c == '\t' || c == '\n' || c == '\U{000B}' || c == '\U{000C}' || c == '\r' || c == ' ' ||
    c == '\U{00A0}' || c == '\U{1680}' || ('\U{2000}' <= c <= '\U{200A}') ||
    c == '\U{2028}' || c == '\U{2029}' || c == '\U{202F}' || c == '\U{205F}' ||
    c == '\U{3000}' || c == '\U{FEFF}'
  }

  predicate IsDigit(c: char)
  {
    '0' <= c <= '9'
  }

  /** s without its leading white space. */
  function TrimStart(s: string): (r: string)
    ensures |r| <= |s| && r == s[|s| - |r|..]
    ensures r == [] || !IsWhitespace(r[0])
    ensures forall i :: 0 <= i < |s| - |r| ==> IsWhitespace(s[i])
    decreases |s|
  {
    if s != [] && IsWhitespace(s[0]) then TrimStart(s[1..]) else s
  }

  /** s without its trailing white space. */
  function TrimEnd(s: string): (r: string)
    ensures |r| <= |s| && r == s[..|r|]
    ensures r == [] || !IsWhitespace(r[|r| - 1])
    ensures forall i :: |r| <= i < |s| ==> IsWhitespace(s[i])
    decreases |s|
  {
    if s != [] && IsWhitespace(s[|s| - 1]) then TrimEnd(s[..|s| - 1]) else s
  }

  /** String.prototype.trim. */
  function Trim(s: string): string
  {
    TrimEnd(TrimStart(s))
  }

  /** Trimming leaves something exactly when some character is not white
      space. */
  lemma TrimEmptyIff(s: string)
    ensures |Trim(s)| > 0 <==> exists i :: 0 <= i < |s| && !IsWhitespace(s[i])
  {
    var t := TrimStart(s);
    if |Trim(s)| > 0 {
      var j := |s| - |t|;
      assert s[j] == t[0];
    } else if t != [] {
      // TrimEnd would have kept t[0], which is not white space
      assert false;
    }
  }

  /** The longest prefix of decimal digits. */
  function DigitPrefix(s: string): (r: string)
    ensures |r| <= |s| && r == s[..|r|]
    ensures forall i :: 0 <= i < |r| ==> IsDigit(r[i])
    ensures |r| < |s| ==> !IsDigit(s[|r|])
    decreases |s|
  {
    if s != [] && IsDigit(s[0]) then [s[0]] + DigitPrefix(s[1..]) else []
  }

  /** The value of a string of decimal digits, most significant first. */
  function DecimalValue(s: string): nat
    requires forall i :: 0 <= i < |s| ==> IsDigit(s[i])
  {
    if s == [] then 0 else DecimalValue(s[..|s| - 1]) * 10 + DigitValue(s[|s| - 1])
  }

  function DigitValue(c: char): (v: nat)
    requires IsDigit(c)
    ensures v < 10
  {
    c as int - '0' as int
  }

  /** parseInt(s) with no radix: leading white space, an optional sign,
      then either "0x" or "0X" and as many hex digits as there are, or as
      many decimal digits as there are; NaN (None) when there are none. */
  function ParseInt(s: string): (r: Option<int>)
  {
    ParseSigned(TrimStart(s))
  }

  /** parseInt after the leading white space. */
  function ParseSigned(t: string): (r: Option<int>)
  {
    var negative := t != [] && t[0] == '-';
    var rest := if t != [] && (t[0] == '-' || t[0] == '+') then t[1..] else t;
    match ParseMagnitude(rest)
    case None => None
    case Some(v) => Some(if negative then -(v as int) else v as int)
  }

  /** Text after the sign that parseInt reads in base 16. */
  predicate HasHexPrefix(u: string)
  {
    |u| >= 2 && u[0] == '0' && (u[1] == 'x' || u[1] == 'X')
  }

  /** The unsigned value parseInt reads after the sign: the digits of the
      radix the prefix selects, NaN when there is no such digit. */
  function ParseMagnitude(u: string): (r: Option<nat>)
  {
    if HasHexPrefix(u) then
      var h := HexPrefix(u[2..]);
      if h == [] then None else Some(Hex.ParseHex(h))
    else
      var digits := DigitPrefix(u);
      if digits == [] then None else Some(DecimalValue(digits))
  }

  /** The longest prefix of hex digits, in either case. */
  function HexPrefix(s: string): (r: string)
    ensures |r| <= |s| && r == s[..|r|]
    ensures Hex.IsHex(r)
    ensures |r| < |s| ==> !Hex.IsHexDigit(s[|r|])
    decreases |s|
  {
    if s != [] && Hex.IsHexDigit(s[0]) then [s[0]] + HexPrefix(s[1..]) else []
  }

  lemma TrimStartKeeps(s: string)
    requires s != [] && !IsWhitespace(s[0])
    ensures TrimStart(s) == s
  {
  }

  /** The decimal text of n without leading zeros. */
  function Decimal(n: nat): (s: string)
    ensures |s| >= 1 && forall i :: 0 <= i < |s| ==> IsDigit(s[i])
    decreases n
  {
    var c := ('0' as int + n % 10) as char;
    if n < 10 then [c] else Decimal(n / 10) + [c]
  }

  lemma {:induction false} DecimalValueOfDecimal(n: nat)
    ensures DecimalValue(Decimal(n)) == n
    decreases n
  {
    var s := Decimal(n);
    if n >= 10 {
      DecimalValueOfDecimal(n / 10);
      assert s[..|s| - 1] == Decimal(n / 10);
    } else {
      assert s[..0] == [];
    }
  }

  lemma {:induction false} DigitPrefixOfDigits(s: string)
    requires forall i :: 0 <= i < |s| ==> IsDigit(s[i])
    ensures DigitPrefix(s) == s
    decreases |s|
  {
    if s != [] {
      DigitPrefixOfDigits(s[1..]);
    }
  }

  /** Text that starts with a digit is read from its first character. */
  lemma ParseFromDigit(u: string)
    requires u != [] && IsDigit(u[0]) && !HasHexPrefix(u)
    ensures ParseInt(u) == Some(DecimalValue(DigitPrefix(u)))
  {
    TrimStartKeeps(u);
    assert DigitPrefix(u) != [];
  }

  /** Text that starts with '-' and then a digit is read as a negation. */
  lemma ParseFromMinus(w: string)
    requires |w| >= 2 && w[0] == '-' && IsDigit(w[1]) && !HasHexPrefix(w[1..])
    ensures ParseInt(w) == Some(-(DecimalValue(DigitPrefix(w[1..])) as int))
  {
    TrimStartKeeps(w);
    assert DigitPrefix(w[1..]) != [];
  }

  /** The decimal text of n followed by a non-digit starts with a digit,
      and its digits are exactly those of n. */
  lemma DecimalFollowedBy(n: nat, tail: string)
    requires tail == [] || !IsDigit(tail[0])
    requires n == 0 ==> tail == [] || (tail[0] != 'x' && tail[0] != 'X')
    ensures Decimal(n) + tail != [] && IsDigit((Decimal(n) + tail)[0])
    ensures !HasHexPrefix(Decimal(n) + tail)
    ensures DecimalValue(DigitPrefix(Decimal(n) + tail)) == n
  {
    var s := Decimal(n);
    DecimalValueOfDecimal(n);
    DigitPrefixAppend(s, tail);
    assert (s + tail)[0] == s[0];
    if n >= 10 {
      assert |s| >= 2 && (s + tail)[1] == s[1];
    } else if n == 0 && tail != [] {
      assert (s + tail)[1] == tail[0];
    }
  }

  /** parseInt reads back the decimal text of every natural number,
      whatever follows that is neither a digit nor, after a lone 0, the
      x of a hex prefix. */
  lemma {:induction false} ParseDecimal(n: nat, tail: string)
    requires tail == [] || !IsDigit(tail[0])
    requires n == 0 ==> tail == [] || (tail[0] != 'x' && tail[0] != 'X')
    ensures ParseInt(Decimal(n) + tail) == Some(n)
  {
    DecimalFollowedBy(n, tail);
    ParseFromDigit(Decimal(n) + tail);
  }

  /** ... and of its negation. */
  lemma {:induction false} ParseNegativeDecimal(n: nat, tail: string)
    requires tail == [] || !IsDigit(tail[0])
    requires n == 0 ==> tail == [] || (tail[0] != 'x' && tail[0] != 'X')
    ensures ParseInt("-" + (Decimal(n) + tail)) == Some(-(n as int))
  {
    var u := Decimal(n) + tail;
    DecimalFollowedBy(n, tail);
    NegatedDigits("-" + u, u);
  }

  lemma NegatedDigits(w: string, u: string)
    requires w != [] && w[0] == '-' && w[1..] == u
    requires u != [] && IsDigit(u[0]) && !HasHexPrefix(u)
    ensures ParseInt(w) == Some(-(DecimalValue(DigitPrefix(u)) as int))
  {
    ParseFromMinus(w);
  }

  /** After "0x" or "0X" parseInt reads the hex digits that follow, in
      either case, and stops at the first other character. */
  lemma ParseHexPrefixed(x: char, h: string, tail: string)
    requires x == 'x' || x == 'X'
    requires h != [] && Hex.IsHex(h) && (tail == [] || !Hex.IsHexDigit(tail[0]))
    ensures ParseInt(['0', x] + h + tail) == Some(Hex.ParseHex(h))
  {
    var u := ['0', x] + h + tail;
    assert u[2..] == h + tail;
    ParseHexText(u, h, tail);
  }

  lemma ParseHexText(u: string, h: string, tail: string)
    requires HasHexPrefix(u) && u[2..] == h + tail
    requires h != [] && Hex.IsHex(h) && (tail == [] || !Hex.IsHexDigit(tail[0]))
    ensures ParseInt(u) == Some(Hex.ParseHex(h))
  {
    UnsignedText(u);
    HexMagnitude(u, h, tail);
  }

  /** Text starting with 0 is read without a sign. */
  lemma UnsignedText(u: string)
    requires u != [] && u[0] == '0'
    ensures ParseInt(u) == if ParseMagnitude(u).None? then None else Some(ParseMagnitude(u).value as int)
  {
    TrimStartKeeps(u);
  }

  lemma HexMagnitude(u: string, h: string, tail: string)
    requires HasHexPrefix(u) && u[2..] == h + tail
    requires h != [] && Hex.IsHex(h) && (tail == [] || !Hex.IsHexDigit(tail[0]))
    ensures ParseMagnitude(u) == Some(Hex.ParseHex(h))
  {
    HexPrefixAppend(h, tail);
  }

  /** A hex prefix with no hex digit after it is NaN, not 0. */
  lemma ParseBareHexPrefix(x: char, tail: string)
    requires x == 'x' || x == 'X'
    requires tail == [] || !Hex.IsHexDigit(tail[0])
    ensures ParseInt(['0', x] + tail) == None
  {
    var u := ['0', x] + tail;
    UnsignedText(u);
    assert u[2..] == tail;
  }

  /** Text starting with '-' is read as the negation of what follows. */
  lemma NegatedText(w: string, u: string)
    requires w != [] && w[0] == '-' && w[1..] == u
    ensures ParseInt(w) == if ParseMagnitude(u).None? then None else Some(-(ParseMagnitude(u).value as int))
  {
    TrimStartKeeps(w);
  }

  /** "0x11" is 17. */
  lemma HexExampleLower()
    ensures ParseInt("0x11") == Some(17)
  {
    assert Hex.ParseHex("11") == 17 by {
      assert "11"[..1] == "1";
    }
    assert "0x11"[2..] == "11" + "";
    ParseHexText("0x11", "11", "");
  }

  /** "-0X1f" is -31: the sign comes before the prefix. */
  lemma HexExampleNegative()
    ensures ParseInt("-0X1f") == Some(-31)
  {
    assert Hex.ParseHex("1f") == 31 by {
      assert "1f"[..1] == "1";
    }
    assert "-0X1f"[1..] == "0X1f" && "0X1f"[2..] == "1f" + "";
    NegatedHex("-0X1f", "0X1f", "1f", "");
  }

  lemma NegatedHex(w: string, u: string, h: string, tail: string)
    requires w != [] && w[0] == '-' && w[1..] == u
    requires HasHexPrefix(u) && u[2..] == h + tail
    requires h != [] && Hex.IsHex(h) && (tail == [] || !Hex.IsHexDigit(tail[0]))
    ensures ParseInt(w) == Some(-(Hex.ParseHex(h) as int))
  {
    NegatedText(w, u);
    HexMagnitude(u, h, tail);
  }

  /** "0x" alone is NaN. */
  lemma HexExampleBare()
    ensures ParseInt("0x") == None
  {
    UnsignedText("0x");
    assert "0x"[2..] == [];
  }

  lemma {:induction false} HexPrefixAppend(h: string, tail: string)
    requires Hex.IsHex(h)
    requires tail == [] || !Hex.IsHexDigit(tail[0])
    ensures HexPrefix(h + tail) == h
    decreases |h|
  {
    if h != [] {
      HexPrefixAppend(h[1..], tail);
      assert (h + tail)[1..] == h[1..] + tail;
    } else {
      assert h + tail == tail;
    }
  }

  lemma {:induction false} DigitPrefixAppend(s: string, tail: string)
    requires forall i :: 0 <= i < |s| ==> IsDigit(s[i])
    requires tail == [] || !IsDigit(tail[0])
    ensures DigitPrefix(s + tail) == s
    decreases |s|
  {
    if s != [] {
      DigitPrefixAppend(s[1..], tail);
      assert (s + tail)[1..] == s[1..] + tail;
    } else {
      assert s + tail == tail;
    }
  }

  /** Text with no digit after the white space and sign is NaN. */
  lemma ParseWhitespaceOnly(s: string)
    requires forall i :: 0 <= i < |s| ==> IsWhitespace(s[i])
    ensures ParseInt(s) == None
  {
  }
}
