/** `parseInt(string)` with no radix argument (section 19.2.5 of ECMA-262):
    skip leading white space, read an optional sign, switch to radix 16
    after a `0x`/`0X` prefix, then read the longest run of radix digits;
    an empty run is `NaN`, modelled as `None`. */
module JsParseInt {
  import opened Wrappers
  import opened JsText

  predicate IsDecimalDigit(c: char) {
    '0' <= c <= '9'
  }

  predicate IsHexDigit(c: char) {
    IsDecimalDigit(c) || 'a' <= c <= 'f' || 'A' <= c <= 'F'
  }

  function DigitValue(c: char): (d: nat)
    requires IsHexDigit(c)
    ensures d < 16
    ensures d < 10 <==> IsDecimalDigit(c)
  {
    if IsDecimalDigit(c) then c as int - '0' as int
    else if 'a' <= c <= 'f' then c as int - 'a' as int + 10
    else c as int - 'A' as int + 10
  }

  type Radix = r: nat | r == 10 || r == 16 witness 10

  predicate IsRadixDigit(c: char, radix: Radix) {
    IsHexDigit(c) && DigitValue(c) < radix
  }

  /** The longest prefix of `s` made of radix digits. */
  function DigitPrefix(s: string, radix: Radix): (r: string)
    ensures |r| <= |s| && r == s[..|r|]
    ensures forall i :: 0 <= i < |r| ==> IsRadixDigit(r[i], radix)
    ensures |r| < |s| ==> !IsRadixDigit(s[|r|], radix)
  {
    if |s| > 0 && IsRadixDigit(s[0], radix) then [s[0]] + DigitPrefix(s[1..], radix) else []
  }

  /** The value of a digit string, most significant digit first. */
  function DigitsValue(ds: string, radix: Radix): nat
    requires forall i :: 0 <= i < |ds| ==> IsRadixDigit(ds[i], radix)
  {
    if |ds| == 0 then 0
    else
      var last := ds[|ds| - 1];
      assert IsRadixDigit(last, radix);
      DigitsValue(ds[..|ds| - 1], radix) * radix + DigitValue(last)
  }

  /** Splits off an optional leading sign; `true` when it is a minus. */
  function Sign(t: string): (bool, string) {
    if |t| > 0 && t[0] == '-' then (true, t[1..])
    else if |t| > 0 && t[0] == '+' then (false, t[1..])
    else (false, t)
  }

  /** Splits off an optional `0x`/`0X` prefix, choosing the radix. */
  function RadixPrefix(u: string): (Radix, string) {
    if |u| >= 2 && u[0] == '0' && (u[1] == 'x' || u[1] == 'X') then (16, u[2..]) else (10, u)
  }

  /** The magnitude `parseInt` reads once white space and sign are gone:
      radix prefix, then the longest digit run; `None` when the run is empty. */
  function ParseMagnitude(u: string): Option<nat> {
    var (radix, v) := RadixPrefix(u);
    var ds := DigitPrefix(v, radix);
    if |ds| == 0 then None else Some(DigitsValue(ds, radix))
  }

  /** The number read once leading white space is gone: an optional sign,
      then the magnitude. Only a minus sign makes it negative. */
  function ParseSigned(t: string): (r: Option<int>)
    ensures r.Some? && r.value < 0 ==> |t| > 0 && t[0] == '-'
  {
    var (negative, u) := Sign(t);
    match ParseMagnitude(u)
    case None => None
    case Some(m) => Some(if negative then -(m as int) else m as int)
  }

  /** `parseInt(s)`; the number is kept as an exact integer (see README).
      Only a minus sign makes the number negative, and text that starts
      with a digit other than `0` always reads as a number. */
  function ParseInt(s: string): (r: Option<int>)
    ensures r.Some? && r.value < 0 ==> |TrimStart(s)| > 0 && TrimStart(s)[0] == '-'
    ensures |s| > 0 && IsDecimalDigit(s[0]) && s[0] != '0' ==> r.Some? && r.value >= 0
  {
    if |s| > 0 && IsDecimalDigit(s[0]) && s[0] != '0' then
      DigitStartReadsNumber(s);
      ParseSigned(TrimStart(s))
    else
      ParseSigned(TrimStart(s))
  }

  /** Text starting with a digit 1-9 is not trimmed, has no sign and no
      radix prefix, and its digit run is not empty. */
  lemma DigitStartReadsNumber(s: string)
    requires |s| > 0 && IsDecimalDigit(s[0]) && s[0] != '0'
    ensures TrimStart(s) == s
    ensures ParseSigned(s).Some? && ParseSigned(s).value >= 0
  {
    assert !IsWhiteSpace(s[0]);
    assert Sign(s) == (false, s);
    assert RadixPrefix(s) == (10, s);
    assert IsRadixDigit(s[0], 10);
  }

  function DecimalDigit(d: nat): (c: char)
    requires d < 10
    ensures IsDecimalDigit(c) && DigitValue(c) == d
  {
    ('0' as int + d) as char
  }

  /** The decimal rendering of a natural number, without leading zeros. */
  function DecimalString(n: nat): (s: string)
    ensures |s| > 0
    ensures forall i :: 0 <= i < |s| ==> IsDecimalDigit(s[i])
    ensures |s| > 1 ==> s[0] != '0'
  {
    if n < 10 then [DecimalDigit(n)] else DecimalString(n / 10) + [DecimalDigit(n % 10)]
  }

  lemma {:induction false} DecimalStringValue(n: nat)
    ensures DigitsValue(DecimalString(n), 10) == n
    decreases n
  {
    if n >= 10 {
      DecimalStringValue(n / 10);
      var s := DecimalString(n);
      assert s[..|s| - 1] == DecimalString(n / 10);
    }
  }

  /** The digit prefix stops exactly at the first non-digit after a digit run. */
  lemma {:induction false} DigitPrefixOfDigits(ds: string, junk: string, radix: Radix)
    requires forall i :: 0 <= i < |ds| ==> IsRadixDigit(ds[i], radix)
    requires |junk| == 0 || !IsRadixDigit(junk[0], radix)
    ensures DigitPrefix(ds + junk, radix) == ds
    decreases |ds|
  {
    if |ds| > 0 {
      DigitPrefixOfDigits(ds[1..], junk, radix);
      assert (ds + junk)[1..] == ds[1..] + junk;
      assert [ds[0]] + ds[1..] == ds;
    } else {
      assert ds + junk == junk;
    }
  }

  /** Text that starts with neither white space nor a sign is read as is. */
  lemma ParseIntUnsigned(s: string)
    requires |s| > 0 && !IsWhiteSpace(s[0]) && s[0] != '-' && s[0] != '+'
    ensures ParseInt(s) == ParseMagnitude(s)
  {
    assert TrimStart(s) == s;
    assert Sign(s) == (false, s);
  }

  /** A decimal digit run followed by a non-digit reads as its value. */
  lemma MagnitudeOfDecimal(n: nat, junk: string)
    requires |junk| == 0 || !IsDecimalDigit(junk[0])
    requires n == 0 && |junk| > 0 ==> junk[0] != 'x' && junk[0] != 'X'
    ensures ParseMagnitude(DecimalString(n) + junk) == Some(n)
  {
    var ds := DecimalString(n);
    var s := ds + junk;
    assert s[0] == ds[0];
    assert |s| >= 2 ==> s[1] == if |ds| > 1 then ds[1] else junk[0];
    assert RadixPrefix(s) == (10, s);
    DigitPrefixOfDigits(ds, junk, 10);
    DecimalStringValue(n);
  }

  /** A decimal rendering parses back to its number, whatever non-digit
      text follows it (unless that text turns a lone `0` into a `0x`
      prefix). */
  lemma ParseIntDecimal(n: nat, junk: string)
    requires |junk| == 0 || !IsDecimalDigit(junk[0])
    requires n == 0 && |junk| > 0 ==> junk[0] != 'x' && junk[0] != 'X'
    ensures ParseInt(DecimalString(n) + junk) == Some(n)
  {
    var s := DecimalString(n) + junk;
    assert s[0] == DecimalString(n)[0];
    ParseIntUnsigned(s);
    MagnitudeOfDecimal(n, junk);
  }

  /** A leading minus sign negates the parsed number, whatever non-digit
      text follows the digits (such as the `".5"` of `"-2.5"`). */
  lemma {:induction false} ParseIntNegative(n: nat, junk: string)
    requires |junk| == 0 || !IsDecimalDigit(junk[0])
    requires n == 0 && |junk| > 0 ==> junk[0] != 'x' && junk[0] != 'X'
    ensures ParseInt("-" + (DecimalString(n) + junk)) == Some(-(n as int))
  {
    ParseIntMinus(DecimalString(n) + junk);
    MagnitudeOfDecimal(n, junk);
  }

  /** A minus sign negates whatever magnitude follows it. */
  lemma ParseIntMinus(u: string)
    ensures ParseMagnitude(u).None? ==> ParseInt("-" + u).None?
    ensures ParseMagnitude(u).Some? ==> ParseInt("-" + u) == Some(-(ParseMagnitude(u).value as int))
  {
    var s := "-" + u;
    assert s[0] == '-' && s[1..] == u;
    TrimStartUntouched(s);
    assert Sign(s) == (true, u);
  }

  /** Text that does not start with white space is not trimmed. */
  lemma TrimStartUntouched(s: string)
    requires |s| > 0 && !IsWhiteSpace(s[0])
    ensures TrimStart(s) == s
  {
  }

  /** After a minus sign the number is never positive: it is `NaN` or at
      most 0, so every such count fails the first check. */
  lemma ParseIntAfterMinus(s: string)
    requires |TrimStart(s)| > 0 && TrimStart(s)[0] == '-'
    ensures ParseInt(s).None? || ParseInt(s).value <= 0
  {
    assert Sign(TrimStart(s)).0;
  }

  /** Text whose first character is neither white space, a sign nor a
      digit (such as `".5"` or `"e3"`) is `NaN`. */
  lemma ParseIntNonDigitStart(s: string)
    requires |s| > 0 && !IsWhiteSpace(s[0]) && s[0] != '-' && s[0] != '+' && !IsDecimalDigit(s[0])
    ensures ParseInt(s) == None
  {
    ParseIntUnsigned(s);
    assert RadixPrefix(s) == (10, s);
    assert !IsRadixDigit(s[0], 10);
  }

  /** Leading `0` digits add nothing to a digit string's value. */
  lemma {:induction false} ZerosValue(zeros: string, radix: Radix)
    requires forall i :: 0 <= i < |zeros| ==> zeros[i] == '0'
    ensures forall i :: 0 <= i < |zeros| ==> IsRadixDigit(zeros[i], radix)
    ensures DigitsValue(zeros, radix) == 0
    decreases |zeros|
  {
    if |zeros| > 0 {
      ZerosValue(zeros[..|zeros| - 1], radix);
    }
  }

  lemma {:induction false} DigitsValueLeadingZeros(zeros: string, ds: string, radix: Radix)
    requires forall i :: 0 <= i < |zeros| ==> zeros[i] == '0'
    requires forall i :: 0 <= i < |ds| ==> IsRadixDigit(ds[i], radix)
    ensures forall i :: 0 <= i < |zeros + ds| ==> IsRadixDigit((zeros + ds)[i], radix)
    ensures DigitsValue(zeros + ds, radix) == DigitsValue(ds, radix)
    decreases |ds|
  {
    ZerosValue(zeros, radix);
    if |ds| == 0 {
      assert zeros + ds == zeros;
    } else {
      var init := ds[..|ds| - 1];
      assert (zeros + ds)[..|zeros + ds| - 1] == zeros + init;
      DigitsValueLeadingZeros(zeros, init, radix);
    }
  }

  /** A run of `0`s, a decimal rendering and a non-digit tail: the radix
      stays 10 and the value is the rendered number. */
  lemma {:induction false} MagnitudeOfZeroPadded(zeros: string, n: nat, junk: string)
    requires |zeros| > 0 && forall i :: 0 <= i < |zeros| ==> zeros[i] == '0'
    requires |junk| == 0 || !IsDecimalDigit(junk[0])
    ensures ParseMagnitude(zeros + DecimalString(n) + junk) == Some(n)
  {
    var dec := DecimalString(n);
    var ds := zeros + dec;
    var s := ds + junk;
    assert s[1] == ds[1];
    assert RadixPrefix(s) == (10, s);
    DigitsValueLeadingZeros(zeros, dec, 10);
    DigitPrefixOfDigits(ds, junk, 10);
    DecimalStringValue(n);
  }

  /** Leading zeros do not change the number read (`"02"` reads as 2);
      they do not switch the radix either, since a `0x` prefix needs the
      `x` right after the first `0`. */
  lemma {:induction false} ParseIntLeadingZeros(zeros: string, n: nat, junk: string)
    requires forall i :: 0 <= i < |zeros| ==> zeros[i] == '0'
    requires |junk| == 0 || !IsDecimalDigit(junk[0])
    requires |zeros| == 0 && n == 0 && |junk| > 0 ==> junk[0] != 'x' && junk[0] != 'X'
    ensures ParseInt(zeros + DecimalString(n) + junk) == Some(n)
  {
    var s := zeros + DecimalString(n) + junk;
    if |zeros| == 0 {
      assert s == DecimalString(n) + junk;
      ParseIntDecimal(n, junk);
    } else {
      assert s[0] == '0';
      ParseIntUnsigned(s);
      MagnitudeOfZeroPadded(zeros, n, junk);
    }
  }

  lemma {:induction false} TrimStartSkipsWhiteSpace(ws: string, s: string)
    requires AllWhiteSpace(ws)
    ensures TrimStart(ws + s) == TrimStart(s)
    decreases |ws|
  {
    if |ws| > 0 {
      assert (ws + s)[0] == ws[0];
      assert (ws + s)[1..] == ws[1..] + s;
      TrimStartSkipsWhiteSpace(ws[1..], s);
    } else {
      assert ws + s == s;
    }
  }

  /** Leading white space never changes what `parseInt` reads. */
  lemma ParseIntSkipsWhiteSpace(ws: string, s: string)
    requires AllWhiteSpace(ws)
    ensures ParseInt(ws + s) == ParseInt(s)
  {
    TrimStartSkipsWhiteSpace(ws, s);
  }

  /** Without a decimal digit there is no `0` to start a hexadecimal prefix,
      so the decimal digit run is empty. */
  lemma MagnitudeWithoutDigits(u: string)
    requires forall i :: 0 <= i < |u| ==> !IsDecimalDigit(u[i])
    ensures ParseMagnitude(u) == None
  {
    assert RadixPrefix(u) == (10, u);
    assert |u| > 0 ==> !IsRadixDigit(u[0], 10);
  }

  /** Text without any decimal digit is `NaN`. */
  lemma ParseIntWithoutDigits(s: string)
    requires forall i :: 0 <= i < |s| ==> !IsDecimalDigit(s[i])
    ensures ParseInt(s) == None
  {
    var t := TrimStart(s);
    var u := Sign(t).1;
    assert u == t[|t| - |u|..];
    assert t == s[|s| - |t|..];
    forall i | 0 <= i < |u|
      ensures !IsDecimalDigit(u[i])
    {
      assert u[i] == t[|t| - |u| + i] == s[|s| - |t| + |t| - |u| + i];
    }
    MagnitudeWithoutDigits(u);
  }

  /** `0x` switches to radix 16. */
  lemma ParseIntHex()
    ensures ParseInt("0x1A") == Some(26)
  {
    ParseIntUnsigned("0x1A");
    assert RadixPrefix("0x1A") == (16, "1A");
    DigitPrefixOfDigits("1A", "", 16);
    assert "1A" + "" == "1A";
    assert "1A"[..1] == "1";
    assert "1"[..0] == "";
    assert DigitsValue("1", 16) == 1;
    assert DigitsValue("1A", 16) == 26;
  }

  lemma MagnitudeOfHex10()
    ensures ParseMagnitude("0X10") == Some(16)
  {
    assert RadixPrefix("0X10") == (16, "10");
    DigitPrefixOfDigits("10", "", 16);
    assert "10" + "" == "10";
    assert "10"[..1] == "1";
    assert "1"[..0] == "";
    assert DigitsValue("1", 16) == 1;
  }

  /** The sign comes before the `0X` prefix. */
  lemma ParseIntNegativeHex()
    ensures ParseInt("-0X10") == Some(-16)
  {
    var s := "-0X10";
    assert TrimStart(s) == s;
    assert s[1..] == "0X10";
    assert Sign(s) == (true, "0X10");
    MagnitudeOfHex10();
  }

  /** A bare `0x` prefix has no digits after it and is `NaN`. */
  lemma ParseIntBarePrefix()
    ensures ParseInt("0x") == None
  {
    ParseIntUnsigned("0x");
    assert "0x"[2..] == "";
    assert RadixPrefix("0x") == (16, "");
  }
}
