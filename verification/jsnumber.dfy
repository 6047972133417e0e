/**
 The integer-valued part of JavaScript's Number conversions: `String(i)`,
 `Number(s)` and `parseInt(s, radix)`.
 */
module JsNumber {
  import opened Numeral
  import opened JsString

  /** A Number that is an integer, or NaN. */
  datatype Number = Num(value: int) | NaN

  predicate IsNumeralChar(c: char) {
    c == '-' || IsDigitIn(c, 10)
  }

  /** `String(i)`: an optional minus sign followed by the shortest decimal numeral. */
  function IntToString(i: int): (s: string)
    ensures |s| >= 1
    ensures forall k :: 0 <= k < |s| ==> IsNumeralChar(s[k])
    ensures IsDigitIn(s[|s| - 1], 10)
    ensures i >= 0 <==> s[0] != '-'
    ensures i >= 0 ==> AllDigitsIn(s, 10)
  {
    if i < 0 then "-" + ToDigits(-i, 10) else ToDigits(i, 10)
  }

  /** `Number(s)` on integer literals: surrounding white space is ignored, the empty
      string is 0, and an optionally signed run of decimal digits is its value.
      Every other form is NaN here. */
  function StringToNumber(s: string): Number
  {
    ReadInteger(Trim(s))
  }

  /** `Number` on a string without surrounding white space. */
  function ReadInteger(t: string): Number
  {
    if |t| == 0 then Num(0)
    else if (t[0] == '+' || t[0] == '-') && |t| > 1 && AllDigitsIn(t[1..], 10) then
      Num(if t[0] == '-' then -(Value(t[1..], 10) as int) else Value(t[1..], 10))
    else if AllDigitsIn(t, 10) then Num(Value(t, 10))
    else NaN
  }

  /** `Number(String(i)) == i` for every integer. */
  lemma NumberOfString(i: int)
    ensures StringToNumber(IntToString(i)) == Num(i)
  {
    var s := IntToString(i);
    NumeralNotSpace(s[0]);
    NumeralNotSpace(s[|s| - 1]);
    TrimNoSpace(s);
    if i < 0 {
      ReadNegative(-i);
    } else {
      ReadNonNegative(i);
    }
  }

  lemma NumeralNotSpace(c: char)
    requires IsNumeralChar(c)
    ensures !IsWhiteSpace(c)
  {
  }

  lemma ReadNonNegative(n: nat)
    ensures ReadInteger(ToDigits(n, 10)) == Num(n)
  {
    var t := ToDigits(n, 10);
    ValueOfToDigits(n, 10);
    assert IsDigitIn(t[0], 10);
  }

  lemma ReadNegative(n: nat)
    requires n > 0
    ensures ReadInteger("-" + ToDigits(n, 10)) == Num(-(n as int))
  {
    var d := ToDigits(n, 10);
    var t := "-" + d;
    ValueOfToDigits(n, 10);
    assert t[1..] == d;
  }

  /** The longest prefix of `s` made of digits in the radix. */
  function DigitPrefix(s: string, radix: nat): (z: string)
    ensures |z| <= |s| && z == s[..|z|]
    ensures AllDigitsIn(z, radix)
    ensures |z| < |s| ==> !IsDigitIn(s[|z|], radix)
  {
    if |s| > 0 && IsDigitIn(s[0], radix) then
      var z := [s[0]] + DigitPrefix(s[1..], radix);
      assert forall k :: 1 <= k < |z| ==> z[k] == s[1..][k - 1];
      z
    else ""
  }

  /** Drops one leading sign character. */
  function SkipSign(t: string): (u: string)
    ensures |u| <= |t|
  {
    if |t| > 0 && (t[0] == '-' || t[0] == '+') then t[1..] else t
  }

  /** Drops a `0x` or `0X` prefix when reading hexadecimal. */
  function SkipHexPrefix(u: string, radix: nat): (w: string)
    ensures |w| <= |u|
  {
    if radix == 16 && |u| >= 2 && u[0] == '0' && (u[1] == 'x' || u[1] == 'X') then u[2..] else u
  }

  /** `parseInt(s, radix)`: leading white space and one sign are skipped, radix 16 also
      skips a `0x`/`0X` prefix, then the longest run of digits is read; no digits is NaN. */
  function ParseInt(s: string, radix: nat): (n: Number)
    requires 2 <= radix <= 36
    ensures n.Num? ==> -(Pow(radix, |s|) as int) < n.value < Pow(radix, |s|)
  {
    var t := TrimStart(s);
    var negative := |t| > 0 && t[0] == '-';
    var z := DigitPrefix(SkipHexPrefix(SkipSign(t), radix), radix);
    ValueBelowPow(z, radix);
    PowMonotone(radix, |z|, |s|);
    if |z| == 0 then NaN
    else Num(if negative then -(Value(z, radix) as int) else Value(z, radix))
  }

  /** On a non-empty run of digits, `parseInt` reads the whole run. */
  lemma ParseIntDigits(s: string, radix: nat)
    requires 2 <= radix <= 36
    requires |s| > 0 && AllDigitsIn(s, radix)
    ensures ParseInt(s, radix) == Num(Value(s, radix))
  {
    assert IsDigitIn(s[0], radix);
    assert !IsWhiteSpace(s[0]) && s[0] != '-' && s[0] != '+';
    assert TrimStart(s) == s;
    assert SkipSign(s) == s;
    if |s| >= 2 {
      assert IsDigitIn(s[1], radix);
    }
    assert SkipHexPrefix(s, radix) == s;
    DigitPrefixAll(s, radix);
  }

  lemma {:induction false} DigitPrefixAll(s: string, radix: nat)
    requires AllDigitsIn(s, radix)
    ensures DigitPrefix(s, radix) == s
    decreases |s|
  {
    if |s| > 0 {
      DigitPrefixAll(s[1..], radix);
      assert [s[0]] + s[1..] == s;
    }
  }
}
