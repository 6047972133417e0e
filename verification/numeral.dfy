/**
 Positional numerals in radix 2..36, with the digit alphabet JavaScript uses for
 `Number.prototype.toString(radix)` (lower-case) and `parseInt(s, radix)` (either case).
 */
module Numeral {

  /** The digit value of a character: 0-9, then a-z / A-Z as 10-35; 36 for anything else. */
  function CharValue(c: char): (v: nat)
    ensures v <= 36
    ensures '0' <= c <= '9' ==> v == c as int - '0' as int
  {
    if '0' <= c <= '9' then c as int - '0' as int
    else if 'a' <= c <= 'z' then c as int - 'a' as int + 10
    else if 'A' <= c <= 'Z' then c as int - 'A' as int + 10
    else 36
  }

  predicate IsDigitIn(c: char, radix: nat) {
    CharValue(c) < radix
  }

  predicate AllDigitsIn(s: string, radix: nat) {
    forall i :: 0 <= i < |s| ==> IsDigitIn(s[i], radix)
  }

  /** The lower-case digit character for a digit value. */
  function DigitChar(d: nat): (c: char)
    requires d < 36
    ensures CharValue(c) == d
  {
    if d < 10 then ('0' as int + d) as char else ('a' as int + d - 10) as char
  }

  function Pow(b: nat, e: nat): (r: nat)
  {
    if e == 0 then 1 else b * Pow(b, e - 1)
  }

  /** The number a string of digits denotes, most significant digit first. (It is defined
      for every string, reading a non-digit as 36; only digit strings are ever read.) */
  function Value(s: string, radix: nat): nat
  {
    if |s| == 0 then 0 else Value(s[..|s| - 1], radix) * radix + CharValue(s[|s| - 1])
  }

  /** The shortest numeral for `n`: what `n.toString(radix)` yields for a non-negative integer. */
  function ToDigits(n: nat, radix: nat): (s: string)
    requires 2 <= radix <= 36
    ensures 1 <= |s| && AllDigitsIn(s, radix)
    ensures n > 0 ==> CharValue(s[0]) > 0
    ensures n == 0 ==> s == [DigitChar(0)]
    decreases n
  {
    if n < radix then [DigitChar(n)]
    else
      DivModFacts(n, radix);
      ToDigits(n / radix, radix) + [DigitChar(n % radix)]
  }

  lemma DivModFacts(n: nat, radix: nat)
    requires 2 <= radix <= n
    ensures 1 <= n / radix < n && n % radix < radix
    ensures (n / radix) * radix + n % radix == n
  {
  }

  lemma MulMonotone(a: int, b: int, c: nat)
    requires a <= b
    ensures a * c <= b * c
  {
  }

  lemma DigitBelow(v: nat, d: nat, p: nat, r: nat)
    requires v < p && d < r
    ensures v * r + d < r * p
  {
    MulMonotone(v + 1, p, r);
  }

  lemma ShiftDigit(v: int, p: int, w: int, r: int, d: int)
    ensures (v * p + w) * r + d == v * (p * r) + (w * r + d)
  {
  }

  lemma {:induction false} ValueOfToDigits(n: nat, radix: nat)
    requires 2 <= radix <= 36
    ensures Value(ToDigits(n, radix), radix) == n
    decreases n
  {
    var s := ToDigits(n, radix);
    if n >= radix {
      DivModFacts(n, radix);
      ValueOfToDigits(n / radix, radix);
      assert s[..|s| - 1] == ToDigits(n / radix, radix);
      assert CharValue(s[|s| - 1]) == n % radix;
    }
  }

  lemma {:induction false} PowPositive(b: nat, e: nat)
    requires b >= 1
    ensures Pow(b, e) >= 1
  {
    if e > 0 {
      PowPositive(b, e - 1);
    }
  }

  lemma {:induction false} PowMonotone(b: nat, e1: nat, e2: nat)
    requires b >= 2 && e1 <= e2
    ensures Pow(b, e1) <= Pow(b, e2)
    decreases e2
  {
    if e1 < e2 {
      PowMonotone(b, e1, e2 - 1);
      PowPositive(b, e2 - 1);
      MulMonotone(1, b, Pow(b, e2 - 1));
      assert Pow(b, e2) == b * Pow(b, e2 - 1);
    }
  }

  /** Appending digits shifts the value of the prefix by the radix per appended digit. */
  lemma {:induction false} ValueConcat(a: string, b: string, radix: nat)
    requires AllDigitsIn(a, radix) && AllDigitsIn(b, radix)
    ensures AllDigitsIn(a + b, radix)
    ensures Value(a + b, radix) == Value(a, radix) * Pow(radix, |b|) + Value(b, radix)
    decreases |b|
  {
    if |b| == 0 {
      assert a + b == a;
    } else {
      var b' := b[..|b| - 1];
      assert (a + b)[..|a + b| - 1] == a + b';
      ValueConcat(a, b', radix);
      assert (a + b)[|a + b| - 1] == b[|b| - 1];
      ShiftDigit(Value(a, radix), Pow(radix, |b'|), Value(b', radix), radix, CharValue(b[|b| - 1]));
      assert Pow(radix, |b|) == radix * Pow(radix, |b'|);
    }
  }

  /** Appending two digits multiplies the value of the prefix by radix squared. */
  lemma ValueConcatTwo(a: string, b: string, radix: nat)
    requires AllDigitsIn(a, radix) && AllDigitsIn(b, radix) && |b| == 2
    ensures AllDigitsIn(a + b, radix)
    ensures Value(a + b, radix) == Value(a, radix) * (radix * radix) + Value(b, radix)
  {
    ValueConcat(a, b, radix);
    assert Pow(radix, 2) == radix * radix by {
      assert Pow(radix, 1) == radix;
    }
  }

  /** A numeral of k digits denotes less than radix^k. */
  lemma {:induction false} ValueBelowPow(s: string, radix: nat)
    requires radix >= 1 && AllDigitsIn(s, radix)
    ensures Value(s, radix) < Pow(radix, |s|)
    decreases |s|
  {
    if |s| > 0 {
      var s' := s[..|s| - 1];
      ValueBelowPow(s', radix);
      DigitBelow(Value(s', radix), CharValue(s[|s| - 1]), Pow(radix, |s'|), radix);
    }
  }

  /** A numeral whose leading digit is not zero denotes at least radix^(k-1). */
  lemma ValueAbovePow(s: string, radix: nat)
    requires radix >= 2 && |s| >= 1 && AllDigitsIn(s, radix) && CharValue(s[0]) > 0
    ensures Value(s, radix) >= Pow(radix, |s| - 1)
  {
    var head, tail := s[..1], s[1..];
    assert head + tail == s;
    ValueConcat(head, tail, radix);
    assert head[..0] == [];
    assert Value(head, radix) == CharValue(s[0]);
    MulMonotone(1, CharValue(s[0]), Pow(radix, |tail|));
  }

  /** Leading zeros do not change the value of a numeral. */
  lemma LeadingZeros(z: string, s: string, radix: nat)
    requires radix >= 1 && AllDigitsIn(s, radix)
    requires forall i :: 0 <= i < |z| ==> z[i] == '0'
    ensures AllDigitsIn(z + s, radix)
    ensures Value(z + s, radix) == Value(s, radix)
  {
    assert AllDigitsIn(z, radix);
    ZerosValue(z, radix);
    ValueConcat(z, s, radix);
  }

  lemma {:induction false} ZerosValue(z: string, radix: nat)
    requires radix >= 1 && AllDigitsIn(z, radix)
    requires forall i :: 0 <= i < |z| ==> z[i] == '0'
    ensures Value(z, radix) == 0
    decreases |z|
  {
    if |z| > 0 {
      ZerosValue(z[..|z| - 1], radix);
    }
  }

  /** The shortest numeral of a number below radix^k has at most k digits. */
  lemma ToDigitsLength(n: nat, radix: nat, k: nat)
    requires 2 <= radix <= 36 && k >= 1 && n < Pow(radix, k)
    ensures |ToDigits(n, radix)| <= k
  {
    var s := ToDigits(n, radix);
    if n > 0 && |s| > k {
      ValueOfToDigits(n, radix);
      ValueAbovePow(s, radix);
      PowMonotone(radix, k, |s| - 1);
    }
  }
}
