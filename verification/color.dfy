/**
 Colour strings: the hex-to-RGB decoding shown in the hover tooltip, and the random
 `#rrggbb` colour a new palette entry starts with.
 */
module Color {
  import opened Numeral
  import opened JsString
  import opened JsNumber

  /** The three channels as `parseInt` returns them; NaN where no hex digit was found. */
  datatype Rgb = Rgb(r: Number, g: Number, b: Number)

  /** What `parseInt` can return for at most two characters: NaN or a value of magnitude
      at most 0xff. */
  predicate ChannelRange(n: Number) {
    n.NaN? || -255 <= n.value <= 255
  }

  predicate IsByte(n: Number) {
    n.Num? && 0 <= n.value <= 255
  }

  /** A well-formed colour: `#` followed by exactly six hex digits, in either case. */
  predicate IsHexColor(c: string) {
    |c| == 7 && c[0] == '#' && AllDigitsIn(c[1..], 16)
  }

  function Channel(hex: string, start: int): (n: Number)
    ensures ChannelRange(n)
  {
    var part := Substring(hex, start, start + 2);
    PowMonotone(16, |part|, 2);
    ParseInt(part, 16)
  }

  /** The tooltip's decoding: the first `#` is removed, then characters 0-2, 2-4 and 4-6
      are each read with `parseInt(_, 16)`. Whatever the string, every channel is NaN or
      within 255 of zero. */
  function HexToRgb(color: string): (c: Rgb)
    ensures ChannelRange(c.r) && ChannelRange(c.g) && ChannelRange(c.b)
  {
    var hex := RemoveFirst(color, '#');
    Rgb(Channel(hex, 0), Channel(hex, 2), Channel(hex, 4))
  }

  /** A well-formed colour decodes to the three byte values its digit pairs spell. */
  lemma HexColorChannels(c: string)
    requires IsHexColor(c)
    ensures AllDigitsIn(c[1..3], 16) && AllDigitsIn(c[3..5], 16) && AllDigitsIn(c[5..7], 16)
    ensures HexToRgb(c) == Rgb(Num(Value(c[1..3], 16)), Num(Value(c[3..5], 16)), Num(Value(c[5..7], 16)))
    ensures IsByte(HexToRgb(c).r) && IsByte(HexToRgb(c).g) && IsByte(HexToRgb(c).b)
  {
    SplitSix(c[1..]);
    assert c[1..][0..2] == c[1..3] && c[1..][2..4] == c[3..5] && c[1..][4..6] == c[5..7];
    assert c == "#" + (c[1..3] + c[3..5] + c[5..7]);
    HashDigitsChannels(c[1..3], c[3..5], c[5..7]);
  }

  /** Six digits are three digit pairs. */
  lemma SplitSix(p: string)
    requires |p| == 6 && AllDigitsIn(p, 16)
    ensures p == p[0..2] + p[2..4] + p[4..6]
    ensures AllDigitsIn(p[0..2], 16) && AllDigitsIn(p[2..4], 16) && AllDigitsIn(p[4..6], 16)
  {
  }

  /** `#` followed by three digit pairs decodes to the values of the pairs, each a byte. */
  lemma HashDigitsChannels(hi: string, mid: string, lo: string)
    requires |hi| == 2 && |mid| == 2 && |lo| == 2
    requires AllDigitsIn(hi, 16) && AllDigitsIn(mid, 16) && AllDigitsIn(lo, 16)
    ensures HexToRgb("#" + (hi + mid + lo)) == Rgb(Num(Value(hi, 16)), Num(Value(mid, 16)), Num(Value(lo, 16)))
    ensures Value(hi, 16) <= 255 && Value(mid, 16) <= 255 && Value(lo, 16) <= 255
  {
    var hex := hi + mid + lo;
    PairsOfSix(hi, mid, lo);
    HexToRgbOfHash(hex);
    PairChannel(hex, 0, 2, hi);
    PairChannel(hex, 2, 4, mid);
    PairChannel(hex, 4, 6, lo);
  }

  lemma PairsOfSix(hi: string, mid: string, lo: string)
    requires |hi| == 2 && |mid| == 2 && |lo| == 2
    ensures |hi + mid + lo| == 6
    ensures (hi + mid + lo)[0..2] == hi && (hi + mid + lo)[2..4] == mid && (hi + mid + lo)[4..6] == lo
  {
  }

  /** The leading `#` is what `replace` removes. */
  lemma HexToRgbOfHash(hex: string)
    ensures HexToRgb("#" + hex) == Rgb(Channel(hex, 0), Channel(hex, 2), Channel(hex, 4))
  {
    var c := "#" + hex;
    assert c[0] == '#' && c[1..] == hex;
    assert RemoveFirst(c, '#') == hex;
  }

  /** A pair of digits inside a string is read as one channel, at most 255. */
  lemma PairChannel(hex: string, start: nat, end: nat, part: string)
    requires end == start + 2 && end <= |hex| && hex[start..end] == part && AllDigitsIn(part, 16)
    ensures Channel(hex, start) == Num(Value(part, 16))
    ensures Value(part, 16) <= 255
  {
    assert Substring(hex, start, end) == part;
    ParseIntDigits(part, 16);
    ValueBelowPow(part, 16);
    assert Pow(16, 2) == 256;
  }

  /** `#${n.toString(16).padStart(6, "0")}`, where `n` is `Math.floor(Math.random() * 16777215)`.
      It is always a well-formed colour, and decoding it gives back the three bytes of `n`. */
  function RandomColor(n: nat): (c: string)
    requires n < 16777215
    ensures IsHexColor(c)
    ensures HexToRgb(c) == Rgb(Num(n / 65536), Num(n / 256 % 256), Num(n % 256))
  {
    var digits := ToDigits(n, 16);
    var c := "#" + PadStart(digits, 6, '0');
    RandomColorDecodes(n, digits, c);
    c
  }

  lemma RandomColorDecodes(n: nat, digits: string, c: string)
    requires n < 16777215 && digits == ToDigits(n, 16)
    requires c == "#" + PadStart(digits, 6, '0')
    ensures IsHexColor(c)
    ensures HexToRgb(c) == Rgb(Num(n / 65536), Num(n / 256 % 256), Num(n % 256))
  {
    var p := PadStart(digits, 6, '0');
    PaddedDigits(n, digits, p);
    assert c[1..] == p;
    SplitSix(p);
    var hi, mid, lo := p[0..2], p[2..4], p[4..6];
    HashDigitsChannels(hi, mid, lo);
    SixDigits(hi, mid, lo);
    ByteSplit(n, Value(hi, 16), Value(mid, 16), Value(lo, 16));
  }

  /** Padding the hexadecimal numeral of a number below 16^6 gives six digits of the same value. */
  lemma PaddedDigits(n: nat, digits: string, p: string)
    requires n < 16777215 && digits == ToDigits(n, 16) && p == PadStart(digits, 6, '0')
    ensures |p| == 6 && AllDigitsIn(p, 16) && Value(p, 16) == n
  {
    assert Pow(16, 6) == 16777216 by {
      assert Pow(16, 2) == 256;
      assert Pow(16, 4) == 65536;
    }
    ToDigitsLength(n, 16, 6);
    ValueOfToDigits(n, 16);
    var zeros := p[..|p| - |digits|];
    assert zeros + digits == p;
    LeadingZeros(zeros, digits, 16);
  }

  lemma SixDigits(hi: string, mid: string, lo: string)
    requires |mid| == 2 && |lo| == 2
    requires AllDigitsIn(hi, 16) && AllDigitsIn(mid, 16) && AllDigitsIn(lo, 16)
    ensures Value(hi + mid + lo, 16) == Value(hi, 16) * 65536 + Value(mid, 16) * 256 + Value(lo, 16)
  {
    ValueConcatTwo(hi, mid, 16);
    ValueConcatTwo(hi + mid, lo, 16);
  }

  lemma ByteSplit(n: int, a: int, b: int, c: int)
    requires 0 <= b < 256 && 0 <= c < 256 && 0 <= a
    requires n == a * 65536 + b * 256 + c
    ensures n / 65536 == a && n / 256 % 256 == b && n % 256 == c
  {
    assert n / 256 == a * 256 + b;
  }
}
