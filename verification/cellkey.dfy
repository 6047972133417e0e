/**
 The string key under which a cell is stored: `` `${x},${y}` `` when a cell is written
 or hovered, read back with `key.split(",").map(Number)` when the canvas is drawn.
 */
module CellKey {
  import opened JsString
  import opened JsNumber

  /** `${x},${y}`: the numeral of x, a comma, the numeral of y; that comma is the only one
      in the key, which is what lets `split(",")` take the key apart again. */
  function EncodeKey(x: int, y: int): (key: string)
    ensures var n := |IntToString(x)|;
      && n < |key| && key[n] == ','
      && key[..n] == IntToString(x) && ',' !in key[..n]
      && key[n + 1..] == IntToString(y) && ',' !in key[n + 1..]
  {
    NoCommaInNumeral(x);
    NoCommaInNumeral(y);
    IntToString(x) + "," + IntToString(y)
  }

  /** The pair `[x, y]` destructured from `key.split(",").map(Number)`; a key without a
      comma has no second piece, so `y` is `undefined`, which the drawing code turns into
      NaN as soon as it multiplies it. */
  function DecodeKey(key: string): (Number, Number)
  {
    var parts := Split(key, ',');
    (StringToNumber(parts[0]), if |parts| >= 2 then StringToNumber(parts[1]) else NaN)
  }

  lemma NoCommaInNumeral(i: int)
    ensures ',' !in IntToString(i)
  {
  }

  /** Decoding an encoded key gives back both coordinates, for every pair of integers. */
  lemma DecodeEncode(x: int, y: int)
    ensures DecodeKey(EncodeKey(x, y)) == (Num(x), Num(y))
  {
    var a, b := IntToString(x), IntToString(y);
    NoCommaInNumeral(x);
    NoCommaInNumeral(y);
    SplitAfterPiece(a, ',', b);
    SplitNoSeparator(b, ',');
    assert EncodeKey(x, y) == a + [','] + b;
    assert Split(EncodeKey(x, y), ',') == [a, b];
    NumberOfString(x);
    NumberOfString(y);
  }

  /** Distinct cells never share a key. */
  lemma EncodeInjective(x1: int, y1: int, x2: int, y2: int)
    ensures EncodeKey(x1, y1) == EncodeKey(x2, y2) <==> x1 == x2 && y1 == y2
  {
    DecodeEncode(x1, y1);
    DecodeEncode(x2, y2);
  }
}
