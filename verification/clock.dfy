/**
 The `m:ss` rendering of the cooldown countdown shown next to "Next pixel in:".
 */
module Clock {
  import opened Options
  import opened Numeral
  import opened JsString
  import opened JsNumber

  /** JavaScript's `%`: the remainder takes the sign of the dividend. */
  function JsRemainder(a: int, b: int): (r: int)
    requires b > 0
    ensures a >= 0 ==> 0 <= r < b && a == (a / b) * b + r
    ensures a < 0 ==> -b < r <= 0 && a == -((-a) / b) * b + r
  {
    if a >= 0 then a % b else -((-a) % b)
  }

  /** `formatTimeRemaining(seconds)`: `Math.floor(seconds / 60)`, a colon, then
      `seconds % 60` left-padded with zeros to two characters. */
  function FormatTimeRemaining(seconds: int): (s: string)
    ensures seconds >= 0 ==> |s| >= 4 && s[|s| - 3] == ':'
  {
    var secondsField := PadStart(IntToString(JsRemainder(seconds, 60)), 2, '0');
    assert seconds >= 0 ==> |secondsField| == 2 by {
      if seconds >= 0 {
        ToDigitsLength(JsRemainder(seconds, 60), 10, 2);
      }
    }
    IntToString(seconds / 60) + ":" + secondsField
  }

  /** The inverse reading of an `m:ss` clock: decimal minutes, a colon, and exactly two
      decimal digits of seconds below 60. */
  function ParseClock(s: string): Option<int>
  {
    ReadClock(Split(s, ':'))
  }

  function ReadClock(parts: seq<string>): Option<int>
  {
    if |parts| == 2 then ReadFields(parts[0], parts[1]) else None
  }

  function ReadFields(minutes: string, seconds: string): Option<int>
  {
    if && |minutes| >= 1 && AllDigitsIn(minutes, 10)
       && |seconds| == 2 && AllDigitsIn(seconds, 10)
       && Value(seconds, 10) < 60
    then Some(Value(minutes, 10) * 60 + Value(seconds, 10))
    else None
  }

  /** The minutes field: the decimal numeral of a non-negative count. */
  lemma MinutesField(m: int)
    requires m >= 0
    ensures |IntToString(m)| >= 1 && AllDigitsIn(IntToString(m), 10)
    ensures Value(IntToString(m), 10) == m
  {
    ValueOfToDigits(m, 10);
  }

  /** The seconds field: a remainder below 60, zero-padded to exactly two digits. */
  lemma SecondsField(r: int)
    requires 0 <= r < 60
    ensures |PadStart(IntToString(r), 2, '0')| == 2
    ensures AllDigitsIn(PadStart(IntToString(r), 2, '0'), 10)
    ensures Value(PadStart(IntToString(r), 2, '0'), 10) == r
  {
    var digits := ToDigits(r, 10);
    assert Pow(10, 2) == 100 by {
      assert Pow(10, 1) == 10;
    }
    ToDigitsLength(r, 10, 2);
    ValueOfToDigits(r, 10);
    var field := PadStart(digits, 2, '0');
    var zeros := field[..|field| - |digits|];
    assert zeros + digits == field;
    LeadingZeros(zeros, digits, 10);
  }

  /** Where the fields sit in `minutes:ss`. */
  lemma ClockLayout(minutes: string, seconds: string)
    requires |seconds| == 2
    ensures var s := minutes + ":" + seconds;
      && |s| == |minutes| + 3 && s[|s| - 3] == ':'
      && s[..|s| - 3] == minutes && s[|s| - 2..] == seconds
  {
  }

  /** For a non-negative count of seconds the clock is the minutes in decimal, a colon and
      two digits of seconds below 60, and minutes times 60 plus seconds is the count. */
  lemma FormatTimeRemainingShape(seconds: int)
    requires seconds >= 0
    ensures var s := FormatTimeRemaining(seconds);
      && |s| >= 4 && s[|s| - 3] == ':'
      && AllDigitsIn(s[..|s| - 3], 10) && AllDigitsIn(s[|s| - 2..], 10)
      && Value(s[|s| - 2..], 10) < 60
      && Value(s[..|s| - 3], 10) * 60 + Value(s[|s| - 2..], 10) == seconds
  {
    var minutes := IntToString(seconds / 60);
    var field := PadStart(IntToString(JsRemainder(seconds, 60)), 2, '0');
    MinutesField(seconds / 60);
    SecondsField(JsRemainder(seconds, 60));
    ClockLayout(minutes, field);
  }

  /** Reading the clock back gives the count of seconds it was made from. */
  lemma FormatTimeRemainingRoundTrip(seconds: int)
    requires seconds >= 0
    ensures ParseClock(FormatTimeRemaining(seconds)) == Some(seconds)
  {
    var m, r := seconds / 60, JsRemainder(seconds, 60);
    var minutes := IntToString(m);
    var field := PadStart(IntToString(r), 2, '0');
    MinutesField(m);
    SecondsField(r);
    assert Value(minutes, 10) * 60 + Value(field, 10) == seconds;
    ParseFields(minutes, field, seconds);
    assert FormatTimeRemaining(seconds) == minutes + ":" + field;
  }

  /** A clock made of a decimal minutes field and a two-digit seconds field below 60 is
      read back field by field. */
  lemma ParseFields(minutes: string, seconds: string, total: int)
    requires |minutes| >= 1 && AllDigitsIn(minutes, 10)
    requires |seconds| == 2 && AllDigitsIn(seconds, 10) && Value(seconds, 10) < 60
    requires total == Value(minutes, 10) * 60 + Value(seconds, 10)
    ensures ParseClock(minutes + ":" + seconds) == Some(total)
  {
    NoColonInDigits(minutes);
    NoColonInDigits(seconds);
    SplitClock(minutes, seconds);
    ReadFieldsValue(minutes, seconds, total);
    assert ParseClock(minutes + ":" + seconds) == ReadClock([minutes, seconds]);
  }

  lemma ReadFieldsValue(minutes: string, seconds: string, total: int)
    requires |minutes| >= 1 && AllDigitsIn(minutes, 10)
    requires |seconds| == 2 && AllDigitsIn(seconds, 10) && Value(seconds, 10) < 60
    requires total == Value(minutes, 10) * 60 + Value(seconds, 10)
    ensures ReadClock([minutes, seconds]) == Some(total)
  {
  }

  lemma NoColonInDigits(s: string)
    requires AllDigitsIn(s, 10)
    ensures ':' !in s
  {
    forall k | 0 <= k < |s| ensures s[k] != ':' {
      assert IsDigitIn(s[k], 10);
    }
  }

  /** A colon between two colon-free fields splits them apart. */
  lemma SplitClock(minutes: string, seconds: string)
    requires ':' !in minutes && ':' !in seconds
    ensures Split(minutes + ":" + seconds, ':') == [minutes, seconds]
  {
    SplitAfterPiece(minutes, ':', seconds);
    SplitNoSeparator(seconds, ':');
  }
}
