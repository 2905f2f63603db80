/** `formatTime`: a number of seconds shown as `HH:MM:SS`. */
module Display {
  import opened JsText

  /** JavaScript `a % b` for a positive `b`: the remainder has the sign of `a`. */
  function JsRemainder(a: int, b: int): (r: int)
    requires b > 0
    ensures a >= 0 ==> 0 <= r < b
    ensures a < 0 ==> -b < r <= 0
    ensures a >= 0 ==> r == a % b
  {
    if a >= 0 then a % b else -((-a) % b)
  }

  /**
   * With the quotient truncated toward zero, the JavaScript remainder completes the
   * division: together with its sign and bound this fixes it uniquely.
   */
  lemma JsRemainderDivides(a: int, b: int)
    requires b > 0
    ensures var q := if a >= 0 then a / b else -((-a) / b); a == q * b + JsRemainder(a, b)
  {
    if a < 0 {
      assert -a == ((-a) / b) * b + (-a) % b;
    }
  }

  /** One field of the display: `n.toString().padStart(2, '0')`. */
  function Field(n: int): string {
    PadStart(IntToString(n), 2, '0')
  }

  function Hours(seconds: int): int { seconds / 3600 }                    // Math.floor(seconds / 3600)
  function Minutes(seconds: int): int { JsRemainder(seconds, 3600) / 60 } // Math.floor((seconds % 3600) / 60)
  function Seconds(seconds: int): int { JsRemainder(seconds, 60) }        // seconds % 60

  /** `formatTime(seconds)`. */
  function FormatTime(seconds: int): string {
    Field(Hours(seconds)) + ":" + Field(Minutes(seconds)) + ":" + Field(Seconds(seconds))
  }

  /** For a non-negative count the three fields are hours, minutes below 60 and seconds below 60 that add back up to it. */
  lemma FieldsDecompose(seconds: int)
    requires seconds >= 0
    ensures Hours(seconds) >= 0 && 0 <= Minutes(seconds) < 60 && 0 <= Seconds(seconds) < 60
    ensures Hours(seconds) * 3600 + Minutes(seconds) * 60 + Seconds(seconds) == seconds
  {
    var h, rest := seconds / 3600, seconds % 3600;
    assert seconds == h * 3600 + rest;
    var m, s := rest / 60, rest % 60;
    assert rest == m * 60 + s;
    var k := h * 60 + m;
    assert seconds == k * 60 + s;
    ModOfMultiplePlus(k, s);
  }

  lemma ModOfMultiplePlus(k: int, s: int)
    requires 0 <= s < 60
    ensures (k * 60 + s) % 60 == s
  {
  }

  /** A non-negative field is its digits, zero-padded to at least two characters. */
  lemma FieldDigits(n: int)
    requires n >= 0
    ensures AllDigits(Field(n)) && DigitsValue(Field(n)) == n
    ensures |Field(n)| >= 2 && (|Field(n)| == 2 <==> n < 100)
  {
    NatToStringValue(n);
    ZeroPaddedValue(NatToString(n), 2);
    NatToStringLength(n, 2);
    assert Pow10(2) == 100;
  }

  /**
   * Reading the display back: the hours before the first colon, and the two-digit
   * minutes and seconds after it, give back the number of seconds formatted.
   */
  lemma FormatTimeReadsBack(seconds: int)
    requires seconds >= 0
    ensures var f := FormatTime(seconds); var n := |f|;
      n >= 8 && f[n - 6] == ':' && f[n - 3] == ':'
      && AllDigits(f[..n - 6]) && AllDigits(f[n - 5..n - 3]) && AllDigits(f[n - 2..])
      && DigitsValue(f[n - 5..n - 3]) < 60 && DigitsValue(f[n - 2..]) < 60
      && DigitsValue(f[..n - 6]) * 3600 + DigitsValue(f[n - 5..n - 3]) * 60 + DigitsValue(f[n - 2..]) == seconds
  {
    var h, m, s := Hours(seconds), Minutes(seconds), Seconds(seconds);
    assert h >= 0 && 0 <= m < 60 && 0 <= s < 60 && h * 3600 + m * 60 + s == seconds by {
      FieldsDecompose(seconds);
    }
    var hs, ms, ss := Field(h), Field(m), Field(s);
    FieldDigits(h);
    FieldDigits(m);
    FieldDigits(s);
    var f := FormatTime(seconds);
    assert f == hs + ":" + ms + ":" + ss;
    SplitAtColons(hs, ms, ss);
  }

  /** Where the colons fall in `h:m:s` when the last two fields have two characters. */
  lemma SplitAtColons(h: string, m: string, s: string)
    requires |h| >= 2 && |m| == 2 && |s| == 2
    ensures var f := h + ":" + m + ":" + s; var n := |f|;
      n == |h| + 6 && f[n - 6] == ':' && f[n - 3] == ':' && f[..n - 6] == h && f[n - 5..n - 3] == m && f[n - 2..] == s
  {
  }

  /** The display is exactly eight characters, `HH:MM:SS`, for the counts below 100 hours and no others. */
  lemma FormatTimeWidth(seconds: int)
    requires seconds >= 0
    ensures |FormatTime(seconds)| == 8 <==> seconds < 360000
  {
    FieldsDecompose(seconds);
    FieldDigits(Hours(seconds));
    FieldDigits(Minutes(seconds));
    FieldDigits(Seconds(seconds));
  }

  /** A field below 100 is its two decimal digits. */
  lemma TwoDigitField(n: int)
    requires 0 <= n < 100
    ensures Field(n) == [DigitChar(n / 10), DigitChar(n % 10)]
  {
    if n >= 10 {
      assert NatToString(n) == NatToString(n / 10) + [DigitChar(n % 10)];
    }
  }

  /** Below 100 hours the display is exactly `HH:MM:SS`, digit by digit. */
  lemma FormatTimeDigits(seconds: int)
    requires 0 <= seconds < 360000
    ensures var h, m, s := Hours(seconds), Minutes(seconds), Seconds(seconds);
      FormatTime(seconds) == [DigitChar(h / 10), DigitChar(h % 10), ':', DigitChar(m / 10), DigitChar(m % 10), ':', DigitChar(s / 10), DigitChar(s % 10)]
  {
    var h, m, s := Hours(seconds), Minutes(seconds), Seconds(seconds);
    assert 0 <= h < 100 && 0 <= m < 60 && 0 <= s < 60 by {
      FieldsDecompose(seconds);
    }
    assert FormatTime(seconds) == Field(h) + ":" + Field(m) + ":" + Field(s);
    TwoDigitField(h);
    TwoDigitField(m);
    TwoDigitField(s);
    JoinPairs(Field(h), Field(m), Field(s));
  }

  /** Three two-character fields joined by colons, character by character. */
  lemma JoinPairs(a: string, b: string, c: string)
    requires |a| == 2 && |b| == 2 && |c| == 2
    ensures a + ":" + b + ":" + c == [a[0], a[1], ':', b[0], b[1], ':', c[0], c[1]]
  {
  }

  /** One hour, one minute and five seconds. */
  lemma FormatTimeExample3665()
    ensures FormatTime(3665) == "01:01:05"
  {
    assert Hours(3665) == 1 && Minutes(3665) == 1 && Seconds(3665) == 5;
    FormatTimeDigits(3665);
  }

  lemma FormatTimeExampleZero()
    ensures FormatTime(0) == "00:00:00"
  {
    assert Hours(0) == 0 && Minutes(0) == 0 && Seconds(0) == 0;
    FormatTimeDigits(0);
  }

  lemma FormatTimeExample59()
    ensures FormatTime(59) == "00:00:59"
  {
    assert Hours(59) == 0 && Minutes(59) == 0 && Seconds(59) == 59;
    FormatTimeDigits(59);
  }

  /** A field of minus one digit is the sign and the digit, with no padding. */
  lemma NegativeDigitField(d: int)
    requires 1 <= d <= 9
    ensures Field(-d) == ['-', DigitChar(d)]
  {
    assert IntToString(-d) == "-" + NatToString(d);
  }

  /** A negative count, as a session whose clock went backwards produces, keeps its minus signs in every field. */
  lemma FormatTimeNegative()
    ensures FormatTime(-5) == "-1:-1:-5"
  {
    assert Hours(-5) == -1 && Minutes(-5) == -1 && Seconds(-5) == -5;
    assert FormatTime(-5) == Field(-1) + ":" + Field(-1) + ":" + Field(-5);
    NegativeDigitField(1);
    NegativeDigitField(5);
    JoinPairs(Field(-1), Field(-1), Field(-5));
  }

  /** A count of -1 displays as `-1:-1:-1`. */
  lemma FormatTimeMinusOne()
    ensures FormatTime(-1) == "-1:-1:-1"
  {
    assert Hours(-1) == -1 && Minutes(-1) == -1 && Seconds(-1) == -1;
    assert FormatTime(-1) == Field(-1) + ":" + Field(-1) + ":" + Field(-1);
    NegativeDigitField(1);
    JoinPairs(Field(-1), Field(-1), Field(-1));
  }
}
