/**
 * The calendar-date part of `Date#toISOString` — `t.toISOString().split('T')[0]` —
 * for a time value `t` in milliseconds since 1970-01-01T00:00:00Z. The date is the
 * UTC date in the proleptic Gregorian calendar; years outside 0..9999 are written
 * with a sign and six digits, as ECMAScript's extended years are.
 */
module UtcDates {
  import opened JsText

  const MsPerDay := 86400000

  /** The largest magnitude of an ECMAScript time value; `toISOString` throws beyond it. */
  const MaxTimeValue := 8640000000000000

  predicate ValidTime(t: int) { -MaxTimeValue <= t <= MaxTimeValue }

  datatype CivilDate = CivilDate(year: int, month: int, day: int)

  /** Calendar order of dates: by year, then month, then day. */
  predicate CivilLe(a: CivilDate, b: CivilDate) {
    a.year < b.year || (a.year == b.year && (a.month < b.month || (a.month == b.month && a.day <= b.day)))
  }

  /**
   * A day number split into whole 400-year eras of 146097 days, then the century,
   * the four-year cycle, the year and the day within the era. The count starts on
   * 1 March 0000, so that the leap day closes each year of the count.
   */
  datatype EraParts = EraParts(era: int, century: int, cycle: int, yearOfCycle: int, dayOfYear: int)

  /**
   * Each part within its range: an era has four centuries of 36524 days (the last
   * has one more), a century 25 cycles of 1461 days (the last has one fewer, except
   * in the last century), and a cycle four years of 365 days (the last has one more).
   * Day 365 of a year is therefore only the leap day that closes a cycle.
   */
  predicate ValidParts(p: EraParts) {
    0 <= p.century <= 3 && 0 <= p.cycle <= 24 && 0 <= p.yearOfCycle <= 3 && 0 <= p.dayOfYear <= 365
    && (p.dayOfYear == 365 ==> p.yearOfCycle == 3 && (p.cycle < 24 || p.century == 3))
  }

  /** The day number (0 is 1970-01-01) that the parts count; 1970-01-01 is day 719468 from 0000-03-01. */
  function PartsDays(p: EraParts): int {
    146097 * p.era + 36524 * p.century + 1461 * p.cycle + 365 * p.yearOfCycle + p.dayOfYear - 719468
  }

  /** Splits day number `days` into its parts. */
  function DayParts(days: int): (p: EraParts)
    ensures ValidParts(p) && PartsDays(p) == days
  {
    var z := days + 719468;                          // day number counted from 0000-03-01
    var era := z / 146097;
    var dayOfEra := z % 146097;                      // 0 .. 146096
    var century := if dayOfEra / 36524 == 4 then 3 else dayOfEra / 36524;
    var dayOfCentury := dayOfEra - 36524 * century;  // 0 .. 36524
    var cycle := dayOfCentury / 1461;                // 0 .. 24
    var dayOfCycle := dayOfCentury - 1461 * cycle;   // 0 .. 1460
    var yearOfCycle := if dayOfCycle / 365 == 4 then 3 else dayOfCycle / 365;
    var dayOfYear := dayOfCycle - 365 * yearOfCycle; // 0 .. 365, from 1 March
    EraParts(era, century, cycle, yearOfCycle, dayOfYear)
  }

  /** The civil date that the parts of a day number name: its month from the day of the March-based year. */
  function CivilFromParts(p: EraParts): (c: CivilDate)
    requires ValidParts(p)
    ensures 1 <= c.month <= 12 && 1 <= c.day <= 31
  {
    var marchMonth := (5 * p.dayOfYear + 2) / 153;     // 0 .. 11, March is 0
    var day := p.dayOfYear - (153 * marchMonth + 2) / 5 + 1;
    var month := if marchMonth < 10 then marchMonth + 3 else marchMonth - 9;
    var yearOfEra := 100 * p.century + 4 * p.cycle + p.yearOfCycle;
    CivilDate(400 * p.era + yearOfEra + (if month <= 2 then 1 else 0), month, day)
  }

  /** The civil date of day number `days` (0 is 1970-01-01) in the proleptic Gregorian calendar. */
  function CivilFromDays(days: int): (c: CivilDate)
    ensures 1 <= c.month <= 12 && 1 <= c.day <= 31
  {
    CivilFromParts(DayParts(days))
  }

  /** The UTC calendar date of time value `t`. */
  function UtcDate(t: int): CivilDate
    requires ValidTime(t)
  {
    CivilFromDays(t / MsPerDay)
  }

  /**
   * The day number of a civil date (0 is 1970-01-01), counted independently of
   * `CivilFromDays`: January and February belong to the previous year of a count
   * that starts on 1 March, whole 400-year eras contribute 146097 days each, and
   * within an era a year contributes 365 days plus its leap days.
   */
  function DaysFromCivil(c: CivilDate): int {
    var y := if c.month <= 2 then c.year - 1 else c.year;
    var era := y / 400;
    var yearOfEra := y % 400;
    var marchMonth := if c.month > 2 then c.month - 3 else c.month + 9;
    var dayOfYear := (153 * marchMonth + 2) / 5 + c.day - 1;
    var dayOfEra := 365 * yearOfEra + yearOfEra / 4 - yearOfEra / 100 + dayOfYear;
    146097 * era + dayOfEra - 719468
  }

  /** Gregorian leap years: every fourth year, except centuries not divisible by 400. */
  predicate IsLeapYear(y: int) {
    y % 4 == 0 && (y % 100 != 0 || y % 400 == 0)
  }

  function DaysInMonth(y: int, m: int): int {
    if m == 2 then (if IsLeapYear(y) then 29 else 28)
    else if m == 4 || m == 6 || m == 9 || m == 11 then 30
    else 31
  }

  /**
   * `CivilFromDays` names the date of the day number: counting the days back from
   * the date gives the day number again.
   */
  lemma CivilFromDaysRoundTrip(days: int)
    ensures DaysFromCivil(CivilFromDays(days)) == days
  {
    PartsRoundTrip(DayParts(days));
  }

  /** Every date `CivilFromDays` yields has a day within its month. */
  lemma CivilFromDaysInMonth(days: int)
    ensures var c := CivilFromDays(days); c.day <= DaysInMonth(c.year, c.month)
  {
    PartsInMonth(DayParts(days));
  }

  lemma PartsRoundTrip(p: EraParts)
    requires ValidParts(p)
    ensures DaysFromCivil(CivilFromParts(p)) == PartsDays(p)
  {
    var c := CivilFromParts(p);
    var yearOfEra := 100 * p.century + 4 * p.cycle + p.yearOfCycle;
    var marchMonth := (5 * p.dayOfYear + 2) / 153;
    assert 0 <= marchMonth <= 11;
    assert (if c.month > 2 then c.month - 3 else c.month + 9) == marchMonth;
    var y := if c.month <= 2 then c.year - 1 else c.year;
    assert y == 400 * p.era + yearOfEra;
    assert y / 400 == p.era && y % 400 == yearOfEra;
    YearDays(p.century, p.cycle, p.yearOfCycle);
  }

  /** The days of the years before year `yearOfEra` of an era, counted from its parts. */
  lemma YearDays(century: int, cycle: int, yearOfCycle: int)
    requires 0 <= century <= 3 && 0 <= cycle <= 24 && 0 <= yearOfCycle <= 3
    ensures var yearOfEra := 100 * century + 4 * cycle + yearOfCycle;
      365 * yearOfEra + yearOfEra / 4 - yearOfEra / 100 == 36524 * century + 1461 * cycle + 365 * yearOfCycle
  {
    var yearOfEra := 100 * century + 4 * cycle + yearOfCycle;
    assert yearOfEra / 4 == 25 * century + cycle;
    assert yearOfEra / 100 == century;
  }

  lemma PartsInMonth(p: EraParts)
    requires ValidParts(p)
    ensures var c := CivilFromParts(p); c.day <= DaysInMonth(c.year, c.month)
  {
    var c := CivilFromParts(p);
    if p.dayOfYear == 365 {
      assert c == CivilDate(400 * p.era + 100 * p.century + 4 * p.cycle + 4, 2, 29);
      LeapDayYear(p.era, p.century, p.cycle);
    } else {
      assert c.day <= DaysInMonth(0, c.month);
    }
  }

  /** The year that closes a four-year cycle is a leap year, and so is the one that closes an era. */
  lemma LeapDayYear(era: int, century: int, cycle: int)
    requires 0 <= century <= 3 && 0 <= cycle <= 24 && (cycle < 24 || century == 3)
    ensures IsLeapYear(400 * era + 100 * century + 4 * cycle + 4)
  {
    MultipleOfFour(100 * era + 25 * century + cycle + 1);
    if cycle < 24 {
      CenturyRemainder(4 * era + century, 4 * cycle + 4);
    } else {
      MultipleOfFourHundred(era + 1);
    }
  }

  lemma MultipleOfFour(k: int)
    ensures (4 * k) % 4 == 0
  {
  }

  lemma CenturyRemainder(k: int, r: int)
    requires 0 <= r < 100
    ensures (100 * k + r) % 100 == r
  {
  }

  lemma MultipleOfFourHundred(k: int)
    ensures (400 * k) % 400 == 0
  {
  }

  /** The year field of an ISO 8601 date as `toISOString` writes it. */
  function YearString(y: int): string {
    if 0 <= y <= 9999 then PadStart(NatToString(y), 4, '0')
    else (if y < 0 then "-" else "+") + PadStart(NatToString(if y < 0 then -y else y), 6, '0')
  }

  /** Years 0..9999 are four digits; other years of up to six digits are a sign and six digits. */
  lemma YearStringDigits(y: int)
    ensures 0 <= y <= 9999 ==> var s := YearString(y); |s| == 4 && AllDigits(s) && DigitsValue(s) == y
    ensures (y < 0 || y > 9999) && -999999 <= y <= 999999 ==> var s := YearString(y);
              |s| == 7 && s[0] == (if y < 0 then '-' else '+') && AllDigits(s[1..]) && DigitsValue(s[1..]) == (if y < 0 then -y else y)
  {
    assert Pow10(4) == 10000 && Pow10(6) == 1000000;
    if 0 <= y <= 9999 {
      PaddedDigits(y, 4);
    } else if -999999 <= y <= 999999 {
      var magnitude := if y < 0 then -y else y;
      PaddedDigits(magnitude, 6);
      assert YearString(y)[1..] == PadStart(NatToString(magnitude), 6, '0');
    }
  }

  /** A number below `10^width`, zero-padded to `width`, is `width` digits that read back as it. */
  lemma PaddedDigits(n: nat, width: nat)
    requires width >= 1 && n < Pow10(width)
    ensures var s := PadStart(NatToString(n), width, '0'); |s| == width && AllDigits(s) && DigitsValue(s) == n
  {
    NatToStringLength(n, width);
    NatToStringValue(n);
    ZeroPaddedValue(NatToString(n), width);
  }

  /** A month or day field: always two digits, the tens then the units. */
  function TwoDigits(n: nat): string
    requires n < 100
  {
    [DigitChar(n / 10), DigitChar(n % 10)]
  }

  /** `YYYY-MM-DD` (or the extended-year form) for a civil date. */
  function DateString(c: CivilDate): string
    requires 1 <= c.month <= 12 && 1 <= c.day <= 31
  {
    YearString(c.year) + "-" + TwoDigits(c.month) + "-" + TwoDigits(c.day)
  }

  /** `t.toISOString().split('T')[0]`. */
  function IsoDate(t: int): string
    requires ValidTime(t)
  {
    DateString(UtcDate(t))
  }

  /** 2024-06-10T06:13:20Z falls on 10 June 2024 (UTC). */
  lemma UtcDateExample()
    ensures UtcDate(1718000000000) == CivilDate(2024, 6, 10)
  {
    assert 1718000000000 / MsPerDay == 19884;
    assert DayParts(19884) == EraParts(5, 0, 6, 0, 101);
    assert CivilFromParts(EraParts(5, 0, 6, 0, 101)) == CivilDate(2024, 6, 10);
  }

  /** A date of years 0..9999 is ten characters, `YYYY-MM-DD`, with digits in the fields. */
  lemma DateStringShape(c: CivilDate)
    requires 0 <= c.year <= 9999 && 1 <= c.month <= 12 && 1 <= c.day <= 31
    ensures var s := DateString(c);
      |s| == 10 && s[4] == '-' && s[7] == '-'
      && AllDigits(s[..4]) && DigitsValue(s[..4]) == c.year
      && AllDigits(s[5..7]) && DigitsValue(s[5..7]) == c.month
      && AllDigits(s[8..]) && DigitsValue(s[8..]) == c.day
  {
    var s := DateString(c);
    var y, m, d := YearString(c.year), TwoDigits(c.month), TwoDigits(c.day);
    YearStringDigits(c.year);
    TwoDigitsPadded(c.month);
    TwoDigitsPadded(c.day);
    assert Pow10(2) == 100;
    FixedWidthOrder(c.month, c.month, 2);
    FixedWidthOrder(c.day, c.day, 2);
    NatToStringValue(c.month);
    NatToStringValue(c.day);
    ZeroPaddedValue(NatToString(c.month), 2);
    ZeroPaddedValue(NatToString(c.day), 2);
    assert s == y + "-" + m + "-" + d;
    assert s[..4] == y && s[5..7] == m && s[8..] == d;
  }

  /**
   * For dates of years 0..9999 the string comparison `a <= b` that the week and month
   * views apply agrees with calendar order.
   */
  lemma DateStringOrder(a: CivilDate, b: CivilDate)
    requires 0 <= a.year <= 9999 && 1 <= a.month <= 12 && 1 <= a.day <= 31
    requires 0 <= b.year <= 9999 && 1 <= b.month <= 12 && 1 <= b.day <= 31
    ensures StrLe(DateString(a), DateString(b)) <==> CivilLe(a, b)
  {
    var ya, ma, da := YearString(a.year), TwoDigits(a.month), TwoDigits(a.day);
    var yb, mb, db := YearString(b.year), TwoDigits(b.month), TwoDigits(b.day);
    YearOrder(a.year, b.year);
    TwoDigitsOrder(a.month, b.month);
    TwoDigitsOrder(a.day, b.day);
    assert DateString(a) == ya + "-" + ma + "-" + da && DateString(b) == yb + "-" + mb + "-" + db;
    assert StrLe(DateString(a), DateString(b)) <==>
      (ya != yb && StrLe(ya, yb)) || (ya == yb && ((ma != mb && StrLe(ma, mb)) || (ma == mb && StrLe(da, db)))) by {
      ThreeFields(ya, ma, da, yb, mb, db);
    }
  }

  /** Four-digit years compare as strings the way they compare as numbers. */
  lemma YearOrder(y: int, z: int)
    requires 0 <= y <= 9999 && 0 <= z <= 9999
    ensures |YearString(y)| == |YearString(z)|
    ensures StrLe(YearString(y), YearString(z)) <==> y <= z
    ensures YearString(y) == YearString(z) <==> y == z
  {
    var p, q := PadStart(NatToString(y), 4, '0'), PadStart(NatToString(z), 4, '0');
    assert Pow10(4) == 10000;
    FieldOrder(y, z, 4);
    assert YearString(y) == p && YearString(z) == q;
  }

  /** Dash-separated fields of matching widths compare field by field. */
  lemma ThreeFields(ya: string, ma: string, da: string, yb: string, mb: string, db: string)
    requires |ya| == |yb| && |ma| == |mb|
    ensures StrLe(ya + "-" + ma + "-" + da, yb + "-" + mb + "-" + db) <==>
      (ya != yb && StrLe(ya, yb)) || (ya == yb && ((ma != mb && StrLe(ma, mb)) || (ma == mb && StrLe(da, db))))
  {
    assert ya + "-" + ma + "-" + da == ya + ("-" + (ma + ("-" + da)));
    assert yb + "-" + mb + "-" + db == yb + ("-" + (mb + ("-" + db)));
    StrLeConcat(ya, "-" + (ma + ("-" + da)), yb, "-" + (mb + ("-" + db)));
    StrLeConcat("-", ma + ("-" + da), "-", mb + ("-" + db));
    StrLeConcat(ma, "-" + da, mb, "-" + db);
    StrLeConcat("-", da, "-", db);
  }

  /** Two-digit fields compare as strings the way their numbers compare. */
  lemma TwoDigitsOrder(m: nat, n: nat)
    requires m < 100 && n < 100
    ensures |TwoDigits(m)| == 2 && |TwoDigits(n)| == 2
    ensures StrLe(TwoDigits(m), TwoDigits(n)) <==> m <= n
    ensures TwoDigits(m) == TwoDigits(n) <==> m == n
  {
    assert Pow10(2) == 100;
    TwoDigitsPadded(m);
    TwoDigitsPadded(n);
    FieldOrder(m, n, 2);
  }

  /** The two digits are `n.toString().padStart(2, '0')`. */
  lemma TwoDigitsPadded(n: nat)
    requires n < 100
    ensures TwoDigits(n) == PadStart(NatToString(n), 2, '0')
  {
    if n >= 10 {
      assert NatToString(n) == NatToString(n / 10) + [DigitChar(n % 10)];
    }
  }

  /** One zero-padded field: its string order and equality are those of its number. */
  lemma FieldOrder(m: nat, n: nat, width: nat)
    requires m < Pow10(width) && n < Pow10(width) && width >= 1
    ensures |PadStart(NatToString(m), width, '0')| == width && |PadStart(NatToString(n), width, '0')| == width
    ensures StrLe(PadStart(NatToString(m), width, '0'), PadStart(NatToString(n), width, '0')) <==> m <= n
    ensures PadStart(NatToString(m), width, '0') == PadStart(NatToString(n), width, '0') <==> m == n
  {
    FixedWidthOrder(m, n, width);
    FixedWidthOrder(n, m, width);
    StrLeReflexive(PadStart(NatToString(m), width, '0'));
  }
}
