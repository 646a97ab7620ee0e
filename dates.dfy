/**
 * Calendar dates and times as PHP's DateTimeImmutable holds them (to the
 * second, in one time zone), their 'Y-m-d H:i:s' text, the strict parse of
 * that text, and the month arithmetic behind `setDate(y, m, 1)` and
 * `modify('first day of next month')`.
 */
module Dates {
  import opened Text
  import opened Wrappers

  datatype DateTime = DateTime(year: int, month: int, day: int, hour: int, minute: int, second: int)

  /** Gregorian leap years (proleptic, as PHP computes them). */
  predicate IsLeapYear(y: int)
  {
    y % 4 == 0 && (y % 100 != 0 || y % 400 == 0)
  }

  function DaysInMonth(y: int, m: int): (n: int)
    requires 1 <= m <= 12
    ensures 28 <= n <= 31
  {
    if m == 2 then (if IsLeapYear(y) then 29 else 28)
    else if m == 4 || m == 6 || m == 9 || m == 11 then 30
    else 31
  }

  predicate IsValid(d: DateTime)
  {
    && 1 <= d.month <= 12
    && 1 <= d.day <= DaysInMonth(d.year, d.month)
    && 0 <= d.hour < 24 && 0 <= d.minute < 60 && 0 <= d.second < 60
  }

  /** A point in time a DateTimeImmutable can hold: its fields are always normalised. */
  type Instant = d: DateTime | IsValid(d) witness DateTime(1970, 1, 1, 0, 0, 0)

  /** Chronological order. */
  predicate Before(a: DateTime, b: DateTime)
  {
    || a.year < b.year
    || (a.year == b.year && a.month < b.month)
    || (a.year == b.year && a.month == b.month && a.day < b.day)
    || (a.year == b.year && a.month == b.month && a.day == b.day && a.hour < b.hour)
    || (a.year == b.year && a.month == b.month && a.day == b.day && a.hour == b.hour && a.minute < b.minute)
    || (a.year == b.year && a.month == b.month && a.day == b.day && a.hour == b.hour && a.minute == b.minute
        && a.second < b.second)
  }

  // ---------------------------------------------------------------- text

  /** The 'Y' field: at least four digits, with a '-' before years below 0. */
  function YearText(y: int): string
  {
    if 0 <= y < 10000 then FixedDigits(y, 4)
    else if y >= 10000 then NatToString(y)
    else if -y < 10000 then "-" + FixedDigits(-y, 4)
    else "-" + NatToString(-y)
  }

  /** A separator followed by a two-digit field and the rest of the text. */
  function Field2(sep: char, n: nat, rest: string): string
  {
    [sep] + FixedDigits(n, 2) + rest
  }

  /** `format('Y-m-d H:i:s')`. */
  function Format(d: Instant): string
  {
    YearText(d.year) + Field2('-', d.month, Field2('-', d.day,
      Field2(' ', d.hour, Field2(':', d.minute, Field2(':', d.second, [])))))
  }

  /** A year PHP prints as exactly four digits. */
  predicate FourDigitYear(d: DateTime)
  {
    0 <= d.year < 10000
  }

  lemma {:induction false} Field2Order(sep: char, n: nat, m: nat, x: string, y: string)
    requires n < 100 && m < 100
    ensures LexLess(Field2(sep, n, x), Field2(sep, m, y)) <==> n < m || (n == m && LexLess(x, y))
    ensures Field2(sep, n, x) == Field2(sep, m, y) <==> n == m && x == y
  {
    var fn, fm := FixedDigits(n, 2), FixedDigits(m, 2);
    assert Pow10(2) == 100;
    FixedDigitsOrder(n, m, 2);
    assert Field2(sep, n, x) == [sep] + (fn + x) && Field2(sep, m, y) == [sep] + (fm + y);
    LexLessConcat([sep], fn + x, [sep], fm + y);
    LexLessIrreflexive([sep]);
    LexLessConcat(fn, x, fm, y);
    if Field2(sep, n, x) == Field2(sep, m, y) {
      assert (fn + x)[..2] == fn && (fm + y)[..2] == fm;
      assert (fn + x)[2..] == x && (fm + y)[2..] == y;
      assert ([sep] + (fn + x))[1..] == fn + x;
      assert ([sep] + (fm + y))[1..] == fm + y;
    }
  }

  /** For four-digit years the text order of 'Y-m-d H:i:s' is the chronological
      order, and the text determines the instant. This is why comparing dates as
      text in SQL compares them as times. */
  lemma FormatOrder(a: Instant, b: Instant)
    requires FourDigitYear(a) && FourDigitYear(b)
    ensures LexLess(Format(a), Format(b)) <==> Before(a, b)
    ensures Format(a) == Format(b) <==> a == b
  {
    var s5a, s5b := Field2(':', a.second, []), Field2(':', b.second, []);
    var s4a, s4b := Field2(':', a.minute, s5a), Field2(':', b.minute, s5b);
    var s3a, s3b := Field2(' ', a.hour, s4a), Field2(' ', b.hour, s4b);
    var s2a, s2b := Field2('-', a.day, s3a), Field2('-', b.day, s3b);
    var s1a, s1b := Field2('-', a.month, s2a), Field2('-', b.month, s2b);
    Field2Order(':', a.second, b.second, [], []);
    Field2Order(':', a.minute, b.minute, s5a, s5b);
    Field2Order(' ', a.hour, b.hour, s4a, s4b);
    Field2Order('-', a.day, b.day, s3a, s3b);
    Field2Order('-', a.month, b.month, s2a, s2b);
    assert Pow10(4) == 10000;
    var ya, yb := FixedDigits(a.year, 4), FixedDigits(b.year, 4);
    FixedDigitsOrder(a.year, b.year, 4);
    LexLessConcat(ya, s1a, yb, s1b);
    assert Format(a) == ya + s1a && Format(b) == yb + s1b;
    if Format(a) == Format(b) {
      assert (ya + s1a)[..4] == ya && (yb + s1b)[..4] == yb;
      assert (ya + s1a)[4..] == s1a && (yb + s1b)[4..] == s1b;
    }
  }

  /** Strict reading of 'Y-m-d H:i:s': exactly the nineteen-character canonical
      text of a valid instant (`DateTimeImmutable::createFromFormat`). */
  function ParseDateTime(s: string): Option<Instant>
  {
    if |s| == 19 && s[4] == '-' && s[7] == '-' && s[10] == ' ' && s[13] == ':' && s[16] == ':'
       && AllDigits(s[0..4]) && AllDigits(s[5..7]) && AllDigits(s[8..10])
       && AllDigits(s[11..13]) && AllDigits(s[14..16]) && AllDigits(s[17..19])
    then
      var d := DateTime(DigitsValue(s[0..4]), DigitsValue(s[5..7]), DigitsValue(s[8..10]),
                        DigitsValue(s[11..13]), DigitsValue(s[14..16]), DigitsValue(s[17..19]));
      if IsValid(d) then Some(d) else None
    else None
  }

  lemma FormatLayout(d: Instant)
    requires FourDigitYear(d)
    ensures var s := Format(d);
      && |s| == 19 && s[4] == '-' && s[7] == '-' && s[10] == ' ' && s[13] == ':' && s[16] == ':'
      && s[0..4] == FixedDigits(d.year, 4) && s[5..7] == FixedDigits(d.month, 2)
      && s[8..10] == FixedDigits(d.day, 2) && s[11..13] == FixedDigits(d.hour, 2)
      && s[14..16] == FixedDigits(d.minute, 2) && s[17..19] == FixedDigits(d.second, 2)
  {
    var s := Format(d);
    var y, mo, dd := FixedDigits(d.year, 4), FixedDigits(d.month, 2), FixedDigits(d.day, 2);
    var h, mi, se := FixedDigits(d.hour, 2), FixedDigits(d.minute, 2), FixedDigits(d.second, 2);
    assert s == y + ['-'] + mo + ['-'] + dd + [' '] + h + [':'] + mi + [':'] + se;
    assert s[0..4] == y;
    assert s[5..7] == mo;
    assert s[8..10] == dd;
    assert s[11..13] == h;
    assert s[14..16] == mi;
    assert s[17..19] == se;
  }

  /** Parsing the text of an instant gives the instant back. */
  lemma ParseFormat(d: Instant)
    requires FourDigitYear(d)
    ensures ParseDateTime(Format(d)) == Some(d)
  {
    var s := Format(d);
    FormatLayout(d);
    assert Pow10(4) == 10000 && Pow10(2) == 100;
    FixedDigitsValue(d.year, 4);
    FixedDigitsValue(d.month, 2);
    FixedDigitsValue(d.day, 2);
    FixedDigitsValue(d.hour, 2);
    FixedDigitsValue(d.minute, 2);
    FixedDigitsValue(d.second, 2);
  }

  /** Only canonical text parses: formatting what was parsed gives the text back. */
  lemma FormatParse(s: string, d: Instant)
    requires ParseDateTime(s) == Some(d)
    ensures FourDigitYear(d) && Format(d) == s
  {
    DigitsFixed(s[0..4]);
    DigitsFixed(s[5..7]);
    DigitsFixed(s[8..10]);
    DigitsFixed(s[11..13]);
    DigitsFixed(s[14..16]);
    DigitsFixed(s[17..19]);
    assert Pow10(4) == 10000;
    FormatLayout(d);
    var t := Format(d);
    assert forall i | 0 <= i < 19 :: t[i] == s[i] by {
      forall i | 0 <= i < 19 ensures t[i] == s[i] {
        if i < 4 { assert t[i] == t[0..4][i]; assert s[i] == s[0..4][i]; }
        else if 5 <= i < 7 { assert t[i] == t[5..7][i - 5]; assert s[i] == s[5..7][i - 5]; }
        else if 8 <= i < 10 { assert t[i] == t[8..10][i - 8]; assert s[i] == s[8..10][i - 8]; }
        else if 11 <= i < 13 { assert t[i] == t[11..13][i - 11]; assert s[i] == s[11..13][i - 11]; }
        else if 14 <= i < 16 { assert t[i] == t[14..16][i - 14]; assert s[i] == s[14..16][i - 14]; }
        else if 17 <= i < 19 { assert t[i] == t[17..19][i - 17]; assert s[i] == s[17..19][i - 17]; }
      }
    }
  }

  // ---------------------------------------------------------------- months

  /** `(new DateTimeImmutable())->setDate(year, month, 1)->setTime(0, 0, 0)`:
      a month outside 1..12 carries into the year, as PHP normalises it. */
  function MonthStart(year: int, month: int): (d: Instant)
    ensures d.day == 1 && d.hour == 0 && d.minute == 0 && d.second == 0
    ensures d.year * 12 + d.month == year * 12 + month
  {
    var t := year * 12 + (month - 1);
    DateTime(t / 12, t % 12 + 1, 1, 0, 0, 0)
  }

  /** `modify('first day of next month')`: day 1 of the following month,
      December rolling over into January, time of day kept. */
  function FirstDayOfNextMonth(d: Instant): (e: Instant)
    ensures e.day == 1 && e.hour == d.hour && e.minute == d.minute && e.second == d.second
    ensures e.year * 12 + e.month == d.year * 12 + d.month + 1
  {
    if d.month == 12 then DateTime(d.year + 1, 1, 1, d.hour, d.minute, d.second)
    else DateTime(d.year, d.month + 1, 1, d.hour, d.minute, d.second)
  }

  /** The end of a month window is the start of the next month, for any month number. */
  lemma NextMonthOfStart(year: int, month: int)
    ensures FirstDayOfNextMonth(MonthStart(year, month)) == MonthStart(year, month + 1)
  {
    var a, b := FirstDayOfNextMonth(MonthStart(year, month)), MonthStart(year, month + 1);
    assert a.year * 12 + a.month == b.year * 12 + b.month;
    assert 1 <= a.month <= 12 && 1 <= b.month <= 12;
  }

  /** Both ends of a month's window print with a four-digit year. */
  predicate FourDigitWindow(year: int, month: int)
  {
    FourDigitYear(MonthStart(year, month)) && FourDigitYear(FirstDayOfNextMonth(MonthStart(year, month)))
  }

  /** Every month from January 0000 up to November 9999 has a four-digit
      window; December 9999 does not, since its window ends in 10000. */
  lemma FourDigitWindowMeaning(year: int, month: int)
    ensures var s := MonthStart(year, month);
      FourDigitWindow(year, month) <==> 0 <= s.year <= 9999 && !(s.year == 9999 && s.month == 12)
  {
  }

  /** February of a leap year ends on its 29th; December rolls over into January. */
  lemma MonthWindowExamples()
    ensures FirstDayOfNextMonth(MonthStart(2024, 2)) == DateTime(2024, 3, 1, 0, 0, 0)
    ensures DaysInMonth(2024, 2) == 29
    ensures FirstDayOfNextMonth(MonthStart(2025, 12)) == DateTime(2026, 1, 1, 0, 0, 0)
    ensures MonthStart(2025, 13) == DateTime(2026, 1, 1, 0, 0, 0)
    ensures MonthStart(2025, 0) == DateTime(2024, 12, 1, 0, 0, 0)
  {
  }

  /** An instant lies in the half-open window [start of month, start of next month)
      exactly when it falls in that calendar month. */
  lemma InMonthWindow(d: Instant, year: int, month: int)
    ensures var s := MonthStart(year, month);
      (!Before(d, s) && Before(d, FirstDayOfNextMonth(s))) <==> d.year == s.year && d.month == s.month
  {
    var s := MonthStart(year, month);
    var e := FirstDayOfNextMonth(s);
    assert Before(d, e) <==> d.year * 12 + d.month < e.year * 12 + e.month;
    assert !Before(d, s) <==> d.year * 12 + d.month >= s.year * 12 + s.month;
  }

  /** With the end bound included, the window also holds the first instant of the next month. */
  lemma InClosedMonthWindow(d: Instant, year: int, month: int)
    ensures var s := MonthStart(year, month);
      var e := FirstDayOfNextMonth(s);
      (!Before(d, s) && !Before(e, d)) <==> (d.year == s.year && d.month == s.month) || d == e
  {
    var s := MonthStart(year, month);
    var e := FirstDayOfNextMonth(s);
    InMonthWindow(d, year, month);
    if d.year == e.year && d.month == e.month && !Before(e, d) {
      assert d.day == 1 && d.hour == 0 && d.minute == 0 && d.second == 0;
    }
  }
}
