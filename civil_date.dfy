/** Calendar dates in the proleptic Gregorian calendar, standing in for the
    date-fns calls of the date utilities (`parseISO`, `isValid`, `addDays`,
    `format`). A date is written as the complete extended calendar date form
    `YYYY-MM-DD` of ISO 8601 (section 4.1.2.2 of ISO 8601:2004). Calendar
    arithmetic is backed by a days-from-civil count, so that "45 days later"
    is a statement about integers. */
module CivilDate {
  import opened Wrappers

  datatype Date = Date(year: nat, month: nat, day: nat)

  predicate IsLeapYear(y: nat)
  {
    y % 4 == 0 && (y % 100 != 0 || y % 400 == 0)
  }

  function DaysInMonth(y: nat, m: nat): (n: nat)
    requires 1 <= m <= 12
    ensures 28 <= n <= 31
  {
    if m == 2 then (if IsLeapYear(y) then 29 else 28)
    else if m == 4 || m == 6 || m == 9 || m == 11 then 30
    else 31
  }

  /** A real calendar date: month 1..12, day within that month. */
  predicate Valid(d: Date)
  {
    1 <= d.month <= 12 && 1 <= d.day <= DaysInMonth(d.year, d.month)
  }

  function DaysInYear(y: nat): nat
  {
    if IsLeapYear(y) then 366 else 365
  }

  /** Days from 0000-01-01 to the first of January of year y: 365 per year
      plus one per leap year in [0, y). */
  function DaysBeforeYear(y: nat): int
  {
    365 * y + (y + 3) / 4 - (y + 99) / 100 + (y + 399) / 400
  }

  /** Days from the first of January to the first of month m. */
  function DaysBeforeMonth(y: nat, m: nat): int
    requires 1 <= m <= 12
  {
    [0, 31, 59, 90, 120, 151, 181, 212, 243, 273, 304, 334][m - 1]
      + (if m > 2 && IsLeapYear(y) then 1 else 0)
  }

  /** Days-from-civil: the number of days from 0000-01-01 to d. */
  function DayNumber(d: Date): int
    requires Valid(d)
  {
    DaysBeforeYear(d.year) + DaysBeforeMonth(d.year, d.month) + d.day - 1
  }

  lemma CeilStep(y: nat, k: nat)
    requires k == 4 || k == 100 || k == 400
    ensures (y + k) / k - (y + k - 1) / k == if y % k == 0 then 1 else 0
  {
    var q, r := y / k, y % k;
    assert y == k * q + r;
    assert (y + k) / k == q + 1;
    if r == 0 {
      assert y + k - 1 == k * q + (k - 1);
    } else {
      assert y + k - 1 == k * (q + 1) + (r - 1);
    }
  }

  /** Consecutive years are DaysInYear apart. */
  lemma DaysBeforeYearStep(y: nat)
    ensures DaysBeforeYear(y + 1) == DaysBeforeYear(y) + DaysInYear(y)
  {
    CeilStep(y, 4);
    CeilStep(y, 100);
    CeilStep(y, 400);
  }

  /** Consecutive months are DaysInMonth apart, and December ends the year. */
  lemma DaysBeforeMonthStep(y: nat, m: nat)
    requires 1 <= m <= 12
    ensures m < 12 ==> DaysBeforeMonth(y, m + 1) == DaysBeforeMonth(y, m) + DaysInMonth(y, m)
    ensures m == 12 ==> DaysBeforeMonth(y, m) + DaysInMonth(y, m) == DaysInYear(y)
  {
  }

  /** The calendar successor of a date. */
  function NextDay(d: Date): (r: Date)
    requires Valid(d)
    ensures Valid(r) && DayNumber(r) == DayNumber(d) + 1
  {
    DaysBeforeMonthStep(d.year, d.month);
    DaysBeforeYearStep(d.year);
    if d.day < DaysInMonth(d.year, d.month) then Date(d.year, d.month, d.day + 1)
    else if d.month < 12 then Date(d.year, d.month + 1, 1)
    else Date(d.year + 1, 1, 1)
  }

  /** addDays: n calendar days later (no business days, no time zones). */
  function AddDays(d: Date, n: nat): (r: Date)
    requires Valid(d)
    ensures Valid(r) && DayNumber(r) == DayNumber(d) + n
    decreases n
  {
    if n == 0 then d else NextDay(AddDays(d, n - 1))
  }

  lemma {:induction false} DaysBeforeYearMonotone(a: nat, b: nat)
    requires a < b
    ensures DaysBeforeYear(a + 1) <= DaysBeforeYear(b)
    decreases b - a
  {
    DaysBeforeYearStep(b - 1);
    if a + 1 < b {
      DaysBeforeYearMonotone(a, b - 1);
    }
  }

  lemma DaysBeforeMonthMonotone(y: nat, m1: nat, m2: nat)
    requires 1 <= m1 < m2 <= 12
    ensures DaysBeforeMonth(y, m1) + DaysInMonth(y, m1) <= DaysBeforeMonth(y, m2)
  {
  }

  /** A date's day number lies inside its year. */
  lemma DayNumberInYear(d: Date)
    requires Valid(d)
    ensures DaysBeforeYear(d.year) <= DayNumber(d) < DaysBeforeYear(d.year + 1)
  {
    DaysBeforeYearStep(d.year);
    DaysBeforeMonthStep(d.year, 12);
    if d.month < 12 {
      DaysBeforeMonthMonotone(d.year, d.month, 12);
    }
  }

  /** Later day numbers never belong to earlier years. */
  lemma YearMonotone(a: Date, b: Date)
    requires Valid(a) && Valid(b)
    requires DayNumber(a) <= DayNumber(b)
    ensures a.year <= b.year
  {
    if a.year > b.year {
      DayNumberInYear(a);
      DayNumberInYear(b);
      DaysBeforeYearMonotone(b.year, a.year);
    }
  }

  /** Days-from-civil is one-to-one on valid dates, so "n days after d"
      names exactly one date. */
  lemma DayNumberInjective(a: Date, b: Date)
    requires Valid(a) && Valid(b)
    requires DayNumber(a) == DayNumber(b)
    ensures a == b
  {
    YearMonotone(a, b);
    YearMonotone(b, a);
    var y := a.year;
    if a.month < b.month {
      DaysBeforeMonthMonotone(y, a.month, b.month);
    } else if b.month < a.month {
      DaysBeforeMonthMonotone(y, b.month, a.month);
    }
  }

  /** Adding days in two steps is adding their sum. */
  lemma AddDaysAdditive(d: Date, a: nat, b: nat)
    requires Valid(d)
    ensures AddDays(AddDays(d, a), b) == AddDays(d, a + b)
  {
    DayNumberInjective(AddDays(AddDays(d, a), b), AddDays(d, a + b));
  }

  // ---- Decimal digits ----

  function Pow10(n: nat): (p: nat)
    ensures p >= 1
  {
    if n == 0 then 1 else 10 * Pow10(n - 1)
  }

  predicate IsDigit(c: char)
  {
    '0' <= c <= '9'
  }

  predicate AllDigits(s: string)
  {
    forall i :: 0 <= i < |s| ==> IsDigit(s[i])
  }

  function DigitChar(v: nat): (c: char)
    requires v < 10
    ensures IsDigit(c)
  {
    ('0' as int + v) as char
  }

  function DigitValue(c: char): (v: nat)
    requires IsDigit(c)
    ensures v < 10 && DigitChar(v) == c
  {
    c as int - '0' as int
  }

  /** The `width` least significant decimal digits of n, most significant first. */
  function Digits(n: nat, width: nat): (s: string)
    ensures |s| == width && AllDigits(s)
  {
    if width == 0 then [] else Digits(n / 10, width - 1) + [DigitChar(n % 10)]
  }

  /** The number a string of decimal digits denotes. */
  function Value(s: string): nat
    requires AllDigits(s)
  {
    if s == [] then 0 else 10 * Value(s[..|s| - 1]) + DigitValue(s[|s| - 1])
  }

  /** Reading back a zero-padded rendering gives the number. */
  lemma {:induction false} ValueOfDigits(n: nat, width: nat)
    requires n < Pow10(width)
    ensures Value(Digits(n, width)) == n
  {
    if width > 0 {
      var s := Digits(n, width);
      assert s[..|s| - 1] == Digits(n / 10, width - 1);
      ValueOfDigits(n / 10, width - 1);
      assert DigitValue(DigitChar(n % 10)) == n % 10;
    }
  }

  /** Rendering the value of a digit string at its own width gives it back. */
  lemma {:induction false} DigitsOfValue(s: string)
    requires AllDigits(s)
    ensures Value(s) < Pow10(|s|) && Digits(Value(s), |s|) == s
  {
    if s != [] {
      var init, last := s[..|s| - 1], s[|s| - 1];
      DigitsOfValue(init);
      var v := Value(s);
      assert v == 10 * Value(init) + DigitValue(last);
      assert v / 10 == Value(init) && v % 10 == DigitValue(last);
      assert s == init + [last];
    }
  }

  /** date-fns year tokens print the year of era: year 0 is 1 BC, printed 1. */
  function YearOfEra(y: nat): (e: nat)
    ensures e >= 1 && (y >= 1 ==> e == y)
  {
    if y > 0 then y else 1
  }

  /** The `yyyy` token: the year of era, zero-padded to at least four digits. */
  function YearText(y: nat): (s: string)
    ensures AllDigits(s) && |s| >= 4
    ensures YearOfEra(y) < 10000 ==> |s| == 4 && Value(s) == YearOfEra(y)
  {
    var e := YearOfEra(y);
    if e < 10000 then
      assert Pow10(4) == 10000;
      ValueOfDigits(e, 4);
      Digits(e, 4)
    else Digits(e, if NumDigits(e) < 4 then 4 else NumDigits(e))
  }

  function NumDigits(n: nat): (k: nat)
    ensures k >= 1 && n < Pow10(k)
  {
    if n < 10 then 1 else 1 + NumDigits(n / 10)
  }

  /** `format(date, 'yyyy-MM-dd')`. */
  function FormatIso(d: Date): (s: string)
    ensures |s| >= 10
  {
    YearText(d.year) + "-" + Digits(d.month, 2) + "-" + Digits(d.day, 2)
  }

  /** `format(date, 'MM/dd/yyyy')`: two-digit month, two-digit day and the
      year of era, at least four digits, separated by slashes. */
  function FormatLong(d: Date): (r: string)
    ensures |r| >= 10 && r[2] == '/' && r[5] == '/'
    ensures AllDigits(r[..2]) && AllDigits(r[3..5]) && AllDigits(r[6..])
    ensures Valid(d) ==> Value(r[..2]) == d.month && Value(r[3..5]) == d.day
    ensures YearOfEra(d.year) < 10000 ==> |r| == 10 && Value(r[6..]) == YearOfEra(d.year)
  {
    var r := Digits(d.month, 2) + "/" + Digits(d.day, 2) + "/" + YearText(d.year);
    assert r[..2] == Digits(d.month, 2);
    assert r[3..5] == Digits(d.day, 2);
    assert r[6..] == YearText(d.year);
    if Valid(d) then
      assert Pow10(2) == 100;
      ValueOfDigits(d.month, 2);
      ValueOfDigits(d.day, 2);
      r
    else r
  }

  /** `format(date, 'MM/dd/yy')`: two-digit month, two-digit day and the
      last two digits of the year of era, separated by slashes. */
  function FormatShort(d: Date): (r: string)
    ensures |r| == 8 && r[2] == '/' && r[5] == '/'
    ensures AllDigits(r[..2]) && AllDigits(r[3..5]) && AllDigits(r[6..])
    ensures Valid(d) ==> Value(r[..2]) == d.month && Value(r[3..5]) == d.day
    ensures Value(r[6..]) == YearOfEra(d.year) % 100
  {
    var r := Digits(d.month, 2) + "/" + Digits(d.day, 2) + "/" + Digits(YearOfEra(d.year) % 100, 2);
    assert r[..2] == Digits(d.month, 2);
    assert r[3..5] == Digits(d.day, 2);
    assert r[6..] == Digits(YearOfEra(d.year) % 100, 2);
    assert Pow10(2) == 100;
    ValueOfDigits(YearOfEra(d.year) % 100, 2);
    if Valid(d) then
      ValueOfDigits(d.month, 2);
      ValueOfDigits(d.day, 2);
      r
    else r
  }

  /** `parseISO` followed by `isValid`, restricted to `YYYY-MM-DD`:
      four year digits, two month digits, two day digits, and a real date. */
  function ParseIso(s: string): (r: Option<Date>)
    ensures r.Some? ==> Valid(r.value) && r.value.year < 10000
  {
    if |s| == 10 && s[4] == '-' && s[7] == '-'
       && AllDigits(s[..4]) && AllDigits(s[5..7]) && AllDigits(s[8..])
    then
      DigitsOfValue(s[..4]);
      assert Pow10(4) == 10000;
      var d := Date(Value(s[..4]), Value(s[5..7]), Value(s[8..]));
      if Valid(d) then Some(d) else None
    else None
  }

  /** Formatting then parsing gives the date back (years 1..9999). */
  lemma ParseFormatIso(d: Date)
    requires Valid(d) && 1 <= d.year < 10000
    ensures ParseIso(FormatIso(d)) == Some(d)
  {
    assert Pow10(2) == 100;
    ValueOfDigits(d.month, 2);
    ValueOfDigits(d.day, 2);
    IsoFields(YearText(d.year), Digits(d.month, 2), Digits(d.day, 2));
  }

  /** The fields of a `yyyy-MM-dd` string sit at fixed offsets. */
  lemma IsoFields(y: string, m: string, d: string)
    requires |y| == 4 && |m| == 2 && |d| == 2
    ensures var s := y + "-" + m + "-" + d;
            && |s| == 10 && s[4] == '-' && s[7] == '-'
            && s[..4] == y && s[5..7] == m && s[8..] == d
  {
  }

  /** A string that parses is the formatting of its date (years 1..9999):
      parsing accepts exactly the canonical form. */
  lemma FormatParseIso(s: string)
    requires ParseIso(s).Some? && ParseIso(s).value.year >= 1
    ensures FormatIso(ParseIso(s).value) == s
  {
    var d := ParseIso(s).value;
    DigitsOfValue(s[..4]);
    DigitsOfValue(s[5..7]);
    DigitsOfValue(s[8..]);
    assert s == s[..4] + "-" + s[5..7] + "-" + s[8..];
  }

  /** In year 0 the era-year rendering differs from the stored year: the
      string that parsed is not what formatting writes. */
  lemma YearZeroReformats(s: string)
    requires ParseIso(s).Some? && ParseIso(s).value.year == 0
    ensures FormatIso(ParseIso(s).value) != s
  {
    var d := ParseIso(s).value;
    var f := FormatIso(d);
    assert f[..4] == YearText(0);
    assert Value(YearText(0)) == 1;
    DigitsOfValue(s[..4]);
  }
}
