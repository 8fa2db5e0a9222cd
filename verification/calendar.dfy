/** Naive (time-zone free) instants, Python's `timedelta.days`, and the
    proleptic Gregorian calendar behind `strftime('%Y-%m-%d')`. */
module Calendar {
  import opened Wrappers
  import opened Text
  import opened Numerals

  const MicrosPerSecond: nat := 1_000_000
  const MicrosPerDay: nat := 86_400_000_000

  /** A naive datetime, as microseconds since 0001-01-01 00:00:00. */
  type Instant = nat

  /** `(expiry - now).days`: the whole days from `now` to `expiry`, rounded
      down, so an instant one microsecond in the past is already day -1. */
  function DaysLeft(expiry: Instant, now: Instant): (r: int)
    ensures r * MicrosPerDay <= expiry - now < (r + 1) * MicrosPerDay
  {
    (expiry - now) / MicrosPerDay
  }

  /** Days left grows with the expiry instant. */
  lemma DaysLeftMonotonic(e1: Instant, e2: Instant, now: Instant)
    requires e1 <= e2
    ensures DaysLeft(e1, now) <= DaysLeft(e2, now)
  {
  }

  /** A difference of exactly k days gives k days left, for any sign of k. */
  lemma DaysLeftExact(expiry: Instant, now: Instant, k: int)
    requires expiry - now == k * MicrosPerDay
    ensures DaysLeft(expiry, now) == k
  {
  }

  /** An expiry one second before `now` is already one day overdue. */
  lemma OneSecondBefore(now: Instant)
    requires now >= MicrosPerSecond
    ensures DaysLeft(now - MicrosPerSecond, now) == -1
  {
  }

  /** Days left counts elapsed time, not calendar dates: from noon on one day
      to six in the morning on the next is zero days left, although the
      calendar dates differ by one. */
  lemma DaysLeftDependsOnTimeOfDay()
    ensures var now, expiry := MicrosPerDay / 2, MicrosPerDay + MicrosPerDay / 4;
            DaysLeft(expiry, now) == 0 && expiry / MicrosPerDay - now / MicrosPerDay == 1
  {
  }

  predicate IsLeap(year: int) {
    year % 4 == 0 && (year % 100 != 0 || year % 400 == 0)
  }

  function DaysInYear(year: int): nat {
    if IsLeap(year) then 366 else 365
  }

  function DaysInMonth(year: int, month: int): (r: nat)
    requires 1 <= month <= 12
    ensures 28 <= r <= 31
  {
    if month == 2 && IsLeap(year) then 29
    else [31, 28, 31, 30, 31, 30, 31, 31, 30, 31, 30, 31][month - 1]
  }

  /** Days of `year` before the first of `month`. */
  function DaysBeforeMonth(year: int, month: int): nat
    requires 1 <= month <= 12
  {
    [0, 31, 59, 90, 120, 151, 181, 212, 243, 273, 304, 334][month - 1]
      + (if month > 2 && IsLeap(year) then 1 else 0)
  }

  /** Days from 0001-01-01 to the first of January of `year`. */
  function DaysBeforeYear(year: int): nat
    requires year >= 1
    decreases year
  {
    if year == 1 then 0 else DaysBeforeYear(year - 1) + DaysInYear(year - 1)
  }

  datatype Date = Date(year: int, month: int, day: int)

  predicate ValidDate(d: Date) {
    && d.year >= 1
    && 1 <= d.month <= 12
    && 1 <= d.day <= DaysInMonth(d.year, d.month)
  }

  /** Days since 0001-01-01 (Python's `toordinal() - 1`). */
  function Ordinal(d: Date): nat
    requires ValidDate(d)
  {
    DaysBeforeYear(d.year) + DaysBeforeMonth(d.year, d.month) + d.day - 1
  }

  lemma MonthsFillYear(year: int, month: int)
    requires 1 <= month <= 12
    ensures month < 12 ==> DaysBeforeMonth(year, month) + DaysInMonth(year, month) == DaysBeforeMonth(year, month + 1)
    ensures month == 12 ==> DaysBeforeMonth(year, month) + DaysInMonth(year, month) == DaysInYear(year)
  {
  }

  /** The year holding day number `days`, searching upwards from `year`. */
  function YearOf(days: nat, year: int): (r: int)
    requires year >= 1 && DaysBeforeYear(year) <= days
    ensures r >= year
    ensures DaysBeforeYear(r) <= days < DaysBeforeYear(r) + DaysInYear(r)
    decreases days - DaysBeforeYear(year)
  {
    if days < DaysBeforeYear(year) + DaysInYear(year) then year else YearOf(days, year + 1)
  }

  /** The month holding day `dayOfYear` (0-based) of `year`, searching upwards from `month`. */
  function MonthOf(year: int, dayOfYear: nat, month: int): (r: int)
    requires 1 <= month <= 12
    requires DaysBeforeMonth(year, month) <= dayOfYear < DaysInYear(year)
    ensures month <= r <= 12
    ensures DaysBeforeMonth(year, r) <= dayOfYear < DaysBeforeMonth(year, r) + DaysInMonth(year, r)
    decreases 12 - month
  {
    MonthsFillYear(year, month);
    if month == 12 || dayOfYear < DaysBeforeMonth(year, month + 1) then month
    else MonthOf(year, dayOfYear, month + 1)
  }

  /** The calendar date of day number `days` (Python's `date.fromordinal(days + 1)`). */
  function DateOf(days: nat): (r: Date)
    ensures ValidDate(r) && Ordinal(r) == days
  {
    var y := YearOf(days, 1);
    var doy := days - DaysBeforeYear(y);
    var m := MonthOf(y, doy, 1);
    Date(y, m, doy - DaysBeforeMonth(y, m) + 1)
  }

  lemma {:induction false} YearsIncrease(a: int, b: int)
    requires 1 <= a < b
    ensures DaysBeforeYear(a) + DaysInYear(a) <= DaysBeforeYear(b)
    decreases b - a
  {
    if a + 1 < b {
      YearsIncrease(a + 1, b);
    }
  }

  lemma MonthsIncrease(year: int, a: int, b: int)
    requires 1 <= a < b <= 12
    ensures DaysBeforeMonth(year, a) + DaysInMonth(year, a) <= DaysBeforeMonth(year, b)
  {
  }

  /** Every valid date is the date of its own day number: the calendar
      mapping is one-to-one in both directions. */
  lemma DateOfOrdinal(d: Date)
    requires ValidDate(d)
    ensures DateOf(Ordinal(d)) == d
  {
    var days := Ordinal(d);
    var r := DateOf(days);
    MonthsFillYear(d.year, d.month);
    if d.month < 12 {
      MonthsIncrease(d.year, d.month, 12);
    }
    if r.year < d.year {
      YearsIncrease(r.year, d.year);
    } else if r.year > d.year {
      YearsIncrease(d.year, r.year);
    }
    assert r.year == d.year;
    MonthsFillYear(r.year, r.month);
    if r.month < d.month {
      MonthsIncrease(d.year, r.month, d.month);
    } else if r.month > d.month {
      MonthsIncrease(d.year, d.month, r.month);
    }
  }

  /** `strftime('%Y-%m-%d')`: the year padded to four digits, month and day to two. */
  function FormatDate(d: Date): (r: string)
    requires ValidDate(d)
    ensures d.year <= 9999 ==> |r| == 10 && r[4] == '-' && r[7] == '-'
    ensures NumeralText(r)
  {
    var y := ZeroPad(NatDigits(d.year, 10), 4);
    var m := ZeroPad(NatDigits(d.month, 10), 2);
    var dd := ZeroPad(NatDigits(d.day, 10), 2);
    DecimalLength(d.month, 2, 100);
    DecimalLength(d.day, 2, 100);
    YearWidth(d.year);
    DecimalFieldText(d.year, 4);
    DecimalFieldText(d.month, 2);
    DecimalFieldText(d.day, 2);
    DashedText(y, m, dd);
    y + "-" + m + "-" + dd
  }

  lemma DashedText(y: string, m: string, dd: string)
    requires NumeralText(y) && NumeralText(m) && NumeralText(dd)
    ensures NumeralText(y + "-" + m + "-" + dd)
  {
    var r := y + "-" + m + "-" + dd;
    forall i | 0 <= i < |r|
      ensures r[i] == '-' || DigitValue(r[i], 16).Some?
    {
      if i < |y| {
        assert r[i] == y[i];
      } else if |y| < i < |y| + 1 + |m| {
        assert r[i] == m[i - |y| - 1];
      } else if |y| + 1 + |m| < i {
        assert r[i] == dd[i - |y| - 2 - |m|];
      }
    }
  }

  lemma DecimalFieldText(n: nat, width: nat)
    ensures NumeralText(ZeroPad(NatDigits(n, 10), width))
  {
    ZeroPadValue(NatDigits(n, 10), width, 10);
    DigitsAreNumeralText(ZeroPad(NatDigits(n, 10), width), 10);
  }

  lemma YearWidth(year: nat)
    ensures year <= 9999 ==> |ZeroPad(NatDigits(year, 10), 4)| == 4
  {
    if year <= 9999 {
      DecimalLength(year, 4, 10000);
    }
  }

  /** Reads a date written as three dash-separated decimal fields. */
  function ParseDate(s: string): Option<Date> {
    var parts := Split(s, '-');
    if |parts| == 3 && (forall i :: 0 <= i < 3 ==> |parts[i]| >= 1 && AllDigits(parts[i], 10)) then
      Some(Date(DigitsValue(parts[0], 10), DigitsValue(parts[1], 10), DigitsValue(parts[2], 10)))
    else None
  }

  lemma ParseDateFields(s: string, parts: seq<string>)
    requires Split(s, '-') == parts && |parts| == 3
    requires forall i :: 0 <= i < 3 ==> |parts[i]| >= 1 && AllDigits(parts[i], 10)
    ensures ParseDate(s) == Some(Date(DigitsValue(parts[0], 10), DigitsValue(parts[1], 10), DigitsValue(parts[2], 10)))
  {
  }

  lemma DecimalField(n: nat, width: nat)
    ensures var f := ZeroPad(NatDigits(n, 10), width);
            |f| >= 1 && AllDigits(f, 10) && DigitsValue(f, 10) == n && '-' !in f
  {
    var s := NatDigits(n, 10);
    var f := ZeroPad(s, width);
    ZeroPadValue(s, width, 10);
    NatDigitsValue(n, 10);
    DigitsHaveNoDash(f, 10);
  }

  /** Three dash-free decimal fields joined by dashes read back as a date. */
  lemma ParseDashed(y: string, m: string, dd: string)
    requires |y| >= 1 && AllDigits(y, 10) && '-' !in y
    requires |m| >= 1 && AllDigits(m, 10) && '-' !in m
    requires |dd| >= 1 && AllDigits(dd, 10) && '-' !in dd
    ensures ParseDate(y + "-" + m + "-" + dd) == Some(Date(DigitsValue(y, 10), DigitsValue(m, 10), DigitsValue(dd, 10)))
  {
    var parts := [y, m, dd];
    JoinThree(y, m, dd, '-');
    ParseDateFields(y + "-" + m + "-" + dd, parts);
  }

  /** Reading the rendered date back gives the same date. */
  lemma FormatDateRoundTrip(d: Date)
    requires ValidDate(d)
    ensures ParseDate(FormatDate(d)) == Some(d)
  {
    DecimalField(d.year, 4);
    DecimalField(d.month, 2);
    DecimalField(d.day, 2);
    ParseDashed(ZeroPad(NatDigits(d.year, 10), 4), ZeroPad(NatDigits(d.month, 10), 2), ZeroPad(NatDigits(d.day, 10), 2));
  }

  /** The expiry column: the calendar date of the instant, time of day dropped. */
  function ExpiryText(t: Instant): (r: string)
    ensures ParseDate(r).Some? && ValidDate(ParseDate(r).value)
    ensures Ordinal(ParseDate(r).value) == t / MicrosPerDay
    ensures NumeralText(r)
  {
    var d := DateOf(t / MicrosPerDay);
    FormatDateRoundTrip(d);
    FormatDate(d)
  }
}
