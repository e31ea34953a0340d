/**
 * Proleptic Gregorian dates as Python's `datetime.date` has them, the ordinal
 * day number (`date.toordinal()`), month arithmetic as `relativedelta(months=k)`
 * performs it, and the `'%Y-%m-%d'` format read by `strptime` and written by
 * `strftime`.
 */
module Calendar {
  import opened Wrappers
  import opened Text

  datatype Date = Date(year: int, month: int, day: int)

  predicate IsLeapYear(y: int) { y % 4 == 0 && (y % 100 != 0 || y % 400 == 0) }

  function DaysInMonth(y: int, m: int): (n: int)
    requires 1 <= m <= 12
    ensures 28 <= n <= 31
    ensures n == 29 <==> m == 2 && IsLeapYear(y)
  {
    if m == 2 then (if IsLeapYear(y) then 29 else 28)
    else if m == 4 || m == 6 || m == 9 || m == 11 then 30
    else 31
  }

  /** A month that exists and a day that exists in it; the year is not bounded. */
  predicate WellFormed(d: Date) { 1 <= d.month <= 12 && 1 <= d.day <= DaysInMonth(d.year, d.month) }

  /** What `datetime.date` accepts: a well-formed date in years 1 to 9999. */
  predicate ValidDate(d: Date) { 1 <= d.year <= 9999 && WellFormed(d) }

  function DaysBeforeYear(y: int): int
  {
    var p := y - 1;
    365 * p + p / 4 - p / 100 + p / 400
  }

  function DaysBeforeMonth(y: int, m: int): int
  {
    var common :=
      if m == 1 then 0 else if m == 2 then 31 else if m == 3 then 59
      else if m == 4 then 90 else if m == 5 then 120 else if m == 6 then 151
      else if m == 7 then 181 else if m == 8 then 212 else if m == 9 then 243
      else if m == 10 then 273 else if m == 11 then 304 else 334;
    common + (if m > 2 && IsLeapYear(y) then 1 else 0)
  }

  /** `date.toordinal()`: 0001-01-01 is day 1. */
  function DayNumber(d: Date): int
  {
    DaysBeforeYear(d.year) + DaysBeforeMonth(d.year, d.month) + d.day
  }

  /** Whole days from `a` to `b`, as `(b - a).days` for two dates at midnight. */
  function DaysBetween(a: Date, b: Date): int
  {
    DayNumber(b) - DayNumber(a)
  }

  lemma DivUnique(a: int, k: int, q: int, r: int)
    requires k > 0 && 0 <= r < k && a == k * q + r
    ensures a / k == q && a % k == r
  {
    var q', r' := a / k, a % k;
    assert k * (q - q') == r' - r;
    if q - q' >= 1 {
      MulAtLeast(k, q - q');
    } else if q' - q >= 1 {
      MulAtLeast(k, q' - q);
    }
  }

  lemma MulAtLeast(k: int, d: int)
    requires k > 0 && d >= 1
    ensures k * d >= k
  {
    assert k * d == k * (d - 1) + k;
  }

  lemma DivStep(y: int, k: int)
    requires k > 0
    ensures y / k - (y - 1) / k == if y % k == 0 then 1 else 0
  {
    var q, r := (y - 1) / k, (y - 1) % k;
    if r + 1 < k {
      DivUnique(y, k, q, r + 1);
    } else {
      DivUnique(y, k, q + 1, 0);
    }
  }

  lemma YearLength(y: int)
    ensures DaysBeforeYear(y + 1) == DaysBeforeYear(y) + (if IsLeapYear(y) then 366 else 365)
  {
    DivStep(y, 4);
    DivStep(y, 100);
    DivStep(y, 400);
    assert y % 400 == 0 ==> y % 100 == 0 && y % 4 == 0 by {
      if y % 400 == 0 { DivUnique(y, 100, 4 * (y / 400), 0); DivUnique(y, 4, 100 * (y / 400), 0); }
    }
    assert y % 100 == 0 ==> y % 4 == 0 by {
      if y % 100 == 0 { DivUnique(y, 4, 25 * (y / 100), 0); }
    }
  }

  /** The day after `d`. */
  function NextDay(d: Date): (r: Date)
    requires WellFormed(d)
    ensures WellFormed(r)
  {
    if d.day < DaysInMonth(d.year, d.month) then d.(day := d.day + 1)
    else if d.month < 12 then Date(d.year, d.month + 1, 1)
    else Date(d.year + 1, 1, 1)
  }

  lemma NextDayNumber(d: Date)
    requires WellFormed(d)
    ensures DayNumber(NextDay(d)) == DayNumber(d) + 1
  {
    if d.day < DaysInMonth(d.year, d.month) {
    } else if d.month < 12 {
      MonthLength(d.year, d.month);
    } else {
      YearLength(d.year);
    }
  }

  /** `d + timedelta(days=n)`, one day at a time. */
  function AddDays(d: Date, n: nat): (r: Date)
    requires WellFormed(d)
    ensures WellFormed(r) && d.year <= r.year
    decreases n
  {
    if n == 0 then d else AddDays(NextDay(d), n - 1)
  }

  lemma {:induction false} AddDaysNumber(d: Date, n: nat)
    requires WellFormed(d)
    ensures DayNumber(AddDays(d, n)) == DayNumber(d) + n
    decreases n
  {
    if n > 0 {
      var e := NextDay(d);
      assert AddDays(d, n) == AddDays(e, n - 1);
      NextDayNumber(d);
      AddDaysNumber(e, n - 1);
    }
  }

  /** Months since the start of year 0: the month's position on the calendar. */
  function MonthIndex(d: Date): int { 12 * d.year + d.month - 1 }

  function Min(a: int, b: int): int { if a <= b then a else b }

  /**
   * `d + relativedelta(months=k)`: move `k` months (either way), keep the day of
   * the month and clamp it to the last day of the target month. `None` where
   * `datetime` raises because the year leaves 1..9999.
   */
  function AddMonths(d: Date, k: int): (r: Option<Date>)
    requires WellFormed(d)
    ensures r.Some? <==> 1 <= (MonthIndex(d) + k) / 12 <= 9999
    ensures r.Some? ==> ValidDate(r.value) && MonthIndex(r.value) == MonthIndex(d) + k
  {
    var idx := MonthIndex(d) + k;
    var y, m := idx / 12, idx % 12 + 1;
    if 1 <= y <= 9999 then Some(Date(y, m, Min(d.day, DaysInMonth(y, m)))) else None
  }

  /** The day of month is kept when the target month has it, else it becomes the month's last day. */
  lemma AddMonthsDay(d: Date, k: int)
    requires WellFormed(d) && AddMonths(d, k).Some?
    ensures var r := AddMonths(d, k).value;
      && (d.day <= DaysInMonth(r.year, r.month) ==> r.day == d.day)
      && (d.day > DaysInMonth(r.year, r.month) ==> r.day == DaysInMonth(r.year, r.month))
  {
  }

  lemma AddMonthsZero(d: Date)
    requires ValidDate(d)
    ensures AddMonths(d, 0) == Some(d)
  {
    DivUnique(MonthIndex(d), 12, d.year, d.month - 1);
  }

  /** Adding `a` then `b` months is adding `a + b` months when no clamping happens. */
  lemma AddMonthsCompose(d: Date, a: int, b: int)
    requires WellFormed(d) && d.day <= 28
    requires AddMonths(d, a).Some? && AddMonths(d, a + b).Some?
    ensures AddMonths(AddMonths(d, a).value, b) == AddMonths(d, a + b)
  {
  }

  /** The ordinal of the first day of month `m` of year `y`. */
  function MonthStart(y: int, m: int): int
  {
    DaysBeforeYear(y) + DaysBeforeMonth(y, m) + 1
  }

  lemma MonthLength(y: int, m: int)
    requires 1 <= m < 12
    ensures DaysBeforeMonth(y, m + 1) == DaysBeforeMonth(y, m) + DaysInMonth(y, m)
  {
  }

  /** The month after `m` of `y` starts `DaysInMonth(y, m)` days later. */
  lemma NextMonthStart(y: int, m: int)
    requires 1 <= m <= 12
    ensures m < 12 ==> MonthStart(y, m + 1) == MonthStart(y, m) + DaysInMonth(y, m)
    ensures m == 12 ==> MonthStart(y + 1, 1) == MonthStart(y, m) + DaysInMonth(y, m)
  {
    if m < 12 {
      MonthLength(y, m);
    } else {
      YearLength(y);
    }
  }

  /** Month starts grow by at least 28 days per month. */
  lemma {:induction false} MonthStartGrowth(y1: int, m1: int, y2: int, m2: int)
    requires 1 <= m1 <= 12 && 1 <= m2 <= 12 && 12 * y1 + m1 <= 12 * y2 + m2
    ensures MonthStart(y1, m1) + 28 * ((12 * y2 + m2) - (12 * y1 + m1)) <= MonthStart(y2, m2)
    decreases (12 * y2 + m2) - (12 * y1 + m1)
  {
    if 12 * y1 + m1 < 12 * y2 + m2 {
      NextMonthStart(y1, m1);
      if m1 < 12 {
        MonthStartGrowth(y1, m1 + 1, y2, m2);
      } else {
        MonthStartGrowth(y1 + 1, 1, y2, m2);
      }
    }
  }

  /** A date in a later month is later, by at least 28 days per month in between. */
  lemma DayNumberSpread(x: Date, y: Date)
    requires WellFormed(x) && WellFormed(y) && MonthIndex(x) < MonthIndex(y)
    ensures DayNumber(x) + 28 * (MonthIndex(y) - MonthIndex(x) - 1) < DayNumber(y)
  {
    NextMonthStart(x.year, x.month);
    if x.month < 12 {
      MonthStartGrowth(x.year, x.month + 1, y.year, y.month);
    } else {
      MonthStartGrowth(x.year + 1, 1, y.year, y.month);
    }
  }

  /**
   * Adding more months never gives an earlier date, and adding strictly more
   * months gives a strictly later one.
   */
  lemma AddMonthsMonotone(d: Date, a: int, b: int)
    requires WellFormed(d) && a <= b
    requires AddMonths(d, a).Some? && AddMonths(d, b).Some?
    ensures DayNumber(AddMonths(d, a).value) <= DayNumber(AddMonths(d, b).value)
    ensures a < b ==> DayNumber(AddMonths(d, a).value) < DayNumber(AddMonths(d, b).value)
  {
    var ra, rb := AddMonths(d, a).value, AddMonths(d, b).value;
    if a < b {
      DayNumberSpread(ra, rb);
    }
  }

  /** A review `k > 0` months after `d` falls strictly after `d`, at least 28 days per month later. */
  lemma AddMonthsLater(d: Date, k: int)
    requires ValidDate(d) && k > 0 && AddMonths(d, k).Some?
    ensures DayNumber(d) < DayNumber(AddMonths(d, k).value)
    ensures DayNumber(d) + 28 * (k - 1) < DayNumber(AddMonths(d, k).value)
  {
    DayNumberSpread(d, AddMonths(d, k).value);
  }

  // ----- '%Y-%m-%d' -----

  /** Two digits, zero padded (`%m`, `%d`). */
  function Pad2(n: nat): (s: string)
    requires n < 100
    ensures |s| == 2 && AllDigits(s)
  {
    [DigitChar(n / 10), DigitChar(n % 10)]
  }

  /** `%Y`: four digits, zero padded, for years below 10000. */
  function Pad4(n: nat): (s: string)
    requires n < 10000
    ensures |s| == 4 && AllDigits(s)
  {
    [DigitChar(n / 1000), DigitChar(n / 100 % 10), DigitChar(n / 10 % 10), DigitChar(n % 10)]
  }

  lemma Pad2Value(n: nat)
    requires n < 100
    ensures DigitsValue(Pad2(n)) == n
  {
    var a, b := DigitChar(n / 10), DigitChar(n % 10);
    DigitsValueSnoc([], a);
    DigitsValueSnoc([a], b);
    assert [] + [a] == [a] && [a] + [b] == Pad2(n);
  }

  lemma Pad4Value(n: nat)
    requires n < 10000
    ensures DigitsValue(Pad4(n)) == n
  {
    var q1 := n / 10;
    var q2 := q1 / 10;
    var q3 := q2 / 10;
    DivUnique(n, 100, q2, 10 * (q1 % 10) + n % 10);
    DivUnique(n, 1000, q3, 100 * (q2 % 10) + 10 * (q1 % 10) + n % 10);
    var a, b, c, e := DigitChar(n / 1000), DigitChar(n / 100 % 10), DigitChar(n / 10 % 10), DigitChar(n % 10);
    DigitsValueSnoc([], a);
    DigitsValueSnoc([a], b);
    DigitsValueSnoc([a, b], c);
    DigitsValueSnoc([a, b, c], e);
    assert [] + [a] == [a] && [a] + [b] == [a, b] && [a, b] + [c] == [a, b, c] && [a, b, c] + [e] == Pad4(n);
  }

  /** `date.strftime('%Y-%m-%d')`. */
  function FormatDate(d: Date): (s: string)
    requires ValidDate(d)
    ensures |s| == 10
  {
    Pad4(d.year) + "-" + Pad2(d.month) + "-" + Pad2(d.day)
  }

  /** Length of the `%m` token at `i`, ASCII digits only: the regex `1[0-2]|0[1-9]|[1-9]`, 0 if none matches. */
  function MonthToken(s: string, i: nat): (n: nat)
    ensures n <= 2 && (n > 0 ==> i + n <= |s| && AllDigits(s[i..i + n]))
  {
    if i + 1 < |s| && s[i] == '1' && '0' <= s[i + 1] <= '2' then 2
    else if i + 1 < |s| && s[i] == '0' && '1' <= s[i + 1] <= '9' then 2
    else if i < |s| && '1' <= s[i] <= '9' then 1
    else 0
  }

  /** Length of the `%d` token at `i`, ASCII digits only: the regex `3[01]|[12]\d|0[1-9]|[1-9]| [1-9]`, 0 if none matches. */
  function DayToken(s: string, i: nat): (n: nat)
    ensures n <= 2 && (n > 0 ==> i + n <= |s|)
  {
    if i + 1 < |s| && s[i] == '3' && (s[i + 1] == '0' || s[i + 1] == '1') then 2
    else if i + 1 < |s| && (s[i] == '1' || s[i] == '2') && IsDigit(s[i + 1]) then 2
    else if i + 1 < |s| && s[i] == '0' && '1' <= s[i + 1] <= '9' then 2
    else if i < |s| && '1' <= s[i] <= '9' then 1
    else if i + 1 < |s| && s[i] == ' ' && '1' <= s[i + 1] <= '9' then 2
    else 0
  }

  /** The value of a day token; the space-padded form ` 7` is day 7. */
  function DayTokenValue(t: string): (v: nat)
    requires 1 <= |t| <= 2
  {
    if |t| == 2 && t[0] == ' ' && IsDigit(t[1]) then DigitValue(t[1])
    else if AllDigits(t) then DigitsValue(t)
    else 0
  }

  /**
   * `datetime.strptime(s, '%Y-%m-%d')` with `\d` read as an ASCII digit: the
   * first alternative of each field's regex that matches is taken, nothing may
   * follow the day, and the date must exist. `None` where Python raises
   * `ValueError`, and also for dates written in non-ASCII digits, which Python reads.
   */
  function ParseDate(s: string): (r: Option<Date>)
    ensures r.Some? ==> ValidDate(r.value)
  {
    if |s| < 8 || !AllDigits(s[..4]) || s[4] != '-' then None
    else
      var ml := MonthToken(s, 5);
      if ml == 0 || 5 + ml >= |s| || s[5 + ml] != '-' then None
      else
        var ds := 6 + ml;
        var dl := DayToken(s, ds);
        if dl == 0 || ds + dl != |s| then None
        else
          var d := Date(DigitsValue(s[..4]), DigitsValue(s[5..5 + ml]), DayTokenValue(s[ds..]));
          if ValidDate(d) then Some(d) else None
  }

  /** A zero-padded month is read back as one two-character `%m` token. */
  lemma MonthTokenOfPad(s: string, m: nat)
    requires 1 <= m <= 12 && |s| >= 7 && s[5..7] == Pad2(m)
    ensures MonthToken(s, 5) == 2
  {
    assert s[5] == DigitChar(m / 10) && s[6] == DigitChar(m % 10);
  }

  /** A zero-padded day is read back as one two-character `%d` token. */
  lemma DayTokenOfPad(s: string, d: nat)
    requires 1 <= d <= 31 && |s| == 10 && s[8..] == Pad2(d)
    ensures DayToken(s, 8) == 2 && DayTokenValue(s[8..]) == d
  {
    assert s[8] == DigitChar(d / 10) && s[9] == DigitChar(d % 10);
    Pad2Value(d);
  }

  /** Every date `strftime` writes is read back by `strptime` as the same date. */
  lemma ParseFormatDate(d: Date)
    requires ValidDate(d)
    ensures ParseDate(FormatDate(d)) == Some(d)
  {
    var s := FormatDate(d);
    assert s[..4] == Pad4(d.year);
    assert s[4] == '-' && s[7] == '-';
    assert s[5..7] == Pad2(d.month);
    assert s[8..] == Pad2(d.day);
    Pad4Value(d.year);
    Pad2Value(d.month);
    MonthTokenOfPad(s, d.month);
    DayTokenOfPad(s, d.day);
  }

  /** The dates of the half-year example: 2025-01-01 plus six months, seen from 2025-06-01. */
  lemma HalfYearDates()
    ensures ParseDate("2025-01-01") == Some(Date(2025, 1, 1))
    ensures AddMonths(Date(2025, 1, 1), 6) == Some(Date(2025, 7, 1))
    ensures FormatDate(Date(2025, 7, 1)) == "2025-07-01"
    ensures DaysBetween(Date(2025, 6, 1), Date(2025, 7, 1)) == 30
  {
    ParseFormatDate(Date(2025, 1, 1));
    assert FormatDate(Date(2025, 1, 1)) == "2025-01-01";
    DivUnique(12 * 2025 + 6, 12, 2025, 6);
  }
}
