/**
 The billing-period window of the traffic query: "now" moved back one hour
 (the provider publishes traffic only for finished hours), printed with Go's
 layout "2006-01" as the period `P`. The query then asks for `P-01` to `P-31`.
 */
module Period {
  import opened Decimal

  /** A local wall-clock reading to the hour: all that `time.Now()` contributes here. */
  datatype Clock = Clock(year: int, month: int, day: int, hour: int)

  /** Proleptic Gregorian leap years, as Go's time package counts them. */
  predicate IsLeapYear(y: int) {
    y % 4 == 0 && (y % 100 != 0 || y % 400 == 0)
  }

  function DaysIn(year: int, month: int): (d: int)
    requires 1 <= month <= 12
    ensures 28 <= d <= 31
    ensures d == 31 <==> month in {1, 3, 5, 7, 8, 10, 12}
    ensures d == 29 <==> month == 2 && IsLeapYear(year)
  {
    if month == 2 then (if IsLeapYear(year) then 29 else 28)
    else if month == 4 || month == 6 || month == 9 || month == 11 then 30
    else 31
  }

  predicate Valid(t: Clock) {
    1 <= t.month <= 12 && 1 <= t.day <= DaysIn(t.year, t.month) && 0 <= t.hour < 24
  }

  /** The wall-clock reading one hour earlier: `stich.Add(time.Hour * -1)`. */
  function HourBefore(t: Clock): (r: Clock)
    requires Valid(t)
    ensures Valid(r)
    ensures r.year == t.year || (r.year == t.year - 1 && t.month == 1 && r.month == 12)
  {
    if t.hour > 0 then t.(hour := t.hour - 1)
    else if t.day > 1 then t.(day := t.day - 1, hour := 23)
    else if t.month > 1 then Clock(t.year, t.month - 1, DaysIn(t.year, t.month - 1), 23)
    else Clock(t.year - 1, 12, 31, 23)
  }

  /** The wall-clock reading one hour later: the reference that HourBefore undoes. */
  function HourAfter(t: Clock): (r: Clock)
    requires Valid(t)
    ensures Valid(r)
  {
    if t.hour < 23 then t.(hour := t.hour + 1)
    else if t.day < DaysIn(t.year, t.month) then t.(day := t.day + 1, hour := 0)
    else if t.month < 12 then Clock(t.year, t.month + 1, 1, 0)
    else Clock(t.year + 1, 1, 1, 0)
  }

  lemma HourBeforeThenAfter(t: Clock)
    requires Valid(t)
    ensures HourAfter(HourBefore(t)) == t
  {
  }

  lemma HourAfterThenBefore(t: Clock)
    requires Valid(t)
    ensures HourBefore(HourAfter(t)) == t
  {
  }

  /** Go's layout "2006-01": the year padded to four digits (a minus sign first when negative), a dash, the month in two digits. */
  function YearMonth(year: int, month: int): (s: string)
    requires 1 <= month <= 12
    ensures |s| >= 7
  {
    (if year < 0 then "-" else "") + PaddedDigits(if year < 0 then -year else year, 4) + "-" + PaddedDigits(month, 2)
  }

  /** For years 0 through 9999 the period is exactly `YYYY-MM`, and both fields read back as the numbers printed. */
  lemma YearMonthFields(year: int, month: int)
    requires 0 <= year < 10000 && 1 <= month <= 12
    ensures var s := YearMonth(year, month);
      |s| == 7 && s[4] == '-' && AllDigits(s[..4]) && AllDigits(s[5..])
      && Value(s[..4]) == year && Value(s[5..]) == month
  {
    assert Pow10(4) == 10000;
    PaddedDigitsWidth(year, 4);
    PaddedDigitsWidth(month, 2);
    var s := YearMonth(year, month);
    assert s[..4] == PaddedDigits(year, 4);
    assert s[5..] == PaddedDigits(month, 2);
  }

  lemma YearMonthInjective(y1: int, m1: int, y2: int, m2: int)
    requires 0 <= y1 < 10000 && 1 <= m1 <= 12
    requires 0 <= y2 < 10000 && 1 <= m2 <= 12
    requires YearMonth(y1, m1) == YearMonth(y2, m2)
    ensures y1 == y2 && m1 == m2
  {
    YearMonthFields(y1, m1);
    YearMonthFields(y2, m2);
  }

  /** The period `P` of the traffic query: the year and month of one hour before now. */
  function BillingPeriod(now: Clock): (p: string)
    requires Valid(now)
  {
    var earlier := HourBefore(now);
    YearMonth(earlier.year, earlier.month)
  }

  /** `P` is the current month except in hour 0 of day 1, where it is the previous month (December of the previous year in January). */
  lemma BillingPeriodMonth(now: Clock)
    requires Valid(now)
    ensures BillingPeriod(now) ==
      if now.day == 1 && now.hour == 0 then
        (if now.month == 1 then YearMonth(now.year - 1, 12) else YearMonth(now.year, now.month - 1))
      else YearMonth(now.year, now.month)
  {
  }

  /**
   A bound of the query window: the period, a dash and a day. The window runs
   from day `01` to the literal day `31`, whatever the month's length.
   */
  function Window(period: string, day: string): (s: string)
    ensures |s| == |period| + 1 + |day|
    ensures s[..|period|] == period && s[|period|] == '-' && s[|period| + 1..] == day
  {
    period + "-" + day
  }
}
