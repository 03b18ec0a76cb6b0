/** Civil dates as Python's `datetime.date` has them: years 1 to 9999 of
    the proleptic Gregorian calendar, a day ordinal with 0001-01-01 as
    day 1 (`date.toordinal`), subtraction of whole days, and the two
    `strftime` layouts the scrapers use. */
module Dates {
  import opened Wrappers
  import opened Text
  import opened Numerals

  const MinYear := 1
  const MaxYear := 9999

  datatype Date = Date(year: int, month: int, day: int)

  predicate IsLeap(y: int) {
    y % 4 == 0 && (y % 100 != 0 || y % 400 == 0)
  }

  function DaysInYear(y: int): nat {
    if IsLeap(y) then 366 else 365
  }

  function DaysInMonth(y: int, m: int): int
    requires 1 <= m <= 12
  {
    if m == 2 then (if IsLeap(y) then 29 else 28)
    else if m == 4 || m == 6 || m == 9 || m == 11 then 30
    else 31
  }

  /** Days in the months of year `y` before month `m`. */
  function DaysBeforeMonth(y: int, m: int): nat
    requires 1 <= m <= 12
  {
    [0, 31, 59, 90, 120, 151, 181, 212, 243, 273, 304, 334][m - 1]
      + (if m > 2 && IsLeap(y) then 1 else 0)
  }

  /** Days in the years before year `y`, counted from year 1. */
  function DaysBeforeYear(y: int): nat
    requires y >= MinYear
    decreases y
  {
    if y == MinYear then 0 else DaysBeforeYear(y - 1) + DaysInYear(y - 1)
  }

  /** The closed form Python's `datetime` module computes the same count
      with: 365 days a year plus the leap days of the earlier years. */
  lemma {:induction false} DaysBeforeYearClosedForm(y: int)
    requires y >= MinYear
    ensures var p := y - 1; DaysBeforeYear(y) == p * 365 + p / 4 - p / 100 + p / 400
  {
    if y > MinYear {
      DaysBeforeYearClosedForm(y - 1);
      var p := y - 1;
      Quotient4Step(p);
      Quotient100Step(p);
      Quotient400Step(p);
    }
  }

  /** Each step of the year count adds one to `p / k` exactly when `k`
      divides `p`. */
  lemma Quotient4Step(p: int)
    requires p >= 1
    ensures p / 4 == (p - 1) / 4 + (if p % 4 == 0 then 1 else 0)
  {
  }

  lemma Quotient100Step(p: int)
    requires p >= 1
    ensures p / 100 == (p - 1) / 100 + (if p % 100 == 0 then 1 else 0)
    ensures p % 100 == 0 ==> p % 4 == 0
  {
  }

  lemma Quotient400Step(p: int)
    requires p >= 1
    ensures p / 400 == (p - 1) / 400 + (if p % 400 == 0 then 1 else 0)
    ensures p % 400 == 0 ==> p % 100 == 0
  {
  }

  predicate Valid(d: Date) {
    && MinYear <= d.year <= MaxYear
    && 1 <= d.month <= 12
    && 1 <= d.day <= DaysInMonth(d.year, d.month)
  }

  /** `d.toordinal()`. */
  function Ordinal(d: Date): (n: nat)
    requires Valid(d)
    ensures n >= 1
  {
    DaysBeforeYear(d.year) + DaysBeforeMonth(d.year, d.month) + d.day
  }

  lemma MonthStep(y: int, m: int)
    requires 2 <= m <= 12
    ensures DaysBeforeMonth(y, m) == DaysBeforeMonth(y, m - 1) + DaysInMonth(y, m - 1)
  {
  }

  lemma YearEnd(y: int)
    ensures DaysBeforeMonth(y, 12) + DaysInMonth(y, 12) == DaysInYear(y)
  {
  }

  /** The day before `d`; 0001-01-01 has none. */
  function PrevDay(d: Date): (r: Date)
    requires Valid(d) && Ordinal(d) > 1
    ensures Valid(r) && Ordinal(r) == Ordinal(d) - 1
  {
    if d.day > 1 then
      Date(d.year, d.month, d.day - 1)
    else if d.month > 1 then
      MonthStep(d.year, d.month);
      Date(d.year, d.month - 1, DaysInMonth(d.year, d.month - 1))
    else
      YearEnd(d.year - 1);
      Date(d.year - 1, 12, 31)
  }

  /** `d - timedelta(days=n)` when the result is still a date (its ordinal
      is at least 1). */
  function MinusDays(d: Date, n: nat): (r: Date)
    requires Valid(d) && n < Ordinal(d)
    ensures Valid(r) && Ordinal(r) == Ordinal(d) - n
    decreases n
  {
    if n == 0 then d else MinusDays(PrevDay(d), n - 1)
  }

  /** Every valid date of year `y` lies in the ordinal range of that year. */
  lemma OrdinalWithinYear(d: Date)
    requires Valid(d)
    ensures DaysBeforeYear(d.year) < Ordinal(d) <= DaysBeforeYear(d.year) + DaysInYear(d.year)
  {
    var y, m := d.year, d.month;
    if m < 12 {
      MonthsIncrease(y, m, 12);
    }
    YearEnd(y);
  }

  lemma {:induction false} MonthsIncrease(y: int, m1: int, m2: int)
    requires 1 <= m1 < m2 <= 12
    ensures DaysBeforeMonth(y, m1) + DaysInMonth(y, m1) <= DaysBeforeMonth(y, m2)
  {
    MonthStep(y, m2);
    if m1 < m2 - 1 {
      MonthsIncrease(y, m1, m2 - 1);
    }
  }

  lemma {:induction false} YearsIncrease(y1: int, y2: int)
    requires MinYear <= y1 < y2
    ensures DaysBeforeYear(y1) + DaysInYear(y1) <= DaysBeforeYear(y2)
  {
    if y1 < y2 - 1 {
      YearsIncrease(y1, y2 - 1);
    }
  }

  /** The ordinal names one date: two valid dates with the same ordinal are
      the same date, so `MinusDays` returns the one date `fromordinal`
      would give. */
  lemma OrdinalInjective(a: Date, b: Date)
    requires Valid(a) && Valid(b) && Ordinal(a) == Ordinal(b)
    ensures a == b
  {
    OrdinalWithinYear(a);
    OrdinalWithinYear(b);
    if a.year < b.year {
      YearsIncrease(a.year, b.year);
    } else if b.year < a.year {
      YearsIncrease(b.year, a.year);
    }
    if a.month < b.month {
      MonthsIncrease(a.year, a.month, b.month);
    } else if b.month < a.month {
      MonthsIncrease(a.year, b.month, a.month);
    }
  }

  lemma Pow10Values()
    ensures Pow10(2) == 100 && Pow10(4) == 10000
  {
    assert Pow10(1) == 10;
    assert Pow10(3) == 1000;
  }

  /** `d.strftime('%Y-%m-%d')`. */
  function IsoFormat(d: Date): (s: string)
    requires Valid(d)
    ensures |s| == 10
  {
    Pow10Values();
    Fixed(d.year, 4) + "-" + Fixed(d.month, 2) + "-" + Fixed(d.day, 2)
  }

  /** `d.strftime('%d/%m/%Y')`. */
  function DayFirstFormat(d: Date): (s: string)
    requires Valid(d)
    ensures |s| == 10
  {
    Pow10Values();
    Fixed(d.day, 2) + "/" + Fixed(d.month, 2) + "/" + Fixed(d.year, 4)
  }

  /** Reads a `YYYY-MM-DD` string back; the inverse of `IsoFormat`. */
  function ParseIso(s: string): Option<Date> {
    if |s| == 10 && s[4] == '-' && s[7] == '-'
       && AllDigits(s[..4]) && AllDigits(s[5..7]) && AllDigits(s[8..])
    then Some(Date(Value(s[..4]), Value(s[5..7]), Value(s[8..])))
    else None
  }

  /** Reads a `DD/MM/YYYY` string back; the inverse of `DayFirstFormat`. */
  function ParseDayFirst(s: string): Option<Date> {
    if |s| == 10 && s[2] == '/' && s[5] == '/'
       && AllDigits(s[..2]) && AllDigits(s[3..5]) && AllDigits(s[6..])
    then Some(Date(Value(s[6..]), Value(s[3..5]), Value(s[..2])))
    else None
  }

  lemma IsoRoundTrip(d: Date)
    requires Valid(d)
    ensures ParseIso(IsoFormat(d)) == Some(d)
  {
    Pow10Values();
    var y, m, dd := Fixed(d.year, 4), Fixed(d.month, 2), Fixed(d.day, 2);
    var s := IsoFormat(d);
    assert s[..4] == y && s[5..7] == m && s[8..] == dd;
    FixedRoundTrip(d.year, 4);
    FixedRoundTrip(d.month, 2);
    FixedRoundTrip(d.day, 2);
  }

  lemma DayFirstRoundTrip(d: Date)
    requires Valid(d)
    ensures ParseDayFirst(DayFirstFormat(d)) == Some(d)
  {
    Pow10Values();
    var y, m, dd := Fixed(d.year, 4), Fixed(d.month, 2), Fixed(d.day, 2);
    var s := DayFirstFormat(d);
    assert s[..2] == dd && s[3..5] == m && s[6..] == y;
    FixedRoundTrip(d.year, 4);
    FixedRoundTrip(d.month, 2);
    FixedRoundTrip(d.day, 2);
  }
}
