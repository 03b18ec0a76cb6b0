/** `calculate_post_date` of both scrapers: a relative age such as "3d",
    "5h" or "12 days ago" plus today's date give the absolute date of the
    post. The date is passed in instead of read from the clock. */
module PostDates {
  import opened Wrappers
  import opened Text
  import opened Numerals
  import opened Dates

  /** The `strftime` layout: `'%Y-%m-%d'` in seekMysql.py, `'%d/%m/%Y'`
      in seekscraping.py. */
  datatype DateStyle = Iso | DayFirst

  /** `today - timedelta(days=n)` raises `OverflowError` when the result
      would fall before 0001-01-01. */
  datatype DateError = DateOutOfRange

  const Missing := "N/A"

  /** `'h' in posting_age.lower()`. */
  predicate HasHourMarker(age: string) {
    'h' in Lower(age)
  }

  /** The day count `int(number)` reads; meaningful when `age` has a digit. */
  function DaysAgo(age: string): nat {
    Value(DigitChars(age))
  }

  /** The cases in which the source returns today's date unchanged. */
  predicate IsTodayCase(age: string) {
    age == Missing || DigitChars(age) == "" || HasHourMarker(age)
  }

  /** The date `calculate_post_date` formats, or the error it raises. */
  function PostDate(age: string, today: Date): (r: Result<Date, DateError>)
    requires Valid(today)
    ensures r.Success? ==> Valid(r.value) && Ordinal(r.value) <= Ordinal(today)
    ensures IsTodayCase(age) ==> r == Success(today)
    ensures !IsTodayCase(age) ==>
      && (r.Success? <==> DaysAgo(age) < Ordinal(today))
      && (r.Success? ==> Ordinal(r.value) == Ordinal(today) - DaysAgo(age))
  {
    if age == Missing then Success(today)
    else
      var number := DigitChars(age);
      if number != "" then
        if HasHourMarker(age) then Success(today)
        else
          var daysAgo := Value(number);
          if daysAgo < Ordinal(today) then Success(MinusDays(today, daysAgo))
          else Failure(DateOutOfRange)
      else Success(today)
  }

  function Format(d: Date, style: DateStyle): string
    requires Valid(d)
  {
    match style
    case Iso => IsoFormat(d)
    case DayFirst => DayFirstFormat(d)
  }

  /** `calculate_post_date(posting_age)` with `today` as a parameter. */
  function CalculatePostDate(age: string, today: Date, style: DateStyle): (r: Result<string, DateError>)
    requires Valid(today)
    ensures IsTodayCase(age) ==> r == Success(Format(today, style))
    ensures r.Failure? <==> !IsTodayCase(age) && DaysAgo(age) >= Ordinal(today)
  {
    match PostDate(age, today)
    case Success(d) => Success(Format(d, style))
    case Failure(e) => Failure(e)
  }

  /** What the formatted string says: it reads back, in its own layout, as
      today when the age is missing, digit-free or in hours, and otherwise
      as the date whose ordinal is `DaysAgo(age)` below today's. */
  lemma CalculatePostDateMeaning(age: string, today: Date, style: DateStyle)
    requires Valid(today)
    ensures var r := CalculatePostDate(age, today, style);
      var parse := if style == Iso then ParseIso else ParseDayFirst;
      && (r.Failure? <==> !IsTodayCase(age) && DaysAgo(age) >= Ordinal(today))
      && (r.Success? ==>
            && parse(r.value).Some?
            && Valid(parse(r.value).value)
            && Ordinal(parse(r.value).value)
               == Ordinal(today) - (if IsTodayCase(age) then 0 else DaysAgo(age)))
  {
    var p := PostDate(age, today);
    if p.Success? {
      if style == Iso {
        IsoRoundTrip(p.value);
      } else {
        DayFirstRoundTrip(p.value);
      }
    }
  }

  /** Any 'h' or 'H' anywhere in the age makes it an hour count. */
  lemma HourMarkerEitherCase(age: string)
    ensures HasHourMarker(age) <==> ('h' in age || 'H' in age)
  {
    InLowerIffEitherCase(age, 'h');
  }

  /** `"N/A"` has no digit, so the sentinel and the digit-free case agree. */
  lemma MissingIsToday(today: Date)
    requires Valid(today)
    ensures PostDate(Missing, today) == Success(today)
  {
  }

  lemma ThreeDays(today: Date)
    requires Valid(today) && Ordinal(today) > 3
    ensures PostDate("3d", today).Success?
    ensures Ordinal(PostDate("3d", today).value) == Ordinal(today) - 3
  {
    assert DigitChars("3d") == "3" by {
      assert "3d"[..1] == "3";
      assert "3"[..0] == "";
    }
    assert !HasHourMarker("3d") by {
      HourMarkerEitherCase("3d");
    }
    assert Value("3") == 3 by {
      assert "3"[..0] == "";
    }
  }

  lemma FiveHours(today: Date)
    requires Valid(today)
    ensures PostDate("5h", today) == Success(today)
  {
    assert "5h"[1] == 'h';
    HourMarkerEitherCase("5h");
  }

  lemma EmptyAge(today: Date)
    requires Valid(today)
    ensures PostDate("", today) == Success(today)
  {
  }

  /** All digits count, wherever they stand: "12 days ago" is 12 days. */
  lemma TwelveDaysAgo(today: Date)
    requires Valid(today) && Ordinal(today) > 12
    ensures PostDate("12 days ago", today).Success?
    ensures Ordinal(PostDate("12 days ago", today).value) == Ordinal(today) - 12
  {
    var age := "12 days ago";
    assert DaysAgo(age) == 12 by {
      TwelveDigits();
    }
    assert !HasHourMarker(age) by {
      HourMarkerEitherCase(age);
      NoHourLetter();
    }
  }

  lemma NoHourLetter()
    ensures 'h' !in "12 days ago" && 'H' !in "12 days ago"
  {
    var age := "12 days ago";
    assert forall i :: 0 <= i < |age| ==> age[i] != 'h' && age[i] != 'H';
  }

  lemma TwelveDigits()
    ensures DigitChars("12 days ago") == "12"
    ensures Value("12") == 12
  {
    SplitTwelve();
    DigitsOfTwelve();
    NoDigitsInDaysAgo();
    ValueOfTwelve();
  }

  lemma SplitTwelve()
    ensures DigitChars("12 days ago") == DigitChars("12") + DigitChars(" days ago")
  {
    DigitCharsConcat("12", " days ago");
    assert "12 days ago" == "12" + " days ago";
  }

  lemma DigitsOfTwelve()
    ensures DigitChars("12") == "12"
  {
    assert "12"[..1] == "1";
    assert "1"[..0] == "";
  }

  lemma NoDigitsInDaysAgo()
    ensures DigitChars(" days ago") == ""
  {
    DigitCharsEmpty(" days ago");
  }

  lemma ValueOfTwelve()
    ensures Value("12") == 12
  {
    assert "12"[..1] == "1";
    assert "1"[..0] == "";
  }

  /** Digits are collected from the whole string, not only a leading run:
      "1 of 2 days" counts as 12 days. */
  lemma DigitsAnywhere(a: string, b: string, today: Date)
    requires Valid(today)
    requires DigitChars(a) != "" && !HasHourMarker(a + b)
    ensures DaysAgo(a + b) == Value(DigitChars(a) + DigitChars(b))
    ensures !IsTodayCase(a + b)
  {
    DigitCharsConcat(a, b);
  }
}
