/**
 * The proleptic Gregorian calendar, as far as the business-day counter
 * needs it: validated dates, the next and the previous day, chronological
 * comparison and the day of the week. It stands in for the date type of
 * the `chrono` crate, whose source is not part of this model.
 */
module Gregorian {
  import opened Results

  /** Every fourth year is a leap year, except centuries not divisible by 400. */
  predicate IsLeapYear(year: int)
  {
    year % 4 == 0 && (year % 100 != 0 || year % 400 == 0)
  }

  function DaysInYear(year: int): int
  {
    if IsLeapYear(year) then 366 else 365
  }

  function DaysInMonth(year: int, month: int): (n: int)
    requires 1 <= month <= 12
    ensures 28 <= n <= 31
    ensures n == 28 <==> month == 2 && !IsLeapYear(year)
  {
    if month == 2 then (if IsLeapYear(year) then 29 else 28)
    else if month == 4 || month == 6 || month == 9 || month == 11 then 30
    else 31
  }

  datatype Date = Date(year: int, month: int, day: int)

  predicate Valid(d: Date)
  {
    1 <= d.month <= 12 && 1 <= d.day <= DaysInMonth(d.year, d.month)
  }

  /** `NaiveDate::from_ymd_opt`: the date, when the month and the day exist. */
  function FromYmd(year: int, month: int, day: int): (r: Option<Date>)
    ensures r.Some? <==> 1 <= month <= 12 && 1 <= day <= DaysInMonth(year, month)
    ensures r.Some? ==> r.value == Date(year, month, day) && Valid(r.value)
  {
    if 1 <= month <= 12 && 1 <= day <= DaysInMonth(year, month) then Some(Date(year, month, day))
    else None
  }

  /** `succ_opt`: the following day. */
  function Succ(d: Date): (r: Date)
    requires Valid(d)
    ensures Valid(r)
  {
    if d.day < DaysInMonth(d.year, d.month) then Date(d.year, d.month, d.day + 1)
    else if d.month < 12 then Date(d.year, d.month + 1, 1)
    else Date(d.year + 1, 1, 1)
  }

  /** `pred_opt`: the preceding day. */
  function Pred(d: Date): (r: Date)
    requires Valid(d)
    ensures Valid(r)
  {
    if d.day > 1 then Date(d.year, d.month, d.day - 1)
    else if d.month > 1 then Date(d.year, d.month - 1, DaysInMonth(d.year, d.month - 1))
    else Date(d.year - 1, 12, 31)
  }

  /** The next and the previous day undo each other. */
  lemma SuccPred(d: Date)
    requires Valid(d)
    ensures Pred(Succ(d)) == d && Succ(Pred(d)) == d
  {
  }

  /** Chronological comparison: by year, then month, then day. */
  predicate AtMost(a: Date, b: Date)
  {
    a.year < b.year ||
    (a.year == b.year && (a.month < b.month || (a.month == b.month && a.day <= b.day)))
  }

  /** A day comes strictly before the next one and strictly after the previous one. */
  lemma SuccAfter(d: Date)
    requires Valid(d)
    ensures AtMost(d, Succ(d)) && !AtMost(Succ(d), d)
    ensures AtMost(Pred(d), d) && !AtMost(d, Pred(d))
  {
  }

  // ---------------------------------------------------------------------
  // Counting days

  /** Days from 0001-01-01 to the first of January of `year`. */
  function DaysBeforeYear(year: int): int
  {
    365 * (year - 1) + (year - 1) / 4 - (year - 1) / 100 + (year - 1) / 400
  }

  /**
   * Days of `year` before the first of `month`, from the table of a common
   * year plus the leap day after February; month 13 stands for the year's end.
   */
  function DaysBeforeMonth(year: int, month: int): int
    requires 1 <= month <= 13
  {
    var common :=
      match month
      case 1 => 0
      case 2 => 31
      case 3 => 59
      case 4 => 90
      case 5 => 120
      case 6 => 151
      case 7 => 181
      case 8 => 212
      case 9 => 243
      case 10 => 273
      case 11 => 304
      case 12 => 334
      case _ => 365;
    common + (if month > 2 && IsLeapYear(year) then 1 else 0)
  }

  /** Days from 0001-01-01, a Monday, to `d`. */
  function DayNumber(d: Date): int
    requires Valid(d)
  {
    DaysBeforeYear(d.year) + DaysBeforeMonth(d.year, d.month) + d.day - 1
  }

  /** The table agrees with the month lengths: each month starts where the last one ends. */
  lemma MonthsAccumulate(year: int, month: int)
    requires 1 <= month <= 12
    ensures DaysBeforeMonth(year, month + 1) == DaysBeforeMonth(year, month) + DaysInMonth(year, month)
  {
  }

  /** The twelve months add up to the length of the year. */
  lemma MonthsMakeYear(year: int)
    ensures DaysBeforeMonth(year, 13) == DaysInYear(year)
  {
  }

  lemma FloorStep4(y: int)
    ensures (y + 1) / 4 == y / 4 + (if (y + 1) % 4 == 0 then 1 else 0)
  {
  }

  lemma FloorStep100(y: int)
    ensures (y + 1) / 100 == y / 100 + (if (y + 1) % 100 == 0 then 1 else 0)
  {
  }

  lemma FloorStep400(y: int)
    ensures (y + 1) / 400 == y / 400 + (if (y + 1) % 400 == 0 then 1 else 0)
  {
  }

  lemma DivisorsNest(year: int)
    ensures year % 400 == 0 ==> year % 100 == 0
    ensures year % 100 == 0 ==> year % 4 == 0
  {
  }

  /** Consecutive years start `DaysInYear` days apart. */
  lemma YearsFollow(year: int)
    ensures DaysBeforeYear(year + 1) == DaysBeforeYear(year) + DaysInYear(year)
  {
    FloorStep4(year - 1);
    FloorStep100(year - 1);
    FloorStep400(year - 1);
    DivisorsNest(year);
  }

  /** The day number counts days: the next day is one more, at every month and year end. */
  lemma DayNumberSucc(d: Date)
    requires Valid(d)
    ensures DayNumber(Succ(d)) == DayNumber(d) + 1
  {
    if d.day == DaysInMonth(d.year, d.month) {
      MonthsAccumulate(d.year, d.month);
      if d.month == 12 {
        MonthsMakeYear(d.year);
        YearsFollow(d.year);
      }
    }
  }

  // ---------------------------------------------------------------------
  // Days of the week

  datatype Weekday = Mon | Tue | Wed | Thu | Fri | Sat | Sun

  /** Day number 0 is a Monday, and the week repeats every seven days. */
  function WeekdayOf(d: Date): Weekday
    requires Valid(d)
  {
    WeekdayOfResidue(DayNumber(d) % 7)
  }

  function WeekdayOfResidue(r: int): Weekday
  {
    match r
    case 0 => Mon
    case 1 => Tue
    case 2 => Wed
    case 3 => Thu
    case 4 => Fri
    case 5 => Sat
    case _ => Sun
  }

  function NextWeekday(w: Weekday): Weekday
  {
    match w
    case Mon => Tue
    case Tue => Wed
    case Wed => Thu
    case Thu => Fri
    case Fri => Sat
    case Sat => Sun
    case Sun => Mon
  }

  lemma NextResidue(n: int)
    ensures (n + 1) % 7 == if n % 7 == 6 then 0 else n % 7 + 1
  {
  }

  /** The weekday advances by one from each day to the next. */
  lemma WeekdaySucc(d: Date)
    requires Valid(d)
    ensures WeekdayOf(Succ(d)) == NextWeekday(WeekdayOf(d))
  {
    DayNumberSucc(d);
    NextResidue(DayNumber(d));
  }

  /** Monday to Friday: the days that are neither Saturday nor Sunday. */
  predicate IsBusinessDay(d: Date)
    requires Valid(d)
  {
    WeekdayOf(d) != Sat && WeekdayOf(d) != Sun
  }

  lemma BusinessDayResidue(d: Date)
    requires Valid(d)
    ensures IsBusinessDay(d) <==> DayNumber(d) % 7 < 5
  {
  }

  /** Two dates the source's tests rely on: 2024-11-01 was a Friday, 2024-02-01 a Thursday. */
  lemma WeekdayExamples()
    ensures WeekdayOf(Date(2024, 11, 1)) == Fri
    ensures WeekdayOf(Date(2024, 2, 1)) == Thu
  {
    assert DaysBeforeYear(2024) == 738885;
    assert DaysBeforeMonth(2024, 11) == 305;
  }
}
