/**
 The proleptic Gregorian calendar the cron engine walks.

 A civil label is one integer: seconds since midnight of the day before
 0001-01-01, so a label's day is the ordinal Python's `datetime.date` gives it.
 */
module Calendar {

  const DAY := 86400

  datatype Date = Date(year: int, month: int, day: int)

  predicate Leap(year: int) {
    year % 4 == 0 && (year % 100 != 0 || year % 400 == 0)
  }

  /** The last day of a month. */
  function MonthEnd(year: int, month: int): (end: int)
    requires 1 <= month <= 12
    ensures 28 <= end <= 31
  {
    if month == 2 then (if Leap(year) then 29 else 28)
    else if month == 4 || month == 6 || month == 9 || month == 11 then 30
    else 31
  }

  predicate ValidDate(d: Date) {
    1 <= d.month <= 12 && 1 <= d.day <= MonthEnd(d.year, d.month)
  }

  function DaysBeforeMonth(year: int, month: int): (days: int)
    requires 1 <= month <= 13
    ensures 28 * (month - 1) <= days <= 31 * (month - 1)
  {
    if month == 1 then 0 else DaysBeforeMonth(year, month - 1) + MonthEnd(year, month - 1)
  }

  /** Days before 1 January of a year, counted from year 1. */
  function DaysBeforeYear(year: int): int
    decreases if year >= 1 then year else 2 - year
  {
    if year == 1 then 0
    else if year > 1 then DaysBeforeYear(year - 1) + DaysBeforeMonth(year - 1, 13)
    else DaysBeforeYear(year + 1) - DaysBeforeMonth(year, 13)
  }

  /** Day number of the first of a month; month 13 is the next January. */
  function MonthStart(year: int, month: int): int
    requires 1 <= month <= 13
  {
    DaysBeforeYear(year) + DaysBeforeMonth(year, month) + 1
  }

  function Ordinal(d: Date): int
    requires ValidDate(d)
  {
    MonthStart(d.year, d.month) + d.day - 1
  }

  /** Cron weekday of a day number: Sunday is 0. */
  function Weekday(day: int): (dow: int)
    ensures 0 <= dow < 7
  {
    day % 7
  }

  // ----- the layout of years and months -----

  lemma MonthStep(year: int, month: int)
    requires 1 <= month <= 12
    ensures MonthStart(year, month + 1) == MonthStart(year, month) + MonthEnd(year, month)
  {}

  lemma YearStep(year: int)
    ensures MonthStart(year, 13) == MonthStart(year + 1, 1)
  {
    assert DaysBeforeYear(year + 1) == DaysBeforeYear(year) + DaysBeforeMonth(year, 13);
  }

  lemma {:induction false} YearsAscend(a: int, b: int)
    requires a <= b
    ensures DaysBeforeYear(a) + 336 * (b - a) <= DaysBeforeYear(b)
    decreases b - a
  {
    if a < b {
      YearsAscend(a, b - 1);
      YearStep(b - 1);
    }
  }

  lemma {:induction false} MonthsAscend(year: int, a: int, b: int)
    requires 1 <= a <= b <= 13
    ensures MonthStart(year, a) + 28 * (b - a) <= MonthStart(year, b)
    decreases b - a
  {
    if a < b {
      MonthsAscend(year, a, b - 1);
      MonthStep(year, b - 1);
    }
  }

  lemma FirstOfYear(year: int)
    ensures MonthStart(year, 1) == DaysBeforeYear(year) + 1
  {}

  /** Later dates have larger day numbers. */
  lemma OrdinalAscends(a: Date, b: Date)
    requires ValidDate(a) && ValidDate(b)
    requires a.year < b.year || (a.year == b.year && (a.month < b.month || (a.month == b.month && a.day < b.day)))
    ensures Ordinal(a) < Ordinal(b)
  {
    hide MonthStart;
    hide MonthEnd;
    MonthStep(a.year, a.month);
    if a.year < b.year {
      FirstOfYear(a.year + 1);
      FirstOfYear(b.year);
      MonthsAscend(a.year, a.month + 1, 13);
      YearStep(a.year);
      YearsAscend(a.year + 1, b.year);
      MonthsAscend(b.year, 1, b.month);
    } else if a.month < b.month {
      MonthsAscend(a.year, a.month + 1, b.month);
    }
  }

  // ----- reading a day number back -----

  function YearUp(day: int, guess: int): (year: int)
    requires DaysBeforeYear(guess) < day
    ensures DaysBeforeYear(year) < day <= DaysBeforeYear(year + 1)
    decreases day - DaysBeforeYear(guess)
  {
    YearsAscend(guess, guess + 1);
    if day <= DaysBeforeYear(guess + 1) then guess else YearUp(day, guess + 1)
  }

  function YearOf(day: int): (year: int)
    ensures MonthStart(year, 1) <= day < MonthStart(year, 13)
  {
    var low := if day >= 1 then 1 else day;
    YearsAscend(low, 1);
    var year := YearUp(day, low);
    YearStep(year);
    year
  }

  function MonthFrom(year: int, day: int, guess: int): (month: int)
    requires 1 <= guess <= 12
    requires MonthStart(year, guess) <= day < MonthStart(year, 13)
    ensures 1 <= month <= 12
    ensures MonthStart(year, month) <= day < MonthStart(year, month + 1)
    decreases 12 - guess
  {
    if day < MonthStart(year, guess + 1) then guess else MonthFrom(year, day, guess + 1)
  }

  function DateOf(day: int): (d: Date)
    ensures ValidDate(d) && Ordinal(d) == day
  {
    var year := YearOf(day);
    var month := MonthFrom(year, day, 1);
    MonthStep(year, month);
    Date(year, month, day - MonthStart(year, month) + 1)
  }

  /** `DateOf` is the only reading of a day number. */
  lemma DateOfOrdinal(d: Date)
    requires ValidDate(d)
    ensures DateOf(Ordinal(d)) == d
  {
    var e := DateOf(Ordinal(d));
    if e != d {
      if e.year < d.year || (e.year == d.year && (e.month < d.month || (e.month == d.month && e.day < d.day))) {
        OrdinalAscends(e, d);
      } else {
        OrdinalAscends(d, e);
      }
    }
  }

  /** The days of one month read back with that month. */
  lemma DateInMonth(year: int, month: int, day: int)
    requires 1 <= month <= 12
    requires MonthStart(year, month) <= day < MonthStart(year, month + 1)
    ensures DateOf(day) == Date(year, month, day - MonthStart(year, month) + 1)
  {
    var d := Date(year, month, day - MonthStart(year, month) + 1);
    assert ValidDate(d) by { MonthStep(year, month); }
    assert Ordinal(d) == day;
    DateOfOrdinal(d);
  }

  /** Reading dates is monotone. */
  lemma DatesAscend(a: int, b: int)
    requires a <= b
    ensures DateOf(a).year <= DateOf(b).year
    ensures DateOf(a).year == DateOf(b).year ==> DateOf(a).month <= DateOf(b).month
  {
    var p, q := DateOf(a), DateOf(b);
    if q.year < p.year || (q.year == p.year && q.month < p.month) {
      OrdinalAscends(q, p);
    }
  }

  // ----- labels -----

  datatype Hms = Hms(hour: int, minute: int, second: int)

  predicate ValidHms(t: Hms) {
    0 <= t.hour < 24 && 0 <= t.minute < 60 && 0 <= t.second < 60
  }

  function TimeOfDay(t: Hms): (tod: int)
    requires ValidHms(t)
    ensures 0 <= tod < DAY
  {
    t.hour * 3600 + t.minute * 60 + t.second
  }

  function HmsOf(tod: int): (t: Hms)
    requires 0 <= tod < DAY
    ensures ValidHms(t) && TimeOfDay(t) == tod
  {
    Hms(tod / 3600, tod % 3600 / 60, tod % 60)
  }

  function DayOf(lab: int): int {
    lab / DAY
  }

  function TodOf(lab: int): (tod: int)
    ensures 0 <= tod < DAY
  {
    lab % DAY
  }

  function LabelDate(lab: int): Date {
    DateOf(DayOf(lab))
  }

  function LabelTime(lab: int): Hms {
    HmsOf(TodOf(lab))
  }

  function Year(lab: int): int {
    LabelDate(lab).year
  }

  lemma LabelParts(day: int, tod: int)
    requires 0 <= tod < DAY
    ensures DayOf(day * DAY + tod) == day && TodOf(day * DAY + tod) == tod
  {}

  lemma LabelWhole(lab: int)
    ensures lab == DayOf(lab) * DAY + TodOf(lab)
  {}

  lemma HmsOfTime(t: Hms)
    requires ValidHms(t)
    ensures HmsOf(TimeOfDay(t)) == t
  {
    var tod := TimeOfDay(t);
    var u := HmsOf(tod);
    assert u.hour * 3600 + (u.minute * 60 + u.second) == t.hour * 3600 + (t.minute * 60 + t.second);
    assert u.hour == t.hour;
  }

  lemma YearsOfLabels(a: int, b: int)
    requires a <= b
    ensures Year(a) <= Year(b)
  {
    DatesAscend(DayOf(a), DayOf(b));
  }

  // ----- the calendar, written out -----

  const MONTH_DAYS := [31, 28, 31, 30, 31, 30, 31, 31, 30, 31, 30, 31]
  const DAYS_BEFORE := [0, 31, 59, 90, 120, 151, 181, 212, 243, 273, 304, 334, 365]

  /** The month table, and the one day every fourth year adds, centuries but every fourth aside. */
  lemma MonthTable(year: int, month: int)
    requires 1 <= month <= 12
    ensures MonthEnd(year, month)
         == MONTH_DAYS[month - 1]
            + if month == 2 && year % 4 == 0 && (year % 100 != 0 || year % 400 == 0) then 1 else 0
  {}

  lemma {:induction false} DaysBeforeMonthIs(year: int, month: int)
    requires 1 <= month <= 13
    ensures DaysBeforeMonth(year, month)
         == DAYS_BEFORE[month - 1]
            + if month > 2 && year % 4 == 0 && (year % 100 != 0 || year % 400 == 0) then 1 else 0
  {
    if month > 1 {
      DaysBeforeMonthIs(year, month - 1);
      MonthTable(year, month - 1);
    }
  }

  lemma Quotients(n: int, span: int)
    requires span > 0
    ensures n / span == (n - 1) / span + if n % span == 0 then 1 else 0
  {
    var q, r := n / span, n % span;
    assert n == q * span + r;
    if r == 0 {
      QuotientIs(n - 1, span, q - 1, span - 1);
    } else {
      QuotientIs(n - 1, span, q, r - 1);
    }
  }

  lemma QuotientIs(n: int, span: int, q: int, r: int)
    requires span > 0 && n == q * span + r && 0 <= r < span
    ensures n / span == q
  {
    var d := n / span - q;
    assert n / span * span + n % span == n;
    assert d * span == r - n % span;
    SmallMultiple(d, span);
  }

  lemma SmallMultiple(d: int, span: int)
    requires span > 0 && -span < d * span < span
    ensures d == 0
  {}

  /** The leap days a century apart cancel, but every fourth. */
  function LeapDays(years: int): int {
    years / 4 - years / 100 + years / 400
  }

  lemma LeapDaysStep(year: int)
    ensures LeapDays(year)
         == LeapDays(year - 1) + if year % 4 == 0 && (year % 100 != 0 || year % 400 == 0) then 1 else 0
  {
    Quotients(year, 4);
    Quotients(year, 100);
    Quotients(year, 400);
    Divisible(year);
  }

  lemma Divisible(year: int)
    ensures year % 400 == 0 ==> year % 100 == 0
    ensures year % 100 == 0 ==> year % 4 == 0
  {}

  /** The days before a year, in closed form, for every year. */
  lemma {:induction false} DaysBeforeYearIs(year: int)
    ensures DaysBeforeYear(year) == 365 * (year - 1) + ((year - 1) / 4 - (year - 1) / 100 + (year - 1) / 400)
    decreases if year >= 1 then year else 2 - year
  {
    hide DaysBeforeMonth;
    hide LeapDays;
    LeapDaysIs(year - 1);
    LeapDaysIs(year);
    if year > 1 {
      LeapDaysIs(year - 2);
      DaysBeforeYearIs(year - 1);
      LeapDaysStep(year - 1);
      DaysBeforeMonthIs(year - 1, 13);
    } else if year < 1 {
      DaysBeforeYearIs(year + 1);
      LeapDaysStep(year);
      DaysBeforeMonthIs(year, 13);
    }
  }

  lemma LeapDaysIs(years: int)
    ensures LeapDays(years) == years / 4 - years / 100 + years / 400
  {}

  /** The day number of every date, in closed form. */
  lemma OrdinalIs(d: Date)
    requires ValidDate(d)
    ensures var y := d.year - 1;
            Ordinal(d)
            == 365 * y + (y / 4 - y / 100 + y / 400) + DAYS_BEFORE[d.month - 1] + d.day
               + if d.month > 2 && d.year % 4 == 0 && (d.year % 100 != 0 || d.year % 400 == 0) then 1 else 0
  {
    DaysBeforeYearIs(d.year);
    DaysBeforeMonthIs(d.year, d.month);
  }

  /** 1 January 1970 has the number it has in Python, and was a Thursday. */
  lemma Epoch()
    ensures ValidDate(Date(1970, 1, 1)) && Ordinal(Date(1970, 1, 1)) == 719163 && Weekday(719163) == 4
  {
    hide Ordinal;
    var d := Date(1970, 1, 1);
    MonthTable(1970, 1);
    hide MonthEnd;
    OrdinalIs(d);
  }

  /** The weekdays follow each other. */
  lemma WeekdayTurns(day: int)
    ensures Weekday(day + 1) == if Weekday(day) == 6 then 0 else Weekday(day) + 1
  {}

  /** The day after a date. */
  function Tomorrow(d: Date): Date {
    var leap := d.year % 400 == 0 || (d.year % 4 == 0 && d.year % 100 != 0);
    var last := if d.month == 2 then (if leap then 29 else 28) else if d.month in {4, 6, 9, 11} then 30 else 31;
    if d.day != last then Date(d.year, d.month, d.day + 1)
    else if d.month < 12 then Date(d.year, d.month + 1, 1)
    else Date(d.year + 1, 1, 1)
  }

  lemma NextDayReads(day: int)
    ensures DateOf(day + 1) == Tomorrow(DateOf(day))
  {
    hide DateOf;
    hide Ordinal;
    var d := DateOf(day);
    hide MonthEnd;
    MonthTable(d.year, d.month);
    DayAfter(d);
    DateOfOrdinal(Tomorrow(d));
  }

  lemma DayAfter(d: Date)
    requires ValidDate(d)
    ensures ValidDate(Tomorrow(d)) && Ordinal(Tomorrow(d)) == Ordinal(d) + 1
  {
    hide MonthStart;
    MonthStep(d.year, d.month);
    YearStep(d.year);
  }

  /**
   One second later reads as the clock and the calendar turn: together with the
   reading of one label this settles the reading of every label.
   */
  lemma LabelTicks(lab: int)
    ensures var d, t := LabelDate(lab), LabelTime(lab);
            (LabelDate(lab + 1), LabelTime(lab + 1))
            == if t.second < 59 then (d, Hms(t.hour, t.minute, t.second + 1))
               else if t.minute < 59 then (d, Hms(t.hour, t.minute + 1, 0))
               else if t.hour < 23 then (d, Hms(t.hour + 1, 0, 0))
               else (Tomorrow(d), Hms(0, 0, 0))
  {
    hide DateOf;
    hide HmsOf;
    hide Tomorrow;
    hide Ordinal;
    hide ValidDate;
    hide TimeOfDay;
    hide DayOf;
    hide TodOf;
    NextLabel(lab);
    ClockTicks(TodOf(lab));
    NextDayReads(DayOf(lab));
  }

  lemma NextLabel(lab: int)
    ensures if TodOf(lab) + 1 < DAY then DayOf(lab + 1) == DayOf(lab) && TodOf(lab + 1) == TodOf(lab) + 1
            else DayOf(lab + 1) == DayOf(lab) + 1 && TodOf(lab + 1) == 0
  {}

  lemma ClockTicks(tod: int)
    requires 0 <= tod < DAY
    ensures var t := HmsOf(tod);
            HmsOf(if tod + 1 < DAY then tod + 1 else 0)
            == if t.second < 59 then Hms(t.hour, t.minute, t.second + 1)
               else if t.minute < 59 then Hms(t.hour, t.minute + 1, 0)
               else if t.hour < 23 then Hms(t.hour + 1, 0, 0)
               else Hms(0, 0, 0)
    ensures tod + 1 == DAY <==> HmsOf(tod) == Hms(23, 59, 59)
  {
    hide HmsOf;
    var t := HmsOf(tod);
    var u := if t.second < 59 then Hms(t.hour, t.minute, t.second + 1)
             else if t.minute < 59 then Hms(t.hour, t.minute + 1, 0)
             else if t.hour < 23 then Hms(t.hour + 1, 0, 0)
             else Hms(0, 0, 0);
    HmsOfTime(u);
  }

  /** The reading the ticking starts from. */
  lemma EpochReads()
    ensures LabelDate(719163 * DAY) == Date(1970, 1, 1) && LabelTime(719163 * DAY) == Hms(0, 0, 0)
  {
    hide DateOf;
    LabelParts(719163, 0);
    Epoch();
    DateOfOrdinal(Date(1970, 1, 1));
    HmsOfTime(Hms(0, 0, 0));
  }
}
