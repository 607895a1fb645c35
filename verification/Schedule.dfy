/**
 A parsed cron expression and what it means for a civil label to match it.

 `Fires` says which labels a schedule selects, column by column and with the
 L, W and # families spelled out on the calendar. `Test` is the engine's own
 decision, with its fast paths and range guards; the two agree everywhere.
 */
module Schedule {
  import opened Options
  import opened Collections
  import opened Calendar

  /** The parsed columns; each `...Sorted` lists its set in ascending order. */
  datatype CronTab = CronTab(
    seconds: set<int>, minutes: set<int>, hours: set<int>,
    dom: set<int>, domLastOffsets: set<int>, domNearest: set<int>, domLastWeekday: bool,
    months: set<int>,
    dow: set<int>, dowLast: set<int>, dowNth: set<(int, int)>,
    years: Option<set<int>>,
    secondsSorted: seq<int>, minutesSorted: seq<int>, hoursSorted: seq<int>,
    domSorted: seq<int>, monthsSorted: seq<int>, yearsSorted: seq<int>)
  {
    predicate DowFree() { |dow| == 7 }

    predicate DaysPlain() {
      !(domLastOffsets != {} || domNearest != {} || domLastWeekday || dowLast != {} || dowNth != {})
    }
  }

  ghost predicate Ascending(s: seq<int>) {
    forall i, j :: 0 <= i < j < |s| ==> s[i] < s[j]
  }

  ghost predicate Column(values: set<int>, sorted: seq<int>, lo: int, hi: int) {
    && Ascending(sorted)
    && (forall i :: 0 <= i < |sorted| ==> sorted[i] in values)
    && (forall v :: v in values ==> v in sorted && lo <= v <= hi)
  }

  /** What parsing an accepted expression establishes. */
  ghost predicate ValidTab(tab: CronTab) {
    && Column(tab.seconds, tab.secondsSorted, 0, 59) && tab.secondsSorted != []
    && Column(tab.minutes, tab.minutesSorted, 0, 59) && tab.minutesSorted != []
    && Column(tab.hours, tab.hoursSorted, 0, 23) && tab.hoursSorted != []
    && Column(tab.dom, tab.domSorted, 1, 31)
    && Column(tab.months, tab.monthsSorted, 1, 12) && tab.monthsSorted != []
    && (tab.years.Some? ==> Column(tab.years.value, tab.yearsSorted, 1970, 2099) && tab.yearsSorted != [])
    && (forall v :: v in tab.domLastOffsets ==> 0 <= v <= 30)
    && (forall v :: v in tab.domNearest ==> 1 <= v <= 31)
    && (forall v :: v in tab.dow ==> 0 <= v <= 6)
    && (forall v :: v in tab.dowLast ==> 0 <= v <= 6)
    && (forall p :: p in tab.dowNth ==> 0 <= p.0 <= 6 && 1 <= p.1 <= 5)
  }

  // ----- the meaning of the day columns -----

  /** Weekday of a day of the month whose first day has number `first`. */
  function DowIn(first: int, day: int): (dow: int)
    ensures 0 <= dow < 7
  {
    Weekday(first + day - 1)
  }

  function Gap(a: int, b: int): int {
    if a <= b then b - a else a - b
  }

  /** A Monday-to-Friday day of the month. */
  predicate Working(first: int, end: int, day: int) {
    1 <= day <= end && 1 <= DowIn(first, day) <= 5
  }

  /** `day` is the month's working day closest to `target`. */
  ghost predicate NearestWorking(first: int, end: int, target: int, day: int) {
    && Working(first, end, day)
    && forall other :: Working(first, end, other) && other != day ==> Gap(target, day) < Gap(target, other)
  }

  /** How many days of the month up to `day` fall on weekday `dow`. */
  function DowCount(first: int, day: int, dow: int): nat {
    if day <= 0 then 0 else DowCount(first, day - 1, dow) + if DowIn(first, day) == dow then 1 else 0
  }

  /** No later day of the month falls on this day's weekday. */
  ghost predicate LastOfItsDow(first: int, end: int, day: int) {
    forall later :: day < later <= end ==> DowIn(first, later) != DowIn(first, day)
  }

  ghost predicate DomSelects(tab: CronTab, d: Date)
    requires ValidDate(d)
  {
    var first, end := MonthStart(d.year, d.month), MonthEnd(d.year, d.month);
    || d.day in tab.dom
    || (end - d.day) in tab.domLastOffsets
    || (tab.domLastWeekday && NearestWorking(first, end, end, d.day))
    || (exists target :: target in tab.domNearest && target <= end && NearestWorking(first, end, target, d.day))
  }

  ghost predicate DowSelects(tab: CronTab, d: Date)
    requires ValidDate(d)
  {
    var first, end := MonthStart(d.year, d.month), MonthEnd(d.year, d.month);
    var dow := DowIn(first, d.day);
    || dow in tab.dow
    || (dow in tab.dowLast && LastOfItsDow(first, end, d.day))
    || (dow, DowCount(first, d.day, dow)) in tab.dowNth
  }

  ghost predicate DaySelected(tab: CronTab, d: Date)
    requires ValidDate(d)
  {
    && (tab.years.Some? ==> d.year in tab.years.value)
    && d.month in tab.months
    && DomSelects(tab, d)
    && DowSelects(tab, d)
  }

  predicate TimeSelected(tab: CronTab, t: Hms) {
    t.hour in tab.hours && t.minute in tab.minutes && t.second in tab.seconds
  }

  /** The schedule selects this civil label. */
  ghost predicate Fires(tab: CronTab, lab: int) {
    DaySelected(tab, LabelDate(lab)) && TimeSelected(tab, LabelTime(lab))
  }

  // ----- the engine's decisions -----

  /** The day a W item fires on for day `target`. */
  function ShiftToWeekday(first: int, target: int, monthEnd: int): (day: int)
    requires 1 <= target <= monthEnd
  {
    var weekday := (first + target - 1 + 6) % 7;
    if weekday == 5 then (if target > 1 then target - 1 else target + 2)
    else if weekday == 6 then (if target < monthEnd then target + 1 else target - 2)
    else target
  }

  predicate DomMatches(tab: CronTab, year: int, month: int, day: int, monthEnd: int)
    requires 1 <= month <= 12 && monthEnd >= 1
    requires forall v :: v in tab.domNearest ==> v >= 1
  {
    || day in tab.dom
    || (tab.domLastOffsets != {} && (monthEnd - day) in tab.domLastOffsets)
    || (tab.domLastWeekday && day >= monthEnd - 2 && day == ShiftToWeekday(MonthStart(year, month), monthEnd, monthEnd))
    || exists target :: target in tab.domNearest && NearestMatches(year, month, day, monthEnd, target)
  }

  predicate NearestMatches(year: int, month: int, day: int, monthEnd: int, target: int)
    requires 1 <= month <= 12 && target >= 1
  {
    && target - 2 <= day <= target + 2 && target <= monthEnd
    && day == ShiftToWeekday(MonthStart(year, month), target, monthEnd)
  }

  predicate DowMatches(tab: CronTab, dow: int, day: int, monthEnd: int) {
    || dow in tab.dow
    || (dow in tab.dowLast && day > monthEnd - 7)
    || (tab.dowNth != {} && (dow, (day - 1) / 7 + 1) in tab.dowNth)
  }

  predicate Test(tab: CronTab, lab: int)
    requires forall v :: v in tab.domNearest ==> v >= 1
  {
    var d, t := LabelDate(lab), LabelTime(lab);
    if !(&& t.minute in tab.minutes && t.hour in tab.hours && t.second in tab.seconds
         && d.month in tab.months && (tab.years.None? || d.year in tab.years.value)) then false
    else if tab.DaysPlain() then
      d.day in tab.dom && (tab.DowFree() || Weekday(DayOf(lab)) in tab.dow)
    else
      var end := MonthEnd(d.year, d.month);
      DomMatches(tab, d.year, d.month, d.day, end) && DowMatches(tab, Weekday(DayOf(lab)), d.day, end)
  }

  /** The verdict of the field-by-field explanation of a missed run. */
  predicate WhyNoRunMatches(tab: CronTab, lab: int)
    requires forall v :: v in tab.domNearest ==> v >= 1
  {
    var d, t := LabelDate(lab), LabelTime(lab);
    var end := MonthEnd(d.year, d.month);
    && t.second in tab.seconds
    && t.minute in tab.minutes
    && t.hour in tab.hours
    && DomMatches(tab, d.year, d.month, d.day, end)
    && d.month in tab.months
    && DowMatches(tab, Weekday(DayOf(lab)), d.day, end)
    && (tab.years.None? || d.year in tab.years.value)
  }

  // ----- the decisions agree with the meaning -----

  lemma WeekShift(base: int, k: int)
    requires -2 <= k <= 2
    ensures (base + k) % 7 == (if base % 7 + k < 0 then base % 7 + k + 7
                               else if base % 7 + k > 6 then base % 7 + k - 7 else base % 7 + k)
  {}

  lemma ShiftBeats(first: int, end: int, target: int, other: int)
    requires 28 <= end && 1 <= target <= end
    ensures var day := ShiftToWeekday(first, target, end);
            && Working(first, end, day)
            && Gap(target, day) <= 2
            && (Working(first, end, other) && other != day ==> Gap(target, day) < Gap(target, other))
  {
    var base := first + target - 1;
    assert (base + 6) % 7 == if base % 7 == 0 then 6 else base % 7 - 1;
    var day := ShiftToWeekday(first, target, end);
    WeekShift(base, day - target);
    assert DowIn(first, day) == (base + (day - target)) % 7;
    if -2 <= other - target <= 2 {
      WeekShift(base, other - target);
      assert DowIn(first, other) == (base + (other - target)) % 7;
    }
  }

  /** A W shift is the one nearest working day inside the month, at most two days off. */
  lemma ShiftIsNearest(first: int, end: int, target: int, day: int)
    requires 28 <= end && 1 <= target <= end
    ensures NearestWorking(first, end, target, day) <==> day == ShiftToWeekday(first, target, end)
    ensures target - 2 <= ShiftToWeekday(first, target, end) <= target + 2
  {
    var shift := ShiftToWeekday(first, target, end);
    forall other
      ensures Working(first, end, other) && other != shift ==> Gap(target, shift) < Gap(target, other)
    {
      ShiftBeats(first, end, target, other);
    }
    ShiftBeats(first, end, target, day);
    assert Working(first, end, shift);
  }

  lemma NearestMatchesIsNearest(year: int, month: int, day: int, target: int)
    requires 1 <= month <= 12 && target >= 1
    ensures NearestMatches(year, month, day, MonthEnd(year, month), target)
       <==> && target <= MonthEnd(year, month)
            && NearestWorking(MonthStart(year, month), MonthEnd(year, month), target, day)
  {
    var first, end := MonthStart(year, month), MonthEnd(year, month);
    if target <= end {
      ShiftIsNearest(first, end, target, day);
      assert NearestMatches(year, month, day, end, target) <==> day == ShiftToWeekday(first, target, end);
    }
  }

  lemma LastMatchesIsNearest(year: int, month: int, day: int)
    requires 1 <= month <= 12
    ensures var first, end := MonthStart(year, month), MonthEnd(year, month);
            day >= end - 2 && day == ShiftToWeekday(first, end, end) <==> NearestWorking(first, end, end, day)
  {
    var first, end := MonthStart(year, month), MonthEnd(year, month);
    ShiftIsNearest(first, end, end, day);
  }

  /** The range guards around the W checks never change the answer. */
  lemma DomMatchesIsSelects(tab: CronTab, d: Date)
    requires ValidTab(tab) && ValidDate(d)
    ensures DomMatches(tab, d.year, d.month, d.day, MonthEnd(d.year, d.month)) <==> DomSelects(tab, d)
  {
    LastMatchesIsNearest(d.year, d.month, d.day);
    var first, end := MonthStart(d.year, d.month), MonthEnd(d.year, d.month);
    forall target | target in tab.domNearest
      ensures NearestMatches(d.year, d.month, d.day, end, target)
         <==> target <= end && NearestWorking(first, end, target, d.day)
    {
      NearestMatchesIsNearest(d.year, d.month, d.day, target);
    }
  }

  /** Seven days on the weekday is back, and not before. */
  lemma DowPeriod(first: int, a: int, b: int)
    ensures DowIn(first, a + 7) == DowIn(first, a)
    ensures a < b < a + 7 ==> DowIn(first, b) != DowIn(first, a)
  {
  }

  /** The last of its weekday is the one less than a week from the end of the month. */
  lemma LastIsInLastWeek(first: int, end: int, day: int)
    requires day <= end
    ensures LastOfItsDow(first, end, day) <==> day > end - 7
  {
    hide DowIn;
    DowPeriod(first, day, day);
    if day > end - 7 {
      forall later | day < later <= end ensures DowIn(first, later) != DowIn(first, day) {
        DowPeriod(first, day, later);
      }
    }
  }

  lemma {:induction false} FirstOfItsDow(first: int, day: int, to: int)
    requires 1 <= day <= 7 && 0 <= to < day
    ensures DowCount(first, to, DowIn(first, day)) == 0
  {
    if to > 0 {
      FirstOfItsDow(first, day, to - 1);
      hide DowIn;
      DowPeriod(first, to, day);
    }
  }

  /** Within a week after a day its weekday is not counted again. */
  lemma {:induction false} CountHolds(first: int, day: int, to: int)
    requires 1 <= day <= to < day + 7
    ensures DowCount(first, to, DowIn(first, day)) == DowCount(first, day, DowIn(first, day))
  {
    if to > day {
      CountHolds(first, day, to - 1);
      hide DowIn;
      DowPeriod(first, day, to);
    }
  }

  /** The count up to a day of its own weekday, by arithmetic. */
  lemma {:induction false} CountIsArithmetic(first: int, day: int)
    requires day >= 1
    ensures DowCount(first, day, DowIn(first, day)) == (day - 1) / 7 + 1
  {
    hide DowIn;
    if day <= 7 {
      FirstOfItsDow(first, day, day - 1);
    } else {
      CountIsArithmetic(first, day - 7);
      CountHolds(first, day - 7, day - 1);
      DowPeriod(first, day - 7, day);
    }
  }

  lemma DowMatchesIsSelects(tab: CronTab, d: Date)
    requires ValidDate(d)
    ensures DowMatches(tab, DowIn(MonthStart(d.year, d.month), d.day), d.day, MonthEnd(d.year, d.month))
       <==> DowSelects(tab, d)
  {
    hide DowIn;
    hide MonthStart;
    hide LastOfItsDow;
    hide DowCount;
    LastIsInLastWeek(MonthStart(d.year, d.month), MonthEnd(d.year, d.month), d.day);
    CountIsArithmetic(MonthStart(d.year, d.month), d.day);
  }

  /** A week's worth of weekdays is all of them. */
  lemma AllWeekdays(dow: set<int>, v: int)
    requires |dow| == 7 && (forall w :: w in dow ==> 0 <= w <= 6) && 0 <= v <= 6
    ensures v in dow
  {
    if v !in dow {
      assert forall w :: w in dow ==> w in {0, 1, 2, 3, 4, 5, 6} - {v};
      SubsetCount(dow, {0, 1, 2, 3, 4, 5, 6} - {v});
    }
  }

  /** On plain day columns the day test is two set probes. */
  lemma PlainDays(tab: CronTab, d: Date)
    requires ValidTab(tab) && ValidDate(d) && tab.DaysPlain()
    ensures DomSelects(tab, d) <==> d.day in tab.dom
    ensures DowSelects(tab, d) <==> tab.DowFree() || DowIn(MonthStart(d.year, d.month), d.day) in tab.dow
  {
    if tab.DowFree() {
      AllWeekdays(tab.dow, DowIn(MonthStart(d.year, d.month), d.day));
    }
  }

  /** The engine's test is exactly the meaning of the schedule. */
  lemma TestIsFires(tab: CronTab, lab: int)
    requires ValidTab(tab)
    ensures Test(tab, lab) <==> Fires(tab, lab)
  {
    var d := LabelDate(lab);
    assert Weekday(DayOf(lab)) == DowIn(MonthStart(d.year, d.month), d.day);
    DomMatchesIsSelects(tab, d);
    DowMatchesIsSelects(tab, d);
    if tab.DaysPlain() {
      PlainDays(tab, d);
    }
  }

  /** The explanation's verdict can never disagree with the engine. */
  lemma WhyNoRunAgrees(tab: CronTab, lab: int)
    requires ValidTab(tab)
    ensures WhyNoRunMatches(tab, lab) <==> Test(tab, lab)
  {
    TestIsFires(tab, lab);
    var d := LabelDate(lab);
    assert Weekday(DayOf(lab)) == DowIn(MonthStart(d.year, d.month), d.day);
    DomMatchesIsSelects(tab, d);
    DowMatchesIsSelects(tab, d);
  }
}
