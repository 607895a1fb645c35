/**
 The civil walk: the least matching label after a seed, the greatest before it.

 The walk skips whole years, months and days at a time; `Quiet` says that a
 stretch of labels holds no match, and every skip extends the quiet stretch
 behind the cursor.
 */
module CivilWalk {
  import opened Options
  import opened Calendar
  import opened Schedule

  const YEAR_HORIZON := 2099
  const YEAR_FLOOR := 1970

  // ----- what the walk must return -----

  /** `r` is the least match after `seed` whose year is inside the horizon. */
  ghost predicate IsNextCivil(tab: CronTab, seed: int, r: Option<int>) {
    match r
    case None => forall m :: m > seed && Year(m) <= YEAR_HORIZON ==> !Fires(tab, m)
    case Some(t) =>
      && t > seed && Year(t) <= YEAR_HORIZON && Fires(tab, t)
      && forall m :: seed < m < t ==> !Fires(tab, m)
  }

  /** `r` is the greatest match before `seed` whose year is at or above the floor. */
  ghost predicate IsPrevCivil(tab: CronTab, seed: int, r: Option<int>) {
    match r
    case None => forall m :: m < seed && Year(m) >= YEAR_FLOOR ==> !Fires(tab, m)
    case Some(t) =>
      && t < seed && Year(t) >= YEAR_FLOOR && Fires(tab, t)
      && forall m :: t < m < seed ==> !Fires(tab, m)
  }

  lemma NextCivilUnique(tab: CronTab, seed: int, r: Option<int>, s: Option<int>)
    requires IsNextCivil(tab, seed, r) && IsNextCivil(tab, seed, s)
    ensures r == s
  {
    hide Fires;
    hide Year;
  }

  /** Walking back from the next match of a match returns it. */
  lemma PrevUndoesNext(tab: CronTab, at: int, next: int, back: Option<int>)
    requires Fires(tab, at) && Year(at) >= YEAR_FLOOR
    requires IsNextCivil(tab, at, Some(next))
    requires IsPrevCivil(tab, next, back)
    ensures back == Some(at)
  {
    hide Fires;
    hide Year;
  }

  /** Walking on from the previous match of a match returns it. */
  lemma NextUndoesPrev(tab: CronTab, at: int, prev: int, on: Option<int>)
    requires Fires(tab, at) && Year(at) <= YEAR_HORIZON
    requires IsPrevCivil(tab, at, Some(prev))
    requires IsNextCivil(tab, prev, on)
    ensures on == Some(at)
  {
    hide Fires;
    hide Year;
  }

  // ----- quiet stretches -----

  ghost predicate Quiet(tab: CronTab, from: int, to: int) {
    forall m :: from <= m < to ==> !Fires(tab, m)
  }

  function DayStart(year: int, month: int): int
    requires 1 <= month <= 13
  {
    MonthStart(year, month) * DAY
  }

  lemma QuietDay(tab: CronTab, day: int)
    requires !DaySelected(tab, DateOf(day))
    ensures Quiet(tab, day * DAY, (day + 1) * DAY)
  {
    forall m | day * DAY <= m < (day + 1) * DAY
      ensures !Fires(tab, m)
    {
      assert DayOf(m) == day;
    }
  }

  /** No selected time from `lo` up to `hi` leaves that part of the day quiet. */
  lemma QuietTimes(tab: CronTab, day: int, lo: int, hi: int)
    requires 0 <= lo <= hi <= DAY
    requires forall t :: ValidHms(t) && TimeSelected(tab, t) ==> TimeOfDay(t) < lo || hi <= TimeOfDay(t)
    ensures Quiet(tab, day * DAY + lo, day * DAY + hi)
  {
    forall m | day * DAY + lo <= m < day * DAY + hi
      ensures !Fires(tab, m)
    {
      LabelParts(day, m - day * DAY);
      var t := LabelTime(m);
      assert TimeOfDay(t) == m - day * DAY;
    }
  }

  lemma YearBounds(lab: int, year: int)
    ensures Year(lab) < year <==> lab < DayStart(year, 1)
  {
    hide MonthStart;
    hide DateOf;
    var day, first := DayOf(lab), MonthStart(year, 1);
    var d := Date(year, 1, 1);
    assert Ordinal(d) == first;
    DateOfOrdinal(d);
    LabelWhole(lab);
    if day < first {
      DatesAscend(day, first);
      if Year(lab) == year {
        var e := DateOf(day);
        MonthsAscend(year, 1, e.month);
      }
    } else {
      DatesAscend(first, day);
    }
  }

  lemma MonthBounds(lab: int, year: int, month: int)
    requires 1 <= month <= 13 && Year(lab) == year
    ensures LabelDate(lab).month < month <==> lab < DayStart(year, month)
  {
    hide MonthStart;
    hide DateOf;
    var e := LabelDate(lab);
    LabelWhole(lab);
    MonthStep(year, e.month);
    if e.month < month {
      MonthsAscend(year, e.month + 1, month);
    } else {
      MonthsAscend(year, month, e.month);
    }
  }

  /** Years outside the year column are quiet. */
  lemma QuietYears(tab: CronTab, from: int, until: int)
    requires tab.years.Some?
    requires forall y :: Year(from) <= y < until ==> y !in tab.years.value
    ensures Quiet(tab, from, DayStart(until, 1))
  {
    hide MonthStart;
    hide DateOf;
    hide DomSelects;
    hide DowSelects;
    forall m | from <= m < DayStart(until, 1)
      ensures !Fires(tab, m)
    {
      YearsOfLabels(from, m);
      YearBounds(m, until);
    }
  }

  /** Months of one year outside the month column are quiet. */
  lemma QuietMonths(tab: CronTab, from: int, until: int)
    requires LabelDate(from).month <= until <= 13
    requires forall k :: LabelDate(from).month <= k < until ==> k !in tab.months
    ensures Quiet(tab, from, DayStart(Year(from), until))
  {
    hide MonthStart;
    hide DateOf;
    hide DomSelects;
    hide DowSelects;
    var year := Year(from);
    forall m | from <= m < DayStart(year, until)
      ensures !Fires(tab, m)
    {
      DatesAscend(DayOf(from), DayOf(m));
      MonthsAscend(year, until, 13);
      YearStep(year);
      YearBounds(m, year + 1);
      MonthBounds(m, year, until);
    }
  }

  lemma QuietYearsBack(tab: CronTab, from: int, at: int)
    requires tab.years.Some?
    requires forall y :: from <= y <= Year(at - 1) ==> y !in tab.years.value
    ensures Quiet(tab, DayStart(from, 1), at)
  {
    hide MonthStart;
    hide DateOf;
    hide DomSelects;
    hide DowSelects;
    forall m | DayStart(from, 1) <= m < at
      ensures !Fires(tab, m)
    {
      YearsOfLabels(m, at - 1);
      YearBounds(m, from);
    }
  }

  lemma QuietMonthsBack(tab: CronTab, from: int, at: int)
    requires 1 <= from <= LabelDate(at - 1).month + 1
    requires forall k :: from <= k <= LabelDate(at - 1).month ==> k !in tab.months
    ensures Quiet(tab, DayStart(Year(at - 1), from), at)
  {
    hide MonthStart;
    hide DateOf;
    hide DomSelects;
    hide DowSelects;
    var year := Year(at - 1);
    forall m | DayStart(year, from) <= m < at
      ensures !Fires(tab, m)
    {
      DatesAscend(DayOf(m), DayOf(at - 1));
      MonthsAscend(year, 1, from);
      YearBounds(m, year);
      MonthBounds(m, year, from);
    }
  }

  lemma DayReads(year: int, month: int, day: int, tod: int)
    requires 1 <= month <= 12 && 1 <= day <= MonthEnd(year, month) && 0 <= tod < DAY
    ensures var m := (MonthStart(year, month) + day - 1) * DAY + tod;
            LabelDate(m) == Date(year, month, day) && TodOf(m) == tod
  {
    hide MonthStart;
    hide DateOf;
    var d := Date(year, month, day);
    DateOfOrdinal(d);
    assert Ordinal(d) == MonthStart(year, month) + day - 1;
    LabelParts(Ordinal(d), tod);
  }

  /** A selected day at a selected time is a match. */
  lemma FiresAt(tab: CronTab, year: int, month: int, day: int, t: Hms)
    requires 1 <= month <= 12 && 1 <= day <= MonthEnd(year, month) && ValidHms(t)
    requires DaySelected(tab, Date(year, month, day)) && TimeSelected(tab, t)
    ensures Fires(tab, (MonthStart(year, month) + day - 1) * DAY + TimeOfDay(t))
  {
    hide MonthStart;
    hide DateOf;
    hide TimeOfDay;
    hide HmsOf;
    hide DaySelected;
    DayReads(year, month, day, TimeOfDay(t));
    HmsOfTime(t);
  }

  // ----- columns -----

  function BisectLeft(s: seq<int>, x: int): (k: nat)
    requires Ascending(s)
    ensures k <= |s|
    ensures forall i :: 0 <= i < k ==> s[i] < x
    ensures forall i :: k <= i < |s| ==> x <= s[i]
  {
    if s == [] then 0
    else if s[|s| - 1] < x then |s|
    else BisectLeft(s[..|s| - 1], x)
  }

  function BisectRight(s: seq<int>, x: int): (k: nat)
    requires Ascending(s)
    ensures k <= |s|
    ensures forall i :: 0 <= i < k ==> s[i] <= x
    ensures forall i :: k <= i < |s| ==> x < s[i]
  {
    if s == [] then 0
    else if s[|s| - 1] <= x then |s|
    else BisectRight(s[..|s| - 1], x)
  }

  /** First element greater than `current`. */
  function NextIn(ordered: seq<int>, current: int): (r: Option<int>)
    requires Ascending(ordered)
    ensures r.None? ==> forall v :: v in ordered ==> v <= current
    ensures r.Some? ==> r.value in ordered && r.value > current
    ensures r.Some? ==> forall v :: v in ordered ==> v <= current || r.value <= v
  {
    var index := BisectRight(ordered, current);
    if index < |ordered| then Some(ordered[index]) else None
  }

  /** Last element less than `current`. */
  function PrevIn(ordered: seq<int>, current: int): (r: Option<int>)
    requires Ascending(ordered)
    ensures r.None? ==> forall v :: v in ordered ==> current <= v
    ensures r.Some? ==> r.value in ordered && r.value < current
    ensures r.Some? ==> forall v :: v in ordered ==> current <= v || v <= r.value
  {
    var index := BisectLeft(ordered, current);
    if index > 0 then Some(ordered[index - 1]) else None
  }

  // ----- times of day -----

  ghost predicate TimeColumns(tab: CronTab) {
    && Column(tab.seconds, tab.secondsSorted, 0, 59) && tab.secondsSorted != []
    && Column(tab.minutes, tab.minutesSorted, 0, 59) && tab.minutesSorted != []
    && Column(tab.hours, tab.hoursSorted, 0, 23) && tab.hoursSorted != []
  }

  /** Earliest matching time of day, at or after a floor when one is given. */
  function FirstTime(tab: CronTab, floor: Option<Hms>): (r: Option<Hms>)
    requires TimeColumns(tab)
  {
    var hours, minutes, seconds := tab.hoursSorted, tab.minutesSorted, tab.secondsSorted;
    match floor
    case None => Some(Hms(hours[0], minutes[0], seconds[0]))
    case Some(at) =>
      var index := BisectLeft(hours, at.hour);
      if index == |hours| then None
      else if hours[index] > at.hour then Some(Hms(hours[index], minutes[0], seconds[0]))
      else
        var later := if index + 1 < |hours| then Some(Hms(hours[index + 1], minutes[0], seconds[0])) else None;
        var mIndex := BisectLeft(minutes, at.minute);
        if mIndex < |minutes| then
          if minutes[mIndex] > at.minute then Some(Hms(at.hour, minutes[mIndex], seconds[0]))
          else
            var sIndex := BisectLeft(seconds, at.second);
            if sIndex < |seconds| then Some(Hms(at.hour, at.minute, seconds[sIndex]))
            else if mIndex + 1 < |minutes| then Some(Hms(at.hour, minutes[mIndex + 1], seconds[0]))
            else later
        else later
  }

  /** Latest matching time of day, at or before a ceiling when one is given. */
  function LastTime(tab: CronTab, ceiling: Option<Hms>): (r: Option<Hms>)
    requires TimeColumns(tab)
  {
    var hours, minutes, seconds := tab.hoursSorted, tab.minutesSorted, tab.secondsSorted;
    var lastMinute, lastSecond := minutes[|minutes| - 1], seconds[|seconds| - 1];
    match ceiling
    case None => Some(Hms(hours[|hours| - 1], lastMinute, lastSecond))
    case Some(at) =>
      var index := BisectRight(hours, at.hour) - 1;
      if index < 0 then None
      else if hours[index] < at.hour then Some(Hms(hours[index], lastMinute, lastSecond))
      else
        var earlier := if index >= 1 then Some(Hms(hours[index - 1], lastMinute, lastSecond)) else None;
        var mIndex := BisectRight(minutes, at.minute) - 1;
        if mIndex >= 0 then
          if minutes[mIndex] < at.minute then Some(Hms(at.hour, minutes[mIndex], lastSecond))
          else
            var sIndex := BisectRight(seconds, at.second) - 1;
            if sIndex >= 0 then Some(Hms(at.hour, at.minute, seconds[sIndex]))
            else if mIndex >= 1 then Some(Hms(at.hour, minutes[mIndex - 1], lastSecond))
            else earlier
        else earlier
  }

  predicate Earlier(a: Hms, b: Hms) {
    a.hour < b.hour || (a.hour == b.hour && (a.minute < b.minute || (a.minute == b.minute && a.second < b.second)))
  }

  lemma EarlierIsLess(a: Hms, b: Hms)
    requires ValidHms(a) && ValidHms(b)
    ensures Earlier(a, b) <==> TimeOfDay(a) < TimeOfDay(b)
  {}

  lemma FirstTimeSelected(tab: CronTab, floor: Option<Hms>)
    requires TimeColumns(tab)
    requires floor.Some? ==> ValidHms(floor.value)
    ensures var r := FirstTime(tab, floor);
            && (r.Some? ==> ValidHms(r.value) && TimeSelected(tab, r.value))
            && (r.Some? && floor.Some? ==> !Earlier(r.value, floor.value))
  {
    hide BisectLeft;
  }

  /** Where a column value lies relative to a left bisect. */
  lemma FromLeft(s: seq<int>, x: int, v: int)
    requires Ascending(s) && v in s
    ensures s[0] <= v
    ensures var k := BisectLeft(s, x);
            v < x || (k < |s| && x <= s[k] && (v == s[k] || (k + 1 < |s| && s[k] < s[k + 1] <= v)))
  {
    hide BisectLeft;
    var i :| 0 <= i < |s| && s[i] == v;
  }

  lemma FirstTimeIsLeast(tab: CronTab, floor: Option<Hms>, t: Hms)
    requires TimeColumns(tab) && TimeSelected(tab, t)
    ensures var r := FirstTime(tab, floor);
            (floor.Some? && Earlier(t, floor.value)) || (r.Some? && !Earlier(t, r.value))
  {
    hide BisectLeft;
    hide Ascending;
    var at := if floor.Some? then floor.value else t;
    FromLeft(tab.hoursSorted, at.hour, t.hour);
    FromLeft(tab.minutesSorted, at.minute, t.minute);
    FromLeft(tab.secondsSorted, at.second, t.second);
  }

  /** What the earliest time query must answer. */
  ghost predicate IsFirstTime(tab: CronTab, floor: Option<Hms>, r: Option<Hms>) {
    match r
    case None => floor.Some? && forall t :: TimeSelected(tab, t) ==> Earlier(t, floor.value)
    case Some(first) =>
      && ValidHms(first) && TimeSelected(tab, first) && !(floor.Some? && Earlier(first, floor.value))
      && forall t :: TimeSelected(tab, t) && !(floor.Some? && Earlier(t, floor.value)) ==> !Earlier(t, first)
  }

  /** `FirstTime` is the least selected time at or after its floor, None when there is none. */
  lemma FirstTimeIsFirst(tab: CronTab, floor: Option<Hms>)
    requires TimeColumns(tab) && (floor.Some? ==> ValidHms(floor.value))
    ensures IsFirstTime(tab, floor, FirstTime(tab, floor))
  {
    hide FirstTime;
    hide TimeColumns;
    hide TimeSelected;
    hide Earlier;
    FirstTimeSelected(tab, floor);
    forall t | TimeSelected(tab, t)
      ensures (floor.Some? && Earlier(t, floor.value))
              || (FirstTime(tab, floor).Some? && !Earlier(t, FirstTime(tab, floor).value))
    {
      FirstTimeIsLeast(tab, floor, t);
    }
    NeverEmpty(tab);
  }

  /** Some time of day is always selected. */
  lemma NeverEmpty(tab: CronTab)
    requires TimeColumns(tab)
    ensures FirstTime(tab, None).Some? && LastTime(tab, None).Some?
  {}

  lemma LastTimeSelected(tab: CronTab, ceiling: Option<Hms>)
    requires TimeColumns(tab)
    requires ceiling.Some? ==> ValidHms(ceiling.value)
    ensures var r := LastTime(tab, ceiling);
            && (r.Some? ==> ValidHms(r.value) && TimeSelected(tab, r.value))
            && (r.Some? && ceiling.Some? ==> !Earlier(ceiling.value, r.value))
  {
    hide BisectRight;
  }

  /** Where a column value lies relative to a right bisect. */
  lemma FromRight(s: seq<int>, x: int, v: int)
    requires Ascending(s) && v in s
    ensures v <= s[|s| - 1]
    ensures var k := BisectRight(s, x) - 1;
            x < v || (k >= 0 && s[k] <= x && (v == s[k] || (k >= 1 && v <= s[k - 1] < s[k])))
  {
    hide BisectRight;
    var i :| 0 <= i < |s| && s[i] == v;
  }

  lemma LastTimeIsGreatest(tab: CronTab, ceiling: Option<Hms>, t: Hms)
    requires TimeColumns(tab) && TimeSelected(tab, t)
    ensures var r := LastTime(tab, ceiling);
            (ceiling.Some? && Earlier(ceiling.value, t)) || (r.Some? && !Earlier(r.value, t))
  {
    hide BisectRight;
    hide Ascending;
    var at := if ceiling.Some? then ceiling.value else t;
    FromRight(tab.hoursSorted, at.hour, t.hour);
    FromRight(tab.minutesSorted, at.minute, t.minute);
    FromRight(tab.secondsSorted, at.second, t.second);
  }

  /** What the latest time query must answer. */
  ghost predicate IsLastTime(tab: CronTab, ceiling: Option<Hms>, r: Option<Hms>) {
    match r
    case None => ceiling.Some? && forall t :: TimeSelected(tab, t) ==> Earlier(ceiling.value, t)
    case Some(last) =>
      && ValidHms(last) && TimeSelected(tab, last) && !(ceiling.Some? && Earlier(ceiling.value, last))
      && forall t :: TimeSelected(tab, t) && !(ceiling.Some? && Earlier(ceiling.value, t)) ==> !Earlier(last, t)
  }

  /** `LastTime` is the greatest selected time at or before its ceiling, None when there is none. */
  lemma LastTimeIsLast(tab: CronTab, ceiling: Option<Hms>)
    requires TimeColumns(tab) && (ceiling.Some? ==> ValidHms(ceiling.value))
    ensures IsLastTime(tab, ceiling, LastTime(tab, ceiling))
  {
    hide LastTime;
    hide TimeColumns;
    hide TimeSelected;
    hide Earlier;
    LastTimeSelected(tab, ceiling);
    forall t | TimeSelected(tab, t)
      ensures (ceiling.Some? && Earlier(ceiling.value, t))
              || (LastTime(tab, ceiling).Some? && !Earlier(LastTime(tab, ceiling).value, t))
    {
      LastTimeIsGreatest(tab, ceiling, t);
    }
    NeverEmpty(tab);
  }
}
