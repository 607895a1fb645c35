/**
 The forward and backward civil searches, as the engine runs them: a cursor of
 year, month, day and time-of-day bound that skips what cannot match.
 */
module CivilSearch {
  import opened Options
  import opened Calendar
  import opened Schedule
  import opened CivilWalk

  /** What a scan of the labels `[from, to)` must report. */
  ghost predicate FirstIn(tab: CronTab, from: int, to: int, found: Option<int>) {
    match found
    case None => Quiet(tab, from, to)
    case Some(t) => from <= t < to && Fires(tab, t) && Quiet(tab, from, t)
  }

  /** What a backward scan of the labels `[from, to)` must report. */
  ghost predicate LastIn(tab: CronTab, from: int, to: int, found: Option<int>) {
    match found
    case None => Quiet(tab, from, to)
    case Some(t) => from <= t < to && Fires(tab, t) && Quiet(tab, t + 1, to)
  }

  function DayAt(year: int, month: int, day: int): int
    requires 1 <= month <= 12
  {
    (MonthStart(year, month) + day - 1) * DAY
  }

  /** The first label a forward scan with time floor `tod` may still return. */
  function Floor(year: int, month: int, day: int, tod: Option<Hms>): (lab: int)
    requires 1 <= month <= 12 && (tod.Some? ==> ValidHms(tod.value))
    ensures DayAt(year, month, day) <= lab < DayAt(year, month, day + 1)
  {
    DayAt(year, month, day) + if tod.Some? then TimeOfDay(tod.value) else 0
  }

  /** The label just past what a backward scan with time ceiling `tod` may return. */
  function Ceiling(year: int, month: int, day: int, tod: Option<Hms>): (lab: int)
    requires 1 <= month <= 12 && (tod.Some? ==> ValidHms(tod.value))
    ensures DayAt(year, month, day) < lab <= DayAt(year, month, day + 1)
  {
    DayAt(year, month, day) + if tod.Some? then TimeOfDay(tod.value) + 1 else DAY
  }

  // ----- one day -----

  /** The day at its earliest matching time, if any. */
  function AtFirstTime(tab: CronTab, year: int, month: int, day: int, tod: Option<Hms>): (found: Option<int>)
    requires TimeColumns(tab) && 1 <= month <= 12
    requires tod.Some? ==> ValidHms(tod.value)
  {
    FirstTimeSelected(tab, tod);
    var hms := FirstTime(tab, tod);
    if hms.None? then None else Some(DayAt(year, month, day) + TimeOfDay(hms.value))
  }

  /** The day at its latest matching time, if any. */
  function AtLastTime(tab: CronTab, year: int, month: int, day: int, tod: Option<Hms>): (found: Option<int>)
    requires TimeColumns(tab) && 1 <= month <= 12
    requires tod.Some? ==> ValidHms(tod.value)
  {
    LastTimeSelected(tab, tod);
    var hms := LastTime(tab, tod);
    if hms.None? then None else Some(DayAt(year, month, day) + TimeOfDay(hms.value))
  }

  lemma FirstOfDay(tab: CronTab, year: int, month: int, day: int, tod: Option<Hms>)
    requires TimeColumns(tab) && 1 <= month <= 12 && 1 <= day <= MonthEnd(year, month)
    requires tod.Some? ==> ValidHms(tod.value)
    requires DaySelected(tab, Date(year, month, day))
    ensures FirstIn(tab, Floor(year, month, day, tod), DayAt(year, month, day + 1),
                    AtFirstTime(tab, year, month, day, tod))
  {
    hide Fires;
    hide DaySelected;
    hide MonthStart;
    hide FirstTime;
    hide TimeOfDay;
    hide Earlier;
    hide TimeSelected;
    hide TimeColumns;
    FirstTimeSelected(tab, tod);
    var hms := FirstTime(tab, tod);
    var lo := if tod.Some? then TimeOfDay(tod.value) else 0;
    var hi := if hms.Some? then TimeOfDay(hms.value) else DAY;
    if tod.Some? && hms.Some? {
      EarlierIsLess(hms.value, tod.value);
    }
    forall t | ValidHms(t) && TimeSelected(tab, t)
      ensures TimeOfDay(t) < lo || hi <= TimeOfDay(t)
    {
      FirstTimeIsLeast(tab, tod, t);
      if tod.Some? { EarlierIsLess(t, tod.value); }
      if hms.Some? { EarlierIsLess(t, hms.value); }
    }
    QuietTimes(tab, MonthStart(year, month) + day - 1, lo, hi);
    if hms.Some? {
      FiresAt(tab, year, month, day, hms.value);
    }
  }

  lemma LastOfDay(tab: CronTab, year: int, month: int, day: int, tod: Option<Hms>)
    requires TimeColumns(tab) && 1 <= month <= 12 && 1 <= day <= MonthEnd(year, month)
    requires tod.Some? ==> ValidHms(tod.value)
    requires DaySelected(tab, Date(year, month, day))
    ensures LastIn(tab, DayAt(year, month, day), Ceiling(year, month, day, tod), AtLastTime(tab, year, month, day, tod))
  {
    hide Fires;
    hide DaySelected;
    hide MonthStart;
    hide LastTime;
    hide TimeOfDay;
    hide Earlier;
    hide TimeSelected;
    hide TimeColumns;
    LastTimeSelected(tab, tod);
    var hms := LastTime(tab, tod);
    var lo := if hms.Some? then TimeOfDay(hms.value) + 1 else 0;
    var hi := if tod.Some? then TimeOfDay(tod.value) + 1 else DAY;
    if tod.Some? && hms.Some? {
      EarlierIsLess(tod.value, hms.value);
    }
    forall t | ValidHms(t) && TimeSelected(tab, t)
      ensures TimeOfDay(t) < lo || hi <= TimeOfDay(t)
    {
      LastTimeIsGreatest(tab, tod, t);
      if tod.Some? { EarlierIsLess(tod.value, t); }
      if hms.Some? { EarlierIsLess(hms.value, t); }
    }
    QuietTimes(tab, MonthStart(year, month) + day - 1, lo, hi);
    if hms.Some? {
      FiresAt(tab, year, month, day, hms.value);
    }
  }

  lemma UnselectedDay(tab: CronTab, year: int, month: int, day: int)
    requires 1 <= month <= 12 && 1 <= day <= MonthEnd(year, month)
    requires !DaySelected(tab, Date(year, month, day))
    ensures Quiet(tab, DayAt(year, month, day), DayAt(year, month, day + 1))
  {
    hide DaySelected;
    hide Fires;
    hide MonthStart;
    DateOfOrdinal(Date(year, month, day));
    QuietDay(tab, Ordinal(Date(year, month, day)));
  }

  /** The columns above the day admit this month. */
  predicate MonthOpen(tab: CronTab, year: int, month: int) {
    1 <= month <= 12 && month in tab.months && (tab.years.Some? ==> year in tab.years.value)
  }

  /** On plain day columns, days missing from the day-of-month list are quiet. */
  lemma UnlistedDays(tab: CronTab, year: int, month: int, a: int, b: int)
    requires ValidTab(tab) && tab.DaysPlain() && 1 <= month <= 12 && 1 <= a <= b <= MonthEnd(year, month) + 1
    requires forall k :: a <= k < b ==> k !in tab.dom
    ensures Quiet(tab, DayAt(year, month, a), DayAt(year, month, b))
  {
    hide MonthStart;
    hide DomSelects;
    hide DowSelects;
    hide DateOf;
    hide ValidTab;
    forall m | DayAt(year, month, a) <= m < DayAt(year, month, b)
      ensures !Fires(tab, m)
    {
      MonthStep(year, month);
      DateInMonth(year, month, DayOf(m));
      PlainDays(tab, LabelDate(m));
    }
  }

  lemma TabFacts(tab: CronTab)
    requires ValidTab(tab)
    ensures TimeColumns(tab)
    ensures forall v :: v in tab.domNearest ==> v >= 1
    ensures Ascending(tab.monthsSorted) && tab.monthsSorted != []
    ensures tab.years.Some? ==> Ascending(tab.yearsSorted)
  {}

  lemma DomFacts(tab: CronTab)
    requires ValidTab(tab)
    ensures Column(tab.dom, tab.domSorted, 1, 31)
  {}

  /** No listed day lies between two neighbours of the list. */
  lemma NoneBetween(tab: CronTab, i: int, a: int, b: int)
    requires Column(tab.dom, tab.domSorted, 1, 31) && 0 <= i <= |tab.domSorted|
    requires (i > 0 ==> tab.domSorted[i - 1] < a) && (i < |tab.domSorted| ==> b <= tab.domSorted[i])
    ensures forall k :: a <= k < b ==> k !in tab.dom
  {
    assert forall k :: k in tab.dom ==> k in tab.domSorted;
  }

  lemma DowStep(first: int, day: int)
    ensures DowIn(first, day + 1) == if DowIn(first, day) < 6 then DowIn(first, day) + 1 else 0
  {}

  /** From midnight, or to the end of the day, some time always matches. */
  lemma FirstAlways(tab: CronTab, year: int, month: int, day: int)
    requires TimeColumns(tab) && 1 <= month <= 12
    ensures AtFirstTime(tab, year, month, day, None).Some? && AtLastTime(tab, year, month, day, None).Some?
  {}

  lemma ListedDay(tab: CronTab, year: int, month: int, day: int)
    requires ValidTab(tab) && tab.DaysPlain() && tab.DowFree() && MonthOpen(tab, year, month)
    requires 1 <= day <= MonthEnd(year, month) && day in tab.dom
    ensures DaySelected(tab, Date(year, month, day))
  {
    hide DomSelects;
    hide DowSelects;
    PlainDays(tab, Date(year, month, day));
  }

  /** A quiet stretch followed by a scan is a scan of both. */
  lemma Extend(tab: CronTab, start: int, mid: int, to: int, end: int, found: Option<int>)
    requires start <= mid && to <= end && Quiet(tab, start, mid) && FirstIn(tab, mid, to, found)
    ensures found.Some? ==> FirstIn(tab, start, end, found)
    ensures found.None? ==> Quiet(tab, start, to)
  {
    hide Fires;
  }

  /** A backward scan followed by a quiet stretch is a backward scan of both. */
  lemma ExtendBack(tab: CronTab, begin: int, from: int, mid: int, start: int, found: Option<int>)
    requires begin <= from && mid <= start && Quiet(tab, mid, start) && LastIn(tab, from, mid, found)
    ensures found.Some? ==> LastIn(tab, begin, start, found)
    ensures found.None? ==> Quiet(tab, from, start)
  {
    hide Fires;
  }

  lemma QuietJoin(tab: CronTab, a: int, b: int, c: int, d: int)
    requires Quiet(tab, a, b) && Quiet(tab, c, d) && c <= b
    ensures Quiet(tab, a, d)
  {
    hide Fires;
  }

  lemma NothingFound(tab: CronTab, a: int, b: int)
    requires Quiet(tab, a, b)
    ensures FirstIn(tab, a, b, None) && LastIn(tab, a, b, None)
  {}

  lemma QuietNothing(tab: CronTab, a: int)
    ensures Quiet(tab, a, a)
  {}

  // ----- forward -----

  /** Day scan on the L, W and # families. */
  method NextMarkedDay(tab: CronTab, year: int, month: int, from: int, floor: Option<Hms>) returns (found: Option<int>)
    requires ValidTab(tab) && MonthOpen(tab, year, month) && 1 <= from <= MonthEnd(year, month)
    requires floor.Some? ==> ValidHms(floor.value)
    ensures FirstIn(tab, Floor(year, month, from, floor), DayStart(year, month + 1), found)
  {
    TabFacts(tab);
    hide Quiet;
    hide FirstIn;
    hide MonthStart;
    hide DomSelects;
    hide DowSelects;
    hide TimeColumns;
    hide TimeOfDay;
    hide MonthEnd;
    hide AtFirstTime;
    hide ValidTab;
    hide DowIn;
    var monthEnd := MonthEnd(year, month);
    MonthStep(year, month);
    var day, tod := from, floor;
    ghost var first := MonthStart(year, month);
    ghost var start := Floor(year, month, from, floor);
    var dow := DowIn(MonthStart(year, month), day);
    QuietNothing(tab, start);
    while day <= monthEnd
      invariant from <= day <= monthEnd + 1
      invariant dow == DowIn(first, day)
      invariant tod.Some? ==> ValidHms(tod.value)
      invariant start <= Floor(year, month, day, tod)
      invariant day == monthEnd + 1 ==> tod.None?
      invariant Quiet(tab, start, Floor(year, month, day, tod))
    {
      ghost var at := Floor(year, month, day, tod);
      var d := Date(year, month, day);
      DomMatchesIsSelects(tab, d);
      DowMatchesIsSelects(tab, d);
      if DomMatches(tab, year, month, day, monthEnd) && DowMatches(tab, dow, day, monthEnd) {
        FirstOfDay(tab, year, month, day, tod);
        found := AtFirstTime(tab, year, month, day, tod);
        Extend(tab, start, at, DayAt(year, month, day + 1), DayStart(year, month + 1), found);
        if found.Some? {
          return;
        }
      } else {
        UnselectedDay(tab, year, month, day);
        QuietJoin(tab, start, at, DayAt(year, month, day), DayAt(year, month, day + 1));
      }
      DowStep(first, day);
      day := day + 1;
      dow := if dow < 6 then dow + 1 else 0;
      tod := None;
    }
    NothingFound(tab, start, DayStart(year, month + 1));
    found := None;
  }

  /** First listed day at or past an index that falls inside the month, else the day after its end. */
  function ListedOrEnd(tab: CronTab, year: int, month: int, index: nat): int
    requires index <= |tab.domSorted| && 1 <= month <= 12
  {
    if index == |tab.domSorted| || tab.domSorted[index] > MonthEnd(year, month) then MonthEnd(year, month) + 1
    else tab.domSorted[index]
  }

  lemma QuietBelow(tab: CronTab, year: int, month: int, index: nat, limit: int, start: int)
    requires ValidTab(tab) && tab.DaysPlain() && 1 <= month <= 12 && index <= |tab.domSorted|
    requires 1 <= limit <= ListedOrEnd(tab, year, month, index) && (index > 0 ==> tab.domSorted[index - 1] < limit)
    requires Quiet(tab, start, DayAt(year, month, limit))
    ensures Quiet(tab, start, DayAt(year, month, ListedOrEnd(tab, year, month, index)))
  {
    hide Quiet;
    hide MonthStart;
    hide MonthEnd;
    DomFacts(tab);
    hide ValidTab;
    var upto := ListedOrEnd(tab, year, month, index);
    NoneBetween(tab, index, limit, upto);
    UnlistedDays(tab, year, month, limit, upto);
    QuietJoin(tab, start, DayAt(year, month, limit), DayAt(year, month, limit), DayAt(year, month, upto));
  }

  /** The first list entry at or past `index`, at its earliest time. */
  method NextListedFrom(tab: CronTab, year: int, month: int, index: nat, ghost limit: int, ghost start: int)
      returns (found: Option<int>)
    requires ValidTab(tab) && tab.DaysPlain() && tab.DowFree() && MonthOpen(tab, year, month)
    requires index <= |tab.domSorted| && 1 <= limit <= ListedOrEnd(tab, year, month, index)
    requires index > 0 ==> tab.domSorted[index - 1] < limit
    requires start <= DayAt(year, month, ListedOrEnd(tab, year, month, index))
    requires Quiet(tab, start, DayAt(year, month, limit))
    ensures FirstIn(tab, start, DayStart(year, month + 1), found)
  {
    hide Quiet;
    hide FirstIn;
    hide MonthStart;
    hide DaySelected;
    hide TimeColumns;
    hide AtFirstTime;
    hide MonthEnd;
    hide ValidTab;
    QuietBelow(tab, year, month, index, limit, start);
    MonthStep(year, month);
    ghost var end := DayStart(year, month + 1);
    if index == |tab.domSorted| || tab.domSorted[index] > MonthEnd(year, month) {
      NothingFound(tab, start, end);
      return None;
    }
    TabFacts(tab);
    DomFacts(tab);
    var first := tab.domSorted[index];
    assert first in tab.domSorted;
    ListedDay(tab, year, month, first);
    FirstOfDay(tab, year, month, first, None);
    found := AtFirstTime(tab, year, month, first, None);
    FirstAlways(tab, year, month, first);
    Extend(tab, start, DayAt(year, month, first), DayAt(year, month, first + 1), end, found);
  }

  /** With every weekday admitted, two candidates from the day-of-month list. */
  method NextListedDay(tab: CronTab, year: int, month: int, from: int, floor: Option<Hms>) returns (found: Option<int>)
    requires ValidTab(tab) && tab.DaysPlain() && tab.DowFree()
    requires MonthOpen(tab, year, month) && 1 <= from <= MonthEnd(year, month)
    requires floor.Some? ==> ValidHms(floor.value)
    ensures FirstIn(tab, Floor(year, month, from, floor), DayStart(year, month + 1), found)
  {
    hide FirstIn;
    hide MonthStart;
    hide DaySelected;
    hide TimeColumns;
    hide TimeOfDay;
    hide MonthEnd;
    hide AtFirstTime;
    hide BisectLeft;
    TabFacts(tab);
    DomFacts(tab);
    hide ValidTab;
    ghost var start := Floor(year, month, from, floor);
    var listed := tab.domSorted;
    var index := BisectLeft(listed, from);
    if index == |listed| || listed[index] > from {
      found := NextListedFrom(tab, year, month, index, from, start);
      return;
    }
    hide Quiet;
    assert listed[index] in tab.dom;
    ListedDay(tab, year, month, from);
    FirstOfDay(tab, year, month, from, floor);
    found := AtFirstTime(tab, year, month, from, floor);
    QuietNothing(tab, start);
    MonthStep(year, month);
    Extend(tab, start, start, DayAt(year, month, from + 1), DayStart(year, month + 1), found);
    if found.None? {
      found := NextListedFrom(tab, year, month, index + 1, from + 1, start);
    }
  }

  /** Day scan when both day columns are plain value sets. */
  method NextPlainDay(tab: CronTab, year: int, month: int, from: int, floor: Option<Hms>) returns (found: Option<int>)
    requires ValidTab(tab) && tab.DaysPlain() && MonthOpen(tab, year, month) && 1 <= from <= MonthEnd(year, month)
    requires floor.Some? ==> ValidHms(floor.value)
    ensures FirstIn(tab, Floor(year, month, from, floor), DayStart(year, month + 1), found)
  {
    TabFacts(tab);
    hide Quiet;
    hide FirstIn;
    hide MonthStart;
    hide DomSelects;
    hide DowSelects;
    hide TimeColumns;
    hide TimeOfDay;
    hide MonthEnd;
    hide AtFirstTime;
    hide ValidTab;
    hide DowIn;
    if tab.DowFree() {
      found := NextListedDay(tab, year, month, from, floor);
      return;
    }
    var monthEnd := MonthEnd(year, month);
    MonthStep(year, month);
    var day, tod := from, floor;
    ghost var first := MonthStart(year, month);
    ghost var start := Floor(year, month, from, floor);
    var dow := DowIn(MonthStart(year, month), day);
    QuietNothing(tab, start);
    while day <= monthEnd
      invariant from <= day <= monthEnd + 1
      invariant dow == DowIn(first, day)
      invariant tod.Some? ==> ValidHms(tod.value)
      invariant start <= Floor(year, month, day, tod)
      invariant day == monthEnd + 1 ==> tod.None?
      invariant Quiet(tab, start, Floor(year, month, day, tod))
    {
      ghost var at := Floor(year, month, day, tod);
      PlainDays(tab, Date(year, month, day));
      if day in tab.dom && dow in tab.dow {
        FirstOfDay(tab, year, month, day, tod);
        found := AtFirstTime(tab, year, month, day, tod);
        Extend(tab, start, at, DayAt(year, month, day + 1), DayStart(year, month + 1), found);
        if found.Some? {
          return;
        }
      } else {
        UnselectedDay(tab, year, month, day);
        QuietJoin(tab, start, at, DayAt(year, month, day), DayAt(year, month, day + 1));
      }
      DowStep(first, day);
      day := day + 1;
      dow := if dow < 6 then dow + 1 else 0;
      tod := None;
    }
    NothingFound(tab, start, DayStart(year, month + 1));
    found := None;
  }

  lemma FloorOfBase(base: int)
    ensures var d := LabelDate(base);
            Floor(d.year, d.month, d.day, Some(LabelTime(base))) == base
  {
    hide MonthStart;
    hide DateOf;
    LabelWhole(base);
    assert DayAt(LabelDate(base).year, LabelDate(base).month, LabelDate(base).day) == Ordinal(LabelDate(base)) * DAY;
  }

  lemma QuietToHorizon(tab: CronTab, seed: int)
    requires Quiet(tab, seed + 1, DayStart(YEAR_HORIZON + 1, 1))
    ensures IsNextCivil(tab, seed, None)
  {
    hide Fires;
    hide Year;
    hide DayStart;
    forall m | m > seed && Year(m) <= YEAR_HORIZON
      ensures !Fires(tab, m)
    {
      YearBounds(m, YEAR_HORIZON + 1);
    }
  }

  lemma FoundInHorizon(tab: CronTab, seed: int, year: int, month: int, from: int, found: int)
    requires 1 <= month <= 12 && year <= YEAR_HORIZON && seed < from
    requires Quiet(tab, seed + 1, from) && FirstIn(tab, from, DayStart(year, month + 1), Some(found))
    ensures IsNextCivil(tab, seed, Some(found))
  {
    hide Fires;
    hide Year;
    hide MonthStart;
    MonthsAscend(year, month + 1, 13);
    YearStep(year);
    YearBounds(found, year + 1);
  }

  /** Skipping to the next listed year passes no match. */
  lemma YearSkip(tab: CronTab, year: int, month: int, day: int, tod: Option<Hms>, next: Option<int>)
    requires ValidTab(tab) && tab.years.Some? && year !in tab.years.value && year <= YEAR_HORIZON
    requires 1 <= month <= 12 && 1 <= day <= MonthEnd(year, month) && (tod.Some? ==> ValidHms(tod.value))
    requires next == NextIn(tab.yearsSorted, year)
    ensures next.Some? ==> year < next.value <= YEAR_HORIZON
    ensures var until := if next.Some? then next.value else YEAR_HORIZON + 1;
            && Quiet(tab, Floor(year, month, day, tod), DayStart(until, 1))
            && Floor(year, month, day, tod) <= DayStart(until, 1)
  {
    hide Fires;
    hide MonthStart;
    hide DateOf;
    hide TimeOfDay;
    hide NextIn;
    var at := Floor(year, month, day, tod);
    var until := if next.Some? then next.value else YEAR_HORIZON + 1;
    DayReads(year, month, day, at - DayAt(year, month, day));
    assert Year(at) == year;
    YearBounds(at, until);
    assert forall y :: y in tab.years.value ==> y in tab.yearsSorted;
    QuietYears(tab, at, until);
  }

  /** Skipping to the next listed month, or to the next year's first, passes no match. */
  lemma MonthSkip(tab: CronTab, year: int, month: int, day: int, tod: Option<Hms>, next: Option<int>)
    requires ValidTab(tab) && month !in tab.months
    requires 1 <= month <= 12 && 1 <= day <= MonthEnd(year, month) && (tod.Some? ==> ValidHms(tod.value))
    requires next == NextIn(tab.monthsSorted, month)
    ensures var y, m := if next.Some? then year else year + 1, if next.Some? then next.value else tab.monthsSorted[0];
            && 1 <= m <= 12 && (next.Some? ==> month < m)
            && Quiet(tab, Floor(year, month, day, tod), DayStart(y, m))
            && Floor(year, month, day, tod) <= DayStart(y, m)
  {
    hide Fires;
    hide MonthStart;
    hide DateOf;
    hide TimeOfDay;
    hide NextIn;
    var at := Floor(year, month, day, tod);
    DayReads(year, month, day, at - DayAt(year, month, day));
    var until := if next.Some? then next.value else 13;
    assert forall k :: k in tab.months ==> k in tab.monthsSorted;
    QuietMonths(tab, at, until);
    MonthBounds(at, year, until);
    if next.None? {
      YearStep(year);
      QuietLead(tab, year + 1, tab.monthsSorted[0]);
    }
  }

  /** The months before a year's first listed month are quiet. */
  lemma QuietLead(tab: CronTab, year: int, first: int)
    requires 1 <= first <= 12 && forall k :: k in tab.months ==> first <= k
    ensures DayStart(year, 1) <= DayStart(year, first) && Quiet(tab, DayStart(year, 1), DayStart(year, first))
  {
    hide Fires;
    hide MonthStart;
    hide DateOf;
    hide TimeOfDay;
    var at := Floor(year, 1, 1, None);
    DayReads(year, 1, 1, 0);
    MonthsAscend(year, 1, first);
    QuietMonths(tab, at, first);
  }

  /** The last day of a month is followed by the first of the next. */
  lemma MonthTurn(year: int, month: int, day: int)
    requires 1 <= month <= 12 && 1 <= day <= MonthEnd(year, month)
    ensures DayAt(year, month, day + 1) <= DayStart(year, month + 1)
    ensures DayStart(year, month + 1) == if month == 12 then DayAt(year + 1, 1, 1) else DayAt(year, month + 1, 1)
  {
    hide MonthStart;
    MonthStep(year, month);
    YearStep(year);
  }

  lemma PastHorizon(tab: CronTab, seed: int, year: int, month: int, day: int, tod: Option<Hms>)
    requires 1 <= month <= 12 && 1 <= day <= MonthEnd(year, month) && (tod.Some? ==> ValidHms(tod.value))
    requires year > YEAR_HORIZON && Quiet(tab, seed + 1, Floor(year, month, day, tod))
    ensures IsNextCivil(tab, seed, None)
  {
    hide Fires;
    hide MonthStart;
    hide DateOf;
    hide TimeOfDay;
    hide IsNextCivil;
    var at := Floor(year, month, day, tod);
    DayReads(year, month, day, at - DayAt(year, month, day));
    assert Year(at) == year;
    YearBounds(at, YEAR_HORIZON + 1);
    QuietToHorizon(tab, seed);
  }

  /** Smallest whole-second match strictly after `civil`, up to the horizon. */
  method NextCivil(tab: CronTab, civil: int) returns (r: Option<int>)
    requires ValidTab(tab)
    ensures IsNextCivil(tab, civil, r)
  {
    hide Quiet;
    hide FirstIn;
    hide ValidTab;
    hide MonthEnd;
    hide TimeOfDay;
    hide Year;
    hide MonthStart;
    hide DateOf;
    hide IsNextCivil;
    hide NextIn;
    var base := civil + 1;
    var d := LabelDate(base);
    var year, month, day := d.year, d.month, d.day;
    var tod := Some(LabelTime(base));
    FloorOfBase(base);
    TabFacts(tab);
    QuietNothing(tab, base);
    while year <= YEAR_HORIZON
      invariant 1 <= month <= 12 && 1 <= day <= MonthEnd(year, month)
      invariant tod.Some? ==> ValidHms(tod.value)
      invariant base <= Floor(year, month, day, tod)
      invariant Quiet(tab, base, Floor(year, month, day, tod))
      decreases YEAR_HORIZON - year, 12 - month
    {
      ghost var at := Floor(year, month, day, tod);
      if tab.years.Some? && year !in tab.years.value {
        var next := NextIn(tab.yearsSorted, year);
        YearSkip(tab, year, month, day, tod, next);
        if next.None? {
          QuietJoin(tab, base, at, at, DayStart(YEAR_HORIZON + 1, 1));
          QuietToHorizon(tab, civil);
          return None;
        }
        QuietJoin(tab, base, at, at, DayStart(next.value, 1));
        year, month, day, tod := next.value, 1, 1, None;
        continue;
      }
      if month !in tab.months {
        var next := NextIn(tab.monthsSorted, month);
        MonthSkip(tab, year, month, day, tod, next);
        if next.None? {
          year, month := year + 1, tab.monthsSorted[0];
        } else {
          month := next.value;
        }
        day, tod := 1, None;
        QuietJoin(tab, base, at, at, DayStart(year, month));
        continue;
      }
      if tab.DaysPlain() {
        r := NextPlainDay(tab, year, month, day, tod);
      } else {
        r := NextMarkedDay(tab, year, month, day, tod);
      }
      if r.Some? {
        FoundInHorizon(tab, civil, year, month, at, r.value);
        return;
      }
      Extend(tab, base, at, DayStart(year, month + 1), DayStart(year, month + 1), r);
      MonthTurn(year, month, day);
      month := month + 1;
      day, tod := 1, None;
      if month > 12 {
        year, month := year + 1, 1;
      }
    }
    PastHorizon(tab, civil, year, month, day, tod);
    r := None;
  }

  // ----- backward -----

  /** Backward day scan on the L, W and # families. */
  method PrevMarkedDay(tab: CronTab, year: int, month: int, from: int, ceiling: Option<Hms>)
      returns (found: Option<int>)
    requires ValidTab(tab) && MonthOpen(tab, year, month) && 1 <= from <= MonthEnd(year, month)
    requires ceiling.Some? ==> ValidHms(ceiling.value)
    ensures LastIn(tab, DayStart(year, month), Ceiling(year, month, from, ceiling), found)
  {
    TabFacts(tab);
    hide Quiet;
    hide LastIn;
    hide MonthStart;
    hide DomSelects;
    hide DowSelects;
    hide TimeColumns;
    hide TimeOfDay;
    hide MonthEnd;
    hide AtLastTime;
    hide ValidTab;
    hide DowIn;
    var monthEnd := MonthEnd(year, month);
    var day, tod := from, ceiling;
    ghost var first := MonthStart(year, month);
    ghost var start := Ceiling(year, month, from, ceiling);
    var dow := DowIn(MonthStart(year, month), day);
    QuietNothing(tab, start);
    while day >= 1
      invariant 0 <= day <= from
      invariant dow == DowIn(first, day)
      invariant tod.Some? ==> ValidHms(tod.value)
      invariant Ceiling(year, month, day, tod) <= start
      invariant day == 0 ==> tod.None?
      invariant Quiet(tab, Ceiling(year, month, day, tod), start)
    {
      ghost var at := Ceiling(year, month, day, tod);
      var d := Date(year, month, day);
      DomMatchesIsSelects(tab, d);
      DowMatchesIsSelects(tab, d);
      if DomMatches(tab, year, month, day, monthEnd) && DowMatches(tab, dow, day, monthEnd) {
        LastOfDay(tab, year, month, day, tod);
        found := AtLastTime(tab, year, month, day, tod);
        ExtendBack(tab, DayStart(year, month), DayAt(year, month, day), at, start, found);
        if found.Some? {
          return;
        }
      } else {
        UnselectedDay(tab, year, month, day);
        QuietJoin(tab, DayAt(year, month, day), DayAt(year, month, day + 1), at, start);
      }
      DowStep(first, day - 1);
      day := day - 1;
      dow := if dow > 0 then dow - 1 else 6;
      tod := None;
    }
    NothingFound(tab, DayStart(year, month), start);
    found := None;
  }

  /** The days between a list entry and `limit` are quiet, and so is everything on to `start`. */
  lemma QuietAbove(tab: CronTab, year: int, month: int, index: int, limit: int, start: int)
    requires ValidTab(tab) && tab.DaysPlain() && 1 <= month <= 12 && 1 <= limit <= MonthEnd(year, month) + 1
    requires -1 <= index < |tab.domSorted| && (index >= 0 ==> 0 < tab.domSorted[index] < limit)
    requires index + 1 < |tab.domSorted| ==> limit <= tab.domSorted[index + 1]
    requires Quiet(tab, DayAt(year, month, limit), start)
    ensures Quiet(tab, DayAt(year, month, if index < 0 then 1 else tab.domSorted[index] + 1), start)
  {
    hide Quiet;
    hide MonthStart;
    hide MonthEnd;
    DomFacts(tab);
    hide ValidTab;
    var down := if index < 0 then 1 else tab.domSorted[index] + 1;
    NoneBetween(tab, index + 1, down, limit);
    UnlistedDays(tab, year, month, down, limit);
    QuietJoin(tab, DayAt(year, month, down), DayAt(year, month, limit), DayAt(year, month, limit), start);
  }

  /** The last list entry at or below `index`, at its latest time. */
  method PrevListedFrom(tab: CronTab, year: int, month: int, index: int, ghost limit: int, ghost start: int)
      returns (found: Option<int>)
    requires ValidTab(tab) && tab.DaysPlain() && tab.DowFree() && MonthOpen(tab, year, month)
    requires 1 <= limit <= MonthEnd(year, month) + 1
    requires -1 <= index < |tab.domSorted|
    requires index >= 0 ==> 0 < tab.domSorted[index] < limit && DayAt(year, month, tab.domSorted[index] + 1) <= start
    requires index + 1 < |tab.domSorted| ==> limit <= tab.domSorted[index + 1]
    requires Quiet(tab, DayAt(year, month, limit), start)
    ensures LastIn(tab, DayStart(year, month), start, found)
  {
    hide Quiet;
    hide LastIn;
    hide MonthStart;
    hide DaySelected;
    hide TimeColumns;
    hide AtLastTime;
    hide MonthEnd;
    QuietAbove(tab, year, month, index, limit, start);
    if index < 0 {
      NothingFound(tab, DayStart(year, month), start);
      return None;
    }
    TabFacts(tab);
    DomFacts(tab);
    var last := tab.domSorted[index];
    assert last in tab.domSorted;
    hide ValidTab;
    ListedDay(tab, year, month, last);
    LastOfDay(tab, year, month, last, None);
    found := AtLastTime(tab, year, month, last, None);
    FirstAlways(tab, year, month, last);
    ExtendBack(tab, DayStart(year, month), DayAt(year, month, last), DayAt(year, month, last + 1), start, found);
  }

  /** With every weekday admitted, two candidates from the day-of-month list. */
  method PrevListedDay(tab: CronTab, year: int, month: int, from: int, ceiling: Option<Hms>)
      returns (found: Option<int>)
    requires ValidTab(tab) && tab.DaysPlain() && tab.DowFree()
    requires MonthOpen(tab, year, month) && 1 <= from <= MonthEnd(year, month)
    requires ceiling.Some? ==> ValidHms(ceiling.value)
    ensures LastIn(tab, DayStart(year, month), Ceiling(year, month, from, ceiling), found)
  {
    hide LastIn;
    hide MonthStart;
    hide DaySelected;
    hide TimeColumns;
    hide TimeOfDay;
    hide MonthEnd;
    hide AtLastTime;
    hide BisectRight;
    TabFacts(tab);
    DomFacts(tab);
    hide ValidTab;
    ghost var start := Ceiling(year, month, from, ceiling);
    var listed := tab.domSorted;
    var index := BisectRight(listed, from) - 1;
    assert forall i :: 0 <= i < |listed| ==> listed[i] in tab.dom;
    if index < 0 || listed[index] < from {
      found := PrevListedFrom(tab, year, month, index, from + 1, start);
      return;
    }
    hide Quiet;
    ListedDay(tab, year, month, from);
    LastOfDay(tab, year, month, from, ceiling);
    found := AtLastTime(tab, year, month, from, ceiling);
    QuietNothing(tab, start);
    ExtendBack(tab, DayStart(year, month), DayAt(year, month, from), start, start, found);
    if found.None? {
      found := PrevListedFrom(tab, year, month, index - 1, from, start);
    }
  }

  /** Backward day scan when both day columns are plain value sets. */
  method PrevPlainDay(tab: CronTab, year: int, month: int, from: int, ceiling: Option<Hms>) returns (found: Option<int>)
    requires ValidTab(tab) && tab.DaysPlain() && MonthOpen(tab, year, month) && 1 <= from <= MonthEnd(year, month)
    requires ceiling.Some? ==> ValidHms(ceiling.value)
    ensures LastIn(tab, DayStart(year, month), Ceiling(year, month, from, ceiling), found)
  {
    TabFacts(tab);
    hide Quiet;
    hide LastIn;
    hide MonthStart;
    hide DomSelects;
    hide DowSelects;
    hide TimeColumns;
    hide TimeOfDay;
    hide MonthEnd;
    hide AtLastTime;
    hide ValidTab;
    hide DowIn;
    if tab.DowFree() {
      found := PrevListedDay(tab, year, month, from, ceiling);
      return;
    }
    var day, tod := from, ceiling;
    ghost var first := MonthStart(year, month);
    ghost var start := Ceiling(year, month, from, ceiling);
    var dow := DowIn(MonthStart(year, month), day);
    QuietNothing(tab, start);
    while day >= 1
      invariant 0 <= day <= from
      invariant dow == DowIn(first, day)
      invariant tod.Some? ==> ValidHms(tod.value)
      invariant Ceiling(year, month, day, tod) <= start
      invariant day == 0 ==> tod.None?
      invariant Quiet(tab, Ceiling(year, month, day, tod), start)
    {
      ghost var at := Ceiling(year, month, day, tod);
      PlainDays(tab, Date(year, month, day));
      if day in tab.dom && dow in tab.dow {
        LastOfDay(tab, year, month, day, tod);
        found := AtLastTime(tab, year, month, day, tod);
        ExtendBack(tab, DayStart(year, month), DayAt(year, month, day), at, start, found);
        if found.Some? {
          return;
        }
      } else {
        UnselectedDay(tab, year, month, day);
        QuietJoin(tab, DayAt(year, month, day), DayAt(year, month, day + 1), at, start);
      }
      DowStep(first, day - 1);
      day := day - 1;
      dow := if dow > 0 then dow - 1 else 6;
      tod := None;
    }
    NothingFound(tab, DayStart(year, month), start);
    found := None;
  }

  /** Skipping back to the previous listed year passes no match. */
  lemma YearSkipBack(tab: CronTab, year: int, month: int, day: int, tod: Option<Hms>, prev: Option<int>)
    requires ValidTab(tab) && tab.years.Some? && year !in tab.years.value && year >= YEAR_FLOOR
    requires 1 <= month <= 12 && 1 <= day <= MonthEnd(year, month) && (tod.Some? ==> ValidHms(tod.value))
    requires prev == PrevIn(tab.yearsSorted, year)
    ensures prev.Some? ==> YEAR_FLOOR <= prev.value < year
    ensures var from := if prev.Some? then prev.value + 1 else YEAR_FLOOR;
            && Quiet(tab, DayStart(from, 1), Ceiling(year, month, day, tod))
            && DayStart(from, 1) <= Ceiling(year, month, day, tod)
  {
    hide Fires;
    hide MonthStart;
    hide DateOf;
    hide TimeOfDay;
    hide PrevIn;
    var at := Ceiling(year, month, day, tod);
    var from := if prev.Some? then prev.value + 1 else YEAR_FLOOR;
    DayReads(year, month, day, at - 1 - DayAt(year, month, day));
    assert Year(at - 1) == year;
    YearBounds(at - 1, from);
    assert forall y :: y in tab.years.value ==> y in tab.yearsSorted;
    QuietYearsBack(tab, from, at);
  }

  /** Skipping back to the previous listed month, or the year before's last, passes no match. */
  lemma MonthSkipBack(tab: CronTab, year: int, month: int, day: int, tod: Option<Hms>, prev: Option<int>)
    requires ValidTab(tab) && month !in tab.months
    requires 1 <= month <= 12 && 1 <= day <= MonthEnd(year, month) && (tod.Some? ==> ValidHms(tod.value))
    requires prev == PrevIn(tab.monthsSorted, month)
    ensures var y, m := if prev.Some? then year else year - 1,
                        if prev.Some? then prev.value else tab.monthsSorted[|tab.monthsSorted| - 1];
            && 1 <= m <= 12 && (prev.Some? ==> m < month)
            && Quiet(tab, DayStart(y, m + 1), Ceiling(year, month, day, tod))
            && DayStart(y, m + 1) <= Ceiling(year, month, day, tod)
  {
    hide Fires;
    hide MonthStart;
    hide DateOf;
    hide TimeOfDay;
    hide PrevIn;
    var at := Ceiling(year, month, day, tod);
    DayReads(year, month, day, at - 1 - DayAt(year, month, day));
    var from := if prev.Some? then prev.value + 1 else 1;
    assert forall k :: k in tab.months ==> k in tab.monthsSorted;
    QuietMonthsBack(tab, from, at);
    MonthBounds(at - 1, year, from);
    if prev.None? {
      YearStep(year - 1);
      QuietTail(tab, year - 1, tab.monthsSorted[|tab.monthsSorted| - 1]);
    }
  }

  /** The months after a year's last listed month are quiet. */
  lemma QuietTail(tab: CronTab, year: int, last: int)
    requires 1 <= last <= 12 && forall k :: k in tab.months ==> k <= last
    ensures DayStart(year, last + 1) <= DayStart(year, 13) && Quiet(tab, DayStart(year, last + 1), DayStart(year, 13))
  {
    hide Fires;
    hide MonthStart;
    hide DateOf;
    hide TimeOfDay;
    MonthStep(year, 12);
    assert MonthEnd(year, 12) == 31;
    DayReads(year, 12, 31, DAY - 1);
    MonthsAscend(year, last + 1, 13);
    QuietMonthsBack(tab, last + 1, DayStart(year, 13));
  }

  lemma QuietToFloor(tab: CronTab, seed: int)
    requires Quiet(tab, DayStart(YEAR_FLOOR, 1), seed)
    ensures IsPrevCivil(tab, seed, None)
  {
    hide Fires;
    hide Year;
    hide DayStart;
    forall m | m < seed && Year(m) >= YEAR_FLOOR
      ensures !Fires(tab, m)
    {
      YearBounds(m, YEAR_FLOOR);
    }
  }

  lemma FoundAboveFloor(tab: CronTab, seed: int, year: int, month: int, at: int, found: int)
    requires 1 <= month <= 12 && year >= YEAR_FLOOR && at <= seed
    requires Quiet(tab, at, seed) && LastIn(tab, DayStart(year, month), at, Some(found))
    ensures IsPrevCivil(tab, seed, Some(found))
  {
    hide Fires;
    hide Year;
    hide MonthStart;
    MonthsAscend(year, 1, month);
    YearBounds(found, year);
  }

  lemma BelowFloor(tab: CronTab, seed: int, year: int, month: int, day: int, tod: Option<Hms>)
    requires 1 <= month <= 12 && 1 <= day <= MonthEnd(year, month) && (tod.Some? ==> ValidHms(tod.value))
    requires year < YEAR_FLOOR && Quiet(tab, Ceiling(year, month, day, tod), seed)
    ensures IsPrevCivil(tab, seed, None)
  {
    hide Fires;
    hide MonthStart;
    hide DateOf;
    hide TimeOfDay;
    hide IsPrevCivil;
    var at := Ceiling(year, month, day, tod);
    DayReads(year, month, day, at - 1 - DayAt(year, month, day));
    assert Year(at - 1) == year;
    YearBounds(at - 1, YEAR_FLOOR);
    QuietToFloor(tab, seed);
  }

  lemma CeilingOfBase(base: int)
    ensures var d := LabelDate(base);
            Ceiling(d.year, d.month, d.day, Some(LabelTime(base))) == base + 1
  {
    FloorOfBase(base);
  }

  function Clamped(year: int, month: int, day: int): int
    requires 1 <= month <= 12
  {
    if day > MonthEnd(year, month) then MonthEnd(year, month) else day
  }

  /** Nothing fires from the walk's present ceiling up to the seed. */
  ghost predicate QuietDown(tab: CronTab, year: int, month: int, day: int, tod: Option<Hms>, seed: int) {
    && 1 <= month <= 12 && 1 <= day <= 31 && (tod.Some? ==> ValidHms(tod.value))
    && Ceiling(year, month, Clamped(year, month, day), tod) <= seed
    && Quiet(tab, Ceiling(year, month, Clamped(year, month, day), tod), seed)
  }

  /** The walk enters a month from its end. */
  lemma EnterMonthBack(tab: CronTab, year: int, month: int, seed: int)
    requires 1 <= month <= 12 && DayStart(year, month + 1) <= seed && Quiet(tab, DayStart(year, month + 1), seed)
    ensures QuietDown(tab, year, month, 31, None, seed)
  {
    hide Quiet;
    hide MonthStart;
    MonthStep(year, month);
  }

  lemma SkipYearsBack(tab: CronTab, year: int, month: int, day: int, tod: Option<Hms>, seed: int, prev: Option<int>)
    requires ValidTab(tab) && tab.years.Some? && year !in tab.years.value && year >= YEAR_FLOOR
    requires QuietDown(tab, year, month, day, tod, seed) && prev == PrevIn(tab.yearsSorted, year)
    ensures prev.None? ==> IsPrevCivil(tab, seed, None)
    ensures prev.Some? ==> prev.value < year && QuietDown(tab, prev.value, 12, 31, None, seed)
  {
    hide Quiet;
    hide MonthStart;
    hide PrevIn;
    hide ValidTab;
    hide IsPrevCivil;
    var at := Ceiling(year, month, Clamped(year, month, day), tod);
    YearSkipBack(tab, year, month, Clamped(year, month, day), tod, prev);
    QuietJoin(tab, DayStart(if prev.Some? then prev.value + 1 else YEAR_FLOOR, 1), at, at, seed);
    if prev.None? {
      QuietToFloor(tab, seed);
    } else {
      YearStep(prev.value);
      EnterMonthBack(tab, prev.value, 12, seed);
    }
  }

  lemma SkipMonthsBack(tab: CronTab, year: int, month: int, day: int, tod: Option<Hms>, seed: int, prev: Option<int>)
    requires ValidTab(tab) && month !in tab.months && tab.monthsSorted != []
    requires QuietDown(tab, year, month, day, tod, seed) && prev == PrevIn(tab.monthsSorted, month)
    ensures prev.Some? ==> prev.value < month && QuietDown(tab, year, prev.value, 31, None, seed)
    ensures prev.None? ==> QuietDown(tab, year - 1, tab.monthsSorted[|tab.monthsSorted| - 1], 31, None, seed)
  {
    hide Quiet;
    hide MonthStart;
    hide PrevIn;
    hide ValidTab;
    var at := Ceiling(year, month, Clamped(year, month, day), tod);
    MonthSkipBack(tab, year, month, Clamped(year, month, day), tod, prev);
    var y, m := if prev.Some? then year else year - 1,
                if prev.Some? then prev.value else tab.monthsSorted[|tab.monthsSorted| - 1];
    QuietJoin(tab, DayStart(y, m + 1), at, at, seed);
    EnterMonthBack(tab, y, m, seed);
  }

  /** A month found silent leads to the month before. */
  lemma LeaveMonthBack(tab: CronTab, year: int, month: int, day: int, tod: Option<Hms>, seed: int)
    requires QuietDown(tab, year, month, day, tod, seed)
    requires LastIn(tab, DayStart(year, month), Ceiling(year, month, Clamped(year, month, day), tod), None)
    ensures if month == 1 then QuietDown(tab, year - 1, 12, 31, None, seed)
            else QuietDown(tab, year, month - 1, 31, None, seed)
  {
    hide Quiet;
    hide MonthStart;
    hide LastIn;
    var at := Ceiling(year, month, Clamped(year, month, day), tod);
    MonthsAscend(year, month, month);
    ExtendBack(tab, DayStart(year, month), DayStart(year, month), at, seed, None);
    if month == 1 {
      YearStep(year - 1);
      EnterMonthBack(tab, year - 1, 12, seed);
    } else {
      EnterMonthBack(tab, year, month - 1, seed);
    }
  }

  lemma FoundBack(tab: CronTab, year: int, month: int, day: int, tod: Option<Hms>, seed: int, found: int)
    requires QuietDown(tab, year, month, day, tod, seed) && year >= YEAR_FLOOR
    requires LastIn(tab, DayStart(year, month), Ceiling(year, month, Clamped(year, month, day), tod), Some(found))
    ensures IsPrevCivil(tab, seed, Some(found))
  {
    hide IsPrevCivil;
    hide LastIn;
    FoundAboveFloor(tab, seed, year, month, Ceiling(year, month, Clamped(year, month, day), tod), found);
  }

  /** The backward scan of one month. */
  method PrevInMonth(tab: CronTab, year: int, month: int, day: int, tod: Option<Hms>) returns (found: Option<int>)
    requires ValidTab(tab) && MonthOpen(tab, year, month) && 1 <= day <= MonthEnd(year, month)
    requires tod.Some? ==> ValidHms(tod.value)
    ensures LastIn(tab, DayStart(year, month), Ceiling(year, month, day, tod), found)
  {
    if tab.DaysPlain() {
      found := PrevPlainDay(tab, year, month, day, tod);
    } else {
      TabFacts(tab);
      found := PrevMarkedDay(tab, year, month, day, tod);
    }
  }

  lemma StartBack(tab: CronTab, base: int)
    ensures var d := LabelDate(base); QuietDown(tab, d.year, d.month, d.day, Some(LabelTime(base)), base + 1)
  {
    hide Quiet;
    hide DateOf;
    CeilingOfBase(base);
    QuietNothing(tab, base + 1);
  }

  lemma EndBack(tab: CronTab, year: int, month: int, day: int, tod: Option<Hms>, seed: int)
    requires QuietDown(tab, year, month, day, tod, seed) && year < YEAR_FLOOR
    ensures IsPrevCivil(tab, seed, None)
  {
    hide IsPrevCivil;
    BelowFloor(tab, seed, year, month, Clamped(year, month, day), tod);
  }

  /**
   Largest whole-second match strictly before the seed, down to the floor; the
   seed is second `civil` plus `micro` millionths.
   */
  method PrevCivil(tab: CronTab, civil: int, micro: nat) returns (r: Option<int>)
    requires ValidTab(tab)
    ensures IsPrevCivil(tab, if micro != 0 then civil + 1 else civil, r)
  {
    hide Quiet;
    hide QuietDown;
    hide LastIn;
    hide ValidTab;
    hide MonthStart;
    hide DateOf;
    hide IsPrevCivil;
    hide PrevIn;
    var base := if micro != 0 then civil else civil - 1;
    var d := LabelDate(base);
    var year, month, day := d.year, d.month, d.day;
    var tod := Some(LabelTime(base));
    StartBack(tab, base);
    TabFacts(tab);
    while year >= YEAR_FLOOR
      invariant QuietDown(tab, year, month, day, tod, base + 1)
      decreases year, month
    {
      DownFacts(tab, year, month, day, tod, base + 1);
      if tab.years.Some? && year !in tab.years.value {
        var prev := PrevIn(tab.yearsSorted, year);
        SkipYearsBack(tab, year, month, day, tod, base + 1, prev);
        if prev.None? {
          return None;
        }
        year, month, day, tod := prev.value, 12, 31, None;
        continue;
      }
      if month !in tab.months {
        var prev := PrevIn(tab.monthsSorted, month);
        SkipMonthsBack(tab, year, month, day, tod, base + 1, prev);
        if prev.None? {
          year, month := year - 1, tab.monthsSorted[|tab.monthsSorted| - 1];
        } else {
          month := prev.value;
        }
        day, tod := 31, None;
        continue;
      }
      r := PrevInMonth(tab, year, month, Clamped(year, month, day), tod);
      if r.Some? {
        FoundBack(tab, year, month, day, tod, base + 1, r.value);
        return;
      }
      LeaveMonthBack(tab, year, month, day, tod, base + 1);
      month := month - 1;
      day, tod := 31, None;
      if month < 1 {
        year, month := year - 1, 12;
      }
    }
    EndBack(tab, year, month, day, tod, base + 1);
    r := None;
  }

  lemma DownFacts(tab: CronTab, year: int, month: int, day: int, tod: Option<Hms>, seed: int)
    requires QuietDown(tab, year, month, day, tod, seed)
    ensures 1 <= month <= 12 && 1 <= day <= 31 && (tod.Some? ==> ValidHms(tod.value))
  {}
}
