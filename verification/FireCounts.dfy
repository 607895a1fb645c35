/**
 What the heatmap's walk counts. A schedule is walked once a minute, its seconds
 pinned to 0, and each cell weighed by how many seconds it fires on. On zones of
 whole minutes that is the number of the schedule's own fires in the cell, but for
 the minutes the window cuts and the minutes a frame's end lists again.
 */
module FireCounts {
  import opened Options
  import opened Calendar
  import opened Schedule
  import opened CivilWalk
  import opened CivilSearch
  import opened Zone
  import opened NextInstant
  import opened Occurrences
  import opened LocalFrames
  import opened Heatmap

  const MINUTE := 60

  /** The minute an instant or a label lies in. */
  function Minute(x: int): int {
    x - x % MINUTE
  }

  /** The last second of that minute. */
  function MinuteEnd(x: int): int {
    Minute(x) + MINUTE - 1
  }

  /** The minute-granular twin of a schedule. */
  function MinuteTab(tab: CronTab): CronTab {
    tab.(seconds := {0}, secondsSorted := [0])
  }

  ghost predicate WholeMinutes(z: Zone) {
    && z.first % MINUTE == 0
    && forall i :: 0 <= i < |z.steps| ==> z.steps[i].at % MINUTE == 0 && z.steps[i].to % MINUTE == 0
  }

  // ----- labels -----

  lemma MinuteTabIsValid(tab: CronTab)
    requires ValidTab(tab)
    ensures ValidTab(MinuteTab(tab))
  {}

  lemma MinuteOfDay(tod: int)
    requires 0 <= tod < DAY
    ensures 0 <= Minute(tod) && tod % MINUTE == HmsOf(tod).second
    ensures HmsOf(Minute(tod)) == HmsOf(tod).(second := 0)
  {
    var t := HmsOf(tod);
    assert TimeOfDay(t.(second := 0)) == Minute(tod);
    HmsOfTime(t.(second := 0));
  }

  lemma MinuteLabel(lab: int)
    ensures LabelDate(Minute(lab)) == LabelDate(lab) && lab % MINUTE == LabelTime(lab).second
    ensures LabelTime(Minute(lab)) == LabelTime(lab).(second := 0)
  {
    hide DateOf;
    hide HmsOf;
    var day, tod := DayOf(lab), TodOf(lab);
    MinuteOfDay(tod);
    SplitMinute(lab, day, tod);
    LabelParts(day, Minute(tod));
  }

  lemma SplitMinute(lab: int, day: int, tod: int)
    requires lab == day * DAY + tod
    ensures lab % MINUTE == tod % MINUTE && Minute(lab) == day * DAY + Minute(tod)
  {
    assert lab == (day * (DAY / MINUTE)) * MINUTE + tod;
    Wrap(day * (DAY / MINUTE), tod);
  }

  lemma Wrap(k: int, x: int)
    ensures (k * MINUTE + x) % MINUTE == x % MINUTE
  {}

  /** A label fires exactly when its second is listed and its minute fires. */
  lemma MinuteFires(tab: CronTab, lab: int)
    ensures Scheduled(tab, lab) <==> lab % MINUTE in tab.seconds && Scheduled(MinuteTab(tab), Minute(lab))
    ensures Scheduled(MinuteTab(tab), lab) ==> lab % MINUTE == 0
  {
    hide DaySelected;
    hide HmsOf;
    hide DateOf;
    MinuteLabel(lab);
    SameDays(tab, LabelDate(lab));
  }

  lemma SameDays(tab: CronTab, d: Date)
    requires ValidDate(d)
    ensures DaySelected(MinuteTab(tab), d) <==> DaySelected(tab, d)
  {}

  // ----- zones of whole minutes -----

  lemma OffsetWhole(z: Zone, k: int)
    requires WholeMinutes(z) && 0 <= k <= |z.steps|
    ensures Offset(z, k) % MINUTE == 0
  {}

  lemma WallStepWhole(z: Zone, i: int)
    requires WholeMinutes(z) && 0 <= i < |z.steps|
    ensures WallStep(z, i, false) % MINUTE == 0
  {
    OffsetWhole(z, i);
  }

  lemma SameSide(x: int, y: int)
    requires y % MINUTE == 0
    ensures y <= x <==> y <= Minute(x)
  {}

  lemma MinuteResolve(z: Zone, lab: int)
    requires ValidZone(z) && WholeMinutes(z)
    ensures Resolve(z, lab) == Resolve(z, Minute(lab)) + lab % MINUTE && Resolve(z, Minute(lab)) % MINUTE == 0
  {
    hide WallSegment;
    hide WallStep;
    hide ValidZone;
    hide WholeMinutes;
    hide Offset;
    var k: int := WallSegment(z, lab, false);
    if k > 0 {
      WallStepWhole(z, k - 1);
      SameSide(lab, WallStep(z, k - 1, false));
    }
    WallSegmentIs(z, Minute(lab), k);
    OffsetWhole(z, k);
  }

  lemma MinuteShow(z: Zone, u: int)
    requires ValidZone(z) && WholeMinutes(z)
    ensures Show(z, u) == Show(z, Minute(u)) + u % MINUTE && Show(z, Minute(u)) % MINUTE == 0
  {
    hide Segment;
    hide ValidZone;
    var k: int := Segment(z, u);
    if k > 0 {
      SameSide(u, z.steps[k - 1].at);
    }
    SegmentIs(z, Minute(u), k);
    OffsetWhole(z, k);
  }

  lemma MinuteParts(v: int, s: int)
    requires v % MINUTE == 0 && 0 <= s < MINUTE
    ensures Minute(v + s) == v && (v + s) % MINUTE == s
  {}

  /** A fire is a fire of the minute twin, moved by a listed second. */
  lemma MinuteIsFire(tab: CronTab, z: Zone, u: int)
    requires ValidZone(z) && WholeMinutes(z)
    ensures IsFire(tab, z, u) <==> u % MINUTE in tab.seconds && IsFire(MinuteTab(tab), z, Minute(u))
    ensures IsFire(MinuteTab(tab), z, u) ==> u % MINUTE == 0
  {
    hide Scheduled;
    hide Resolve;
    hide ValidZone;
    hide WholeMinutes;
    if IsFire(tab, z, u) {
      var m :| Scheduled(tab, m) && Resolve(z, m) == u;
      MinuteFires(tab, m);
      MinuteResolve(z, m);
      assert u % MINUTE == m % MINUTE && Minute(u) == Resolve(z, Minute(m));
    }
    if u % MINUTE in tab.seconds && IsFire(MinuteTab(tab), z, Minute(u)) {
      var m :| Scheduled(MinuteTab(tab), m) && Resolve(z, m) == Minute(u);
      MinuteFires(tab, m);
      var lab := m + u % MINUTE;
      MinuteParts(m, u % MINUTE);
      MinuteFires(tab, lab);
      MinuteResolve(z, lab);
    }
    if IsFire(MinuteTab(tab), z, u) {
      var m :| Scheduled(MinuteTab(tab), m) && Resolve(z, m) == u;
      MinuteFires(tab, m);
      MinuteResolve(z, m);
    }
  }

  // ----- cells -----

  /** The cell of the display zone an instant falls in. */
  function CellOf(display: Zone, u: int): Cell {
    var t := LabelTime(Show(display, u));
    (t.hour, t.minute)
  }

  function CellsOf(display: Zone, us: seq<int>): seq<Cell> {
    seq(|us|, i requires 0 <= i < |us| => CellOf(display, us[i]))
  }

  lemma MinuteCell(display: Zone, v: int, s: int)
    requires ValidZone(display) && WholeMinutes(display) && v % MINUTE == 0 && 0 <= s < MINUTE
    ensures CellOf(display, v + s) == CellOf(display, v)
  {
    hide Show;
    hide LabelTime;
    hide LabelDate;
    hide ValidZone;
    hide WholeMinutes;
    MinuteParts(v, s);
    MinuteShow(display, v + s);
    SameMinute(Show(display, v), s);
  }

  lemma SameMinute(lab: int, s: int)
    requires lab % MINUTE == 0 && 0 <= s < MINUTE
    ensures LabelTime(lab + s).hour == LabelTime(lab).hour && LabelTime(lab + s).minute == LabelTime(lab).minute
  {
    hide LabelTime;
    hide LabelDate;
    MinuteParts(lab, s);
    MinuteLabel(lab + s);
  }

  lemma CellCounts(display: Zone, a: seq<int>, b: seq<int>, c: Cell)
    ensures multiset(CellsOf(display, a + b))[c] == multiset(CellsOf(display, a))[c] + multiset(CellsOf(display, b))[c]
  {
    hide CellOf;
    assert CellsOf(display, a + b) == CellsOf(display, a) + CellsOf(display, b);
  }

  lemma OneCell(display: Zone, v: int, c: Cell)
    ensures multiset(CellsOf(display, [v]))[c] == if CellOf(display, v) == c then 1 else 0
  {
    assert CellsOf(display, [v]) == [CellOf(display, v)];
  }

  lemma CellPushed(display: Zone, us: seq<int>, v: int, c: Cell)
    ensures multiset(CellsOf(display, us + [v]))[c]
         == multiset(CellsOf(display, us))[c] + if CellOf(display, v) == c then 1 else 0
  {
    hide CellOf;
    hide CellsOf;
    CellCounts(display, us, [v], c);
    OneCell(display, v, c);
  }

  lemma SameWithout(rest: seq<int>, v: int, p: seq<int>, q: seq<int>)
    requires multiset(rest + [v]) == multiset(p + ([v] + q))
    ensures multiset(rest) == multiset(p + q)
  {
    forall u ensures multiset(rest)[u] == multiset(p + q)[u] {
      assert multiset(rest + [v])[u] == multiset(rest)[u] + multiset([v])[u];
      assert multiset(p + ([v] + q))[u] == multiset(p)[u] + (multiset([v])[u] + multiset(q)[u]);
    }
  }

  /** The cells of a list do not depend on its order. */
  lemma {:induction false} CellsOfSame(display: Zone, a: seq<int>, b: seq<int>, c: Cell)
    requires multiset(a) == multiset(b)
    ensures multiset(CellsOf(display, a))[c] == multiset(CellsOf(display, b))[c]
    decreases |a|
  {
    hide CellOf;
    hide CellsOf;
    if a == [] {
      assert |multiset(b)| == 0;
      assert b == [];
    } else {
      var rest, v := a[..|a| - 1], a[|a| - 1];
      assert a == rest + [v];
      assert v in multiset(b);
      var i :| 0 <= i < |b| && b[i] == v;
      var p, q := b[..i], b[i + 1..];
      assert b == p + ([v] + q);
      SameWithout(rest, v, p, q);
      CellsOfSame(display, rest, p + q, c);
      CellPushed(display, rest, v, c);
      CellCounts(display, p, [v] + q, c);
      CellCounts(display, [v], q, c);
      CellCounts(display, p, q, c);
      OneCell(display, v, c);
    }
  }

  // ----- counting fires -----

  /** How many fires after `from` and up to `to` fall in a cell. */
  ghost function FiresIn(tab: CronTab, z: Zone, display: Zone, from: int, to: int, c: Cell): nat
    decreases (to - from)
  {
    if from >= to then 0
    else FiresIn(tab, z, display, from, to - 1, c) + if IsFire(tab, z, to) && CellOf(display, to) == c then 1 else 0
  }

  lemma {:induction false} FiresJoin(tab: CronTab, z: Zone, display: Zone, from: int, mid: int, to: int, c: Cell)
    requires from <= mid <= to
    ensures FiresIn(tab, z, display, from, to, c)
         == FiresIn(tab, z, display, from, mid, c) + FiresIn(tab, z, display, mid, to, c)
    decreases (to - mid)
  {
    hide IsFire;
    hide CellOf;
    if mid < to {
      FiresJoin(tab, z, display, from, mid, to - 1, c);
    }
  }

  lemma NextSecond(tab: CronTab, z: Zone, from: int, to: int, rest: seq<int>)
    requires from < to && AllFires(tab, z, from, to - 1, rest)
    ensures AllFires(tab, z, from, to, if IsFire(tab, z, to) then rest + [to] else rest)
  {
    hide IsFire;
    assert forall i :: 0 <= i < |rest| ==> rest[i] in rest;
  }

  /** The fires of a window, listed. */
  lemma {:induction false} FireList(tab: CronTab, z: Zone, display: Zone, from: int, to: int, c: Cell)
      returns (out: seq<int>)
    ensures AllFires(tab, z, from, to, out)
    ensures multiset(CellsOf(display, out))[c] == FiresIn(tab, z, display, from, to, c)
    decreases (to - from)
  {
    hide IsFire;
    hide CellOf;
    if from >= to {
      out := [];
    } else {
      hide AllFires;
      var rest := FireList(tab, z, display, from, to - 1, c);
      out := if IsFire(tab, z, to) then rest + [to] else rest;
      NextSecond(tab, z, from, to, rest);
      CellPushed(display, rest, to, c);
    }
  }

  // ----- one minute -----

  function Before(seconds: set<int>, n: int): set<int> {
    set s | s in seconds && s < n
  }

  function After(seconds: set<int>, n: int): set<int> {
    set s | s in seconds && n < s
  }

  lemma BeforeStep(seconds: set<int>, n: int)
    ensures |Before(seconds, n + 1)| == |Before(seconds, n)| + if n in seconds then 1 else 0
  {
    if n in seconds {
      assert Before(seconds, n + 1) == Before(seconds, n) + {n};
    } else {
      assert Before(seconds, n + 1) == Before(seconds, n);
    }
  }

  lemma BeforeAndAfter(seconds: set<int>, n: int)
    ensures |seconds| == |Before(seconds, n + 1)| + |After(seconds, n)|
  {
    assert seconds == Before(seconds, n + 1) + After(seconds, n);
  }

  lemma SecondsInRange(tab: CronTab)
    requires ValidTab(tab)
    ensures Before(tab.seconds, 0) == {} && Before(tab.seconds, MINUTE) == tab.seconds
  {}

  /** The twin fires in this minute, and its cell is `c`. */
  ghost predicate FiresThere(tab: CronTab, z: Zone, display: Zone, v: int, c: Cell) {
    IsFire(MinuteTab(tab), z, v) && CellOf(display, v) == c
  }

  /** The first `n` seconds of a minute. */
  lemma {:induction false} MinutePart(tab: CronTab, z: Zone, display: Zone, v: int, n: nat, c: Cell)
    requires ValidTab(tab) && WholeZones(z, display) && v % MINUTE == 0 && n <= MINUTE
    ensures FiresIn(tab, z, display, v - 1, v - 1 + n, c)
         == if FiresThere(tab, z, display, v, c) then |Before(tab.seconds, n)| else 0
  {
    hide IsFire;
    hide CellOf;
    hide ValidTab;
    hide ValidZone;
    hide WholeMinutes;
    hide Before;
    if n == 0 {
      SecondsInRange(tab);
    } else {
      MinutePart(tab, z, display, v, n - 1, c);
      BeforeStep(tab.seconds, n - 1);
      var u := v + (n - 1);
      MinuteParts(v, n - 1);
      MinuteIsFire(tab, z, u);
      MinuteCell(display, v, n - 1);
    }
  }

  ghost predicate WholeZones(z: Zone, display: Zone) {
    ValidZone(z) && WholeMinutes(z) && ValidZone(display) && WholeMinutes(display)
  }

  lemma WholeMinute(tab: CronTab, z: Zone, display: Zone, v: int, c: Cell)
    requires ValidTab(tab) && WholeZones(z, display) && v % MINUTE == 0
    ensures FiresIn(tab, z, display, v - 1, MinuteEnd(v), c)
         == if FiresThere(tab, z, display, v, c) then |tab.seconds| else 0
  {
    hide ValidTab;
    hide FiresThere;
    hide FiresIn;
    MinutePart(tab, z, display, v, MINUTE, c);
    SecondsInRange(tab);
  }

  /** The fires of a minute still to come after `x`: the listed seconds past it, if the minute fires. */
  ghost function Late(tab: CronTab, z: Zone, display: Zone, x: int, c: Cell): nat {
    if FiresThere(tab, z, display, Minute(x), c) then |After(tab.seconds, x % MINUTE)| else 0
  }

  lemma LateIsRest(tab: CronTab, z: Zone, display: Zone, x: int, c: Cell)
    requires ValidTab(tab) && WholeZones(z, display)
    ensures FiresIn(tab, z, display, x, MinuteEnd(x), c) == Late(tab, z, display, x, c)
  {
    hide ValidTab;
    hide WholeZones;
    hide FiresThere;
    hide FiresIn;
    hide Before;
    hide After;
    var v := Minute(x);
    MinuteParts(v, 0);
    WholeMinute(tab, z, display, v, c);
    MinutePart(tab, z, display, v, x % MINUTE + 1, c);
    FiresJoin(tab, z, display, v - 1, x, MinuteEnd(x), c);
    BeforeAndAfter(tab.seconds, x % MINUTE);
  }

  // ----- the window -----

  /**
   Weighing each minute of the twin's walk by the number of seconds counts the
   schedule's own fires per cell, over the window with both ends moved up to the
   end of their minute.
   */
  lemma {:induction false} WeightedWalkCountsFires(tab: CronTab, z: Zone, display: Zone, from: int, to: int, c: Cell)
    requires ValidTab(tab) && WholeZones(z, display) && from <= to
    ensures |tab.seconds| * FiresIn(MinuteTab(tab), z, display, from, to, c)
         == FiresIn(tab, z, display, MinuteEnd(from), MinuteEnd(to), c)
    decreases (to - from)
  {
    hide ValidTab;
    hide ValidZone;
    hide WholeMinutes;
    hide IsFire;
    hide CellOf;
    if from < to {
      WeightedWalkCountsFires(tab, z, display, from, to - 1, c);
      MinuteIsFire(tab, z, to);
      NextMinute(to);
      if to % MINUTE == 0 {
        WholeMinute(tab, z, display, to, c);
        MinuteAscends(from, to - 1);
        FiresJoin(tab, z, display, MinuteEnd(from), to - 1, MinuteEnd(to), c);
        Distribute(|tab.seconds|, FiresIn(MinuteTab(tab), z, display, from, to - 1, c));
      }
    }
  }

  lemma NextMinute(x: int)
    ensures x % MINUTE == 0 ==> MinuteEnd(x - 1) == x - 1
    ensures x % MINUTE != 0 ==> MinuteEnd(x - 1) == MinuteEnd(x)
  {}

  lemma MinuteAscends(a: int, b: int)
    requires a <= b
    ensures MinuteEnd(a) <= MinuteEnd(b) && a <= MinuteEnd(a)
  {}

  /**
   Per cell, the weighted walk is off by what the window cuts from its last
   minute less what it cuts from its first.
   */
  lemma WeightedWindow(tab: CronTab, z: Zone, display: Zone, from: int, to: int, c: Cell)
    requires ValidTab(tab) && WholeZones(z, display) && from <= to
    ensures |tab.seconds| * FiresIn(MinuteTab(tab), z, display, from, to, c) + Late(tab, z, display, from, c)
         == FiresIn(tab, z, display, from, to, c) + Late(tab, z, display, to, c)
  {
    hide ValidTab;
    hide WholeZones;
    hide FiresIn;
    hide Late;
    WeightedWalkCountsFires(tab, z, display, from, to, c);
    LateIsRest(tab, z, display, from, c);
    LateIsRest(tab, z, display, to, c);
    MinuteAscends(from, to);
    MinuteAscends(to, to);
    FiresJoin(tab, z, display, from, MinuteEnd(from), MinuteEnd(to), c);
    FiresJoin(tab, z, display, from, to, MinuteEnd(to), c);
  }

  /** So it counts the window's own fires exactly when both cut minutes still have as many to come. */
  lemma WindowCountsIff(tab: CronTab, z: Zone, display: Zone, from: int, to: int, c: Cell)
    requires ValidTab(tab) && WholeZones(z, display) && from <= to
    ensures |tab.seconds| * FiresIn(MinuteTab(tab), z, display, from, to, c) == FiresIn(tab, z, display, from, to, c)
       <==> Late(tab, z, display, from, c) == Late(tab, z, display, to, c)
  {
    hide ValidTab;
    hide WholeZones;
    hide FiresIn;
    hide Late;
    WeightedWindow(tab, z, display, from, to, c);
  }

  /** Nothing is still to come in a minute whose last listed second has passed. */
  lemma NothingLate(tab: CronTab, z: Zone, display: Zone, x: int, c: Cell)
    requires forall s :: s in tab.seconds ==> s <= x % MINUTE
    ensures Late(tab, z, display, x, c) == 0
  {
    assert After(tab.seconds, x % MINUTE) == {};
  }

  // ----- one schedule's walk -----

  /** The twin's fires in seconds a cut splits: what the walk lists again. */
  ghost function Repeats(tab: CronTab, z: Zone, cuts: seq<int>): seq<int> {
    if cuts == [] then []
    else
      var c := cuts[|cuts| - 1];
      Repeats(tab, z, cuts[..|cuts| - 1]) + if !Whole(c) && IsFire(tab, z, Sec(c)) then [Sec(c)] else []
  }

  lemma {:induction false} RepeatsCount(tab: CronTab, z: Zone, cuts: seq<int>, u: int)
    ensures multiset(Repeats(tab, z, cuts))[u] == if IsFire(tab, z, u) then CutsInside(cuts, u) else 0
  {
    hide IsFire;
    hide Sec;
    hide Whole;
    if cuts != [] {
      RepeatsCount(tab, z, cuts[..|cuts| - 1], u);
    }
  }

  ghost predicate CutsWithin(cuts: seq<int>, probe: int, to: int) {
    forall i :: 0 <= i < |cuts| ==> probe < cuts[i] && Sec(cuts[i]) <= to
  }

  /** A walk is its fires once each, and the repeats. */
  lemma WalkedIsOnceAndAgain(tab: CronTab, z: Zone, probe: int, to: int, cuts: seq<int>, out: seq<int>, once: seq<int>)
    requires Walked(tab, z, probe, to, cuts, out) && CutsWithin(cuts, probe, to)
    requires AllFires(tab, z, Sec(probe), to, once)
    ensures multiset(out) == multiset(once + Repeats(tab, z, cuts))
  {
    hide IsFire;
    hide Sec;
    hide Whole;
    hide Repeats;
    var again := Repeats(tab, z, cuts);
    forall u ensures multiset(out)[u] == multiset(once + again)[u] {
      assert multiset(out)[u] == Listed(tab, z, probe, to, cuts, u);
      FireCount(tab, z, Sec(probe), to, once, u);
      RepeatsCount(tab, z, cuts, u);
      if u > to && CutsInside(cuts, u) > 0 {
        var i := CutFound(cuts, u);
      }
    }
  }

  /** Which fires of the twin a walk shows in a cell. */
  lemma WalkedCells(tab: CronTab, z: Zone, display: Zone, probe: int, to: int, cuts: seq<int>, out: seq<int>, c: Cell)
    requires Walked(tab, z, probe, to, cuts, out) && CutsWithin(cuts, probe, to)
    ensures multiset(CellsOf(display, out))[c]
         == FiresIn(tab, z, display, Sec(probe), to, c) + multiset(CellsOf(display, Repeats(tab, z, cuts)))[c]
  {
    hide IsFire;
    hide Walked;
    hide AllFires;
    hide CellOf;
    hide CellsOf;
    hide Repeats;
    hide FiresIn;
    hide Sec;
    var once := FireList(tab, z, display, Sec(probe), to, c);
    WalkedIsOnceAndAgain(tab, z, probe, to, cuts, out, once);
    CellsOfSame(display, out, once + Repeats(tab, z, cuts), c);
    CellCounts(display, once, Repeats(tab, z, cuts), c);
  }

  /** Whole minutes are at least a minute apart. */
  lemma {:induction false} MinutesSpan(us: seq<int>)
    requires (forall i, j :: 0 <= i < j < |us| ==> us[i] < us[j]) && us != []
    requires forall i :: 0 <= i < |us| ==> us[i] % MINUTE == 0
    ensures us[0] + (|us| - 1) * MINUTE <= us[|us| - 1]
  {
    if |us| > 1 {
      var rest := us[..|us| - 1];
      MinutesSpan(rest);
      Apart(us[|us| - 2], us[|us| - 1]);
    }
  }

  lemma Apart(a: int, b: int)
    requires a < b && a % MINUTE == 0 && b % MINUTE == 0
    ensures a + MINUTE <= b
  {}

  /** A minute-granular walk lists no more than one fire a minute, and the repeats. */
  lemma WalkSize(tab: CronTab, z: Zone, probe: int, to: int, cuts: seq<int>, out: seq<int>, minutes: nat)
    requires ValidZone(z) && WholeMinutes(z) && to <= Sec(probe) + minutes * MINUTE
    requires Walked(MinuteTab(tab), z, probe, to, cuts, out) && CutsWithin(cuts, probe, to)
    ensures |out| <= minutes + |Repeats(MinuteTab(tab), z, cuts)|
  {
    hide IsFire;
    hide Walked;
    hide ValidZone;
    hide WholeMinutes;
    hide MinuteTab;
    hide Repeats;
    hide Sec;
    hide FiresIn;
    hide CellsOf;
    var once := FireList(MinuteTab(tab), z, z, Sec(probe), to, (0, 0));
    WalkedIsOnceAndAgain(MinuteTab(tab), z, probe, to, cuts, out, once);
    assert |out| == |multiset(out)| == |once + Repeats(MinuteTab(tab), z, cuts)|;
    if once != [] {
      forall i | 0 <= i < |once| ensures once[i] % MINUTE == 0 {
        assert once[i] in once;
        MinuteIsFire(tab, z, once[i]);
      }
      MinutesSpan(once);
      assert once[0] in once && once[|once| - 1] in once;
    }
  }

  /** Where an entry's schedule runs: a zone of its own, or the host clock. */
  datatype Place = Named(frame: Frame) | Host

  function PlaceZone(place: Place, host: Zone): Zone {
    if place.Named? then ZoneOf(place.frame) else host
  }

  /** A schedule, the zone it runs in, and where its walk is cut. */
  datatype Plan = Plan(tab: CronTab, zone: Zone, cuts: seq<int>)

  /** How often a cell shows a minute once more. */
  ghost function Again(p: Plan, display: Zone, c: Cell): nat {
    multiset(CellsOf(display, Repeats(MinuteTab(p.tab), p.zone, p.cuts)))[c]
  }

  /** What a walk shows in a cell beyond the schedule's own fires. */
  ghost function Off(p: Plan, display: Zone, from: int, to: int, c: Cell): int {
    Late(p.tab, p.zone, display, to, c) + |p.tab.seconds| * Again(p, display, c)
    - Late(p.tab, p.zone, display, from, c)
  }

  /** Per cell, the weighted walk is the schedule's own fires and what it is off by. */
  ghost predicate Tallied(w: Walk, p: Plan, display: Zone, from: int, to: int, c: Cell) {
    w.weight * multiset(w.cells)[c] == FiresIn(p.tab, p.zone, display, from, to, c) + Off(p, display, from, to, c)
  }

  /** A walk is off by nothing when no listed second follows either end of the window and no cut splits a fire. */
  lemma ExactWindow(p: Plan, display: Zone, from: int, to: int, c: Cell)
    requires forall s :: s in p.tab.seconds ==> s <= from % MINUTE && s <= to % MINUTE
    requires CleanCuts(MinuteTab(p.tab), p.zone, p.cuts)
    ensures Off(p, display, from, to, c) == 0
  {
    hide IsFire;
    hide Late;
    NothingLate(p.tab, p.zone, display, from, c);
    NothingLate(p.tab, p.zone, display, to, c);
    CleanRepeats(MinuteTab(p.tab), p.zone, p.cuts);
    assert CellsOf(display, []) == [];
  }

  lemma {:induction false} CleanRepeats(tab: CronTab, z: Zone, cuts: seq<int>)
    requires CleanCuts(tab, z, cuts)
    ensures Repeats(tab, z, cuts) == []
  {
    hide IsFire;
    if cuts != [] {
      CleanRepeats(tab, z, cuts[..|cuts| - 1]);
    }
  }

  lemma WalkTallies(p: Plan, display: Zone, probe: int, to: int, out: seq<int>, c: Cell)
    requires ValidTab(p.tab) && WholeZones(p.zone, display) && Sec(probe) <= to && CutsWithin(p.cuts, probe, to)
    requires Walked(MinuteTab(p.tab), p.zone, probe, to, p.cuts, out)
    ensures Tallied(Walk(CellsOf(display, out), |p.tab.seconds|), p, display, Sec(probe), to, c)
  {
    hide ValidTab;
    hide WholeZones;
    hide Walked;
    hide CellsOf;
    hide Repeats;
    hide FiresIn;
    hide Late;
    hide Sec;
    WalkedCells(MinuteTab(p.tab), p.zone, display, probe, to, p.cuts, out, c);
    WeightedWindow(p.tab, p.zone, display, Sec(probe), to, c);
    Weigh(|p.tab.seconds|, FiresIn(MinuteTab(p.tab), p.zone, display, Sec(probe), to, c), Again(p, display, c));
  }

  lemma Weigh(w: int, a: int, b: int)
    ensures w * (a + b) == w * a + w * b
  {}

  // ----- walking a schedule -----

  ghost function PlaceCuts(place: Place, host: Zone, cache: seq<Span>, start: int, end: int,
                           clock: nat -> real): seq<int>
  {
    if place.Named? then [] else Cuts(host, cache, start, end, clock, 0)
  }

  ghost predicate ValidPlace(place: Place) {
    place.Named? ==> ValidFrame(place.frame)
  }

  /** A schedule's fires strictly after `start` and before `end`, wherever it runs. */
  method WalkPlace(tab: CronTab, place: Place, local: LocalZone, start: int, end: int, clock: nat -> real)
      returns (out: seq<int>)
    requires ValidTab(tab) && ValidPlace(place) && local.Valid() && start < end
    modifies local, local.Cached()
    ensures local.Valid() && fresh(local.Cached() - old(local.Cached()))
    ensures Walked(tab, PlaceZone(place, local.host), start, Sec(end - 1),
                   PlaceCuts(place, local.host, old(local.cache), start, end, clock), out)
  {
    hide ValidTab;
    hide ValidZone;
    hide Walked;
    hide AllFires;
    hide Show;
    hide FoldAt;
    hide Instant;
    hide Sec;
    hide Cuts;
    hide Mirrors;
    hide AllVouch;
    if place.Named? {
      var z, from, to := ZoneOf(place.frame), Sec(start), Sec(end - 1);
      SecAscends(start, end - 1);
      ShowRoundTrip(z, from);
      out := FiresBefore(tab, place.frame, Show(z, from), FoldAt(z, from), to + 1);
      FirstSegment(tab, z, start, to, out);
    } else {
      out := WalkFires(tab, local, start, end, clock);
    }
  }

  const HOUR_MINUTES := 60

  /** The backstop on what one walk lists. */
  function Capped(out: seq<int>, hours: int): seq<int>
    requires hours >= 1
  {
    out[..if |out| < hours * HOUR_MINUTES + 2 then |out| else hours * HOUR_MINUTES + 2]
  }

  /** Where the zones keep whole minutes and no more than two minutes are listed again, every cell is tallied. */
  ghost predicate Counts(w: Walk, p: Plan, display: Zone, from: int, to: int) {
    WholeZones(p.zone, display) && |Repeats(MinuteTab(p.tab), p.zone, p.cuts)| <= 2 ==>
      forall c :: Tallied(w, p, display, from, to, c)
  }

  /** The backstop never bites there. */
  lemma CappedCounts(p: Plan, display: Zone, start: int, end: int, hours: int, out: seq<int>)
    requires ValidTab(p.tab) && hours >= 1 && end == start + hours * HOUR_MICROS
    requires CutsWithin(p.cuts, start, Sec(end - 1))
    requires Walked(MinuteTab(p.tab), p.zone, start, Sec(end - 1), p.cuts, out)
    ensures Counts(Walk(CellsOf(display, Capped(out, hours)), |p.tab.seconds|), p, display, Sec(start), Sec(end - 1))
  {
    hide ValidTab;
    hide Walked;
    hide CellsOf;
    hide Repeats;
    hide Tallied;
    hide Sec;
    hide CutsWithin;
    if WholeZones(p.zone, display) && |Repeats(MinuteTab(p.tab), p.zone, p.cuts)| <= 2 {
      WindowSize(start, end, hours);
      SecAscends(start, end - 1);
      WalkSize(p.tab, p.zone, start, Sec(end - 1), p.cuts, out, hours * HOUR_MINUTES);
      assert Capped(out, hours) == out;
      var w, from, to := Walk(CellsOf(display, out), |p.tab.seconds|), Sec(start), Sec(end - 1);
      forall c ensures Tallied(w, p, display, from, to, c) {
        WalkTallies(p, display, start, to, out, c);
      }
    }
  }

  lemma WindowSize(start: int, end: int, hours: int)
    requires hours >= 1 && end == start + hours * HOUR_MICROS
    ensures start < end && Sec(end - 1) <= Sec(start) + (hours * HOUR_MINUTES) * MINUTE
  {
    SecMoves(start, hours * FRAME_STEP);
    assert hours * HOUR_MICROS == (hours * FRAME_STEP) * MICROS;
    SecAscends(end - 1, end);
  }

  /** One schedule's walk over the `hours` after `start`. */
  method WalkSchedule(tab: CronTab, place: Place, local: LocalZone, display: Zone, start: int, hours: int,
                      clock: nat -> real)
      returns (w: Walk)
    requires ValidTab(tab) && ValidPlace(place) && local.Valid() && hours >= 1
    modifies local, local.Cached()
    ensures local.Valid() && fresh(local.Cached() - old(local.Cached()))
    ensures var end := start + hours * HOUR_MICROS;
            var cuts := PlaceCuts(place, local.host, old(local.cache), start, end, clock);
            var p := Plan(tab, PlaceZone(place, local.host), cuts);
            && Counts(w, p, display, Sec(start), Sec(end - 1))
            && exists out :: Walked(MinuteTab(tab), p.zone, start, Sec(end - 1), cuts, out)
                             && w == Walk(CellsOf(display, Capped(out, hours)), |tab.seconds|)
  {
    hide ValidTab;
    hide ValidZone;
    hide Walked;
    hide Sec;
    hide Mirrors;
    hide AllVouch;
    hide Counts;
    hide CellOf;
    hide CellsOf;
    hide PlaceCuts;
    MinuteTabIsValid(tab);
    var end := start + hours * HOUR_MICROS;
    WindowSize(start, end, hours);
    ghost var cuts := PlaceCuts(place, local.host, local.cache, start, end, clock);
    ghost var p := Plan(tab, PlaceZone(place, local.host), cuts);
    PlaceCutsWithin(place, local.host, local.cache, start, end, clock);
    var out := WalkPlace(MinuteTab(tab), place, local, start, end, clock);
    CappedCounts(p, display, start, end, hours, out);
    w := Walk(CellsOf(display, Capped(out, hours)), |tab.seconds|);
  }

  lemma PlaceCutsWithin(place: Place, host: Zone, cache: seq<Span>, start: int, end: int, clock: nat -> real)
    ensures CutsWithin(PlaceCuts(place, host, cache, start, end, clock), start, Sec(end - 1))
  {
    hide Cuts;
    hide Sec;
    if place.Host? {
      var cuts := Cuts(host, cache, start, end, clock, 0);
      forall i | 0 <= i < |cuts| ensures start < cuts[i] && Sec(cuts[i]) <= Sec(end - 1) {
        CutInside(host, cache, start, end, clock, 0, i);
        SecAscends(cuts[i], end - 1);
      }
    }
  }

  /** The display zone for a window: on the host clock, a fixed offset that shows every instant of it alike. */
  method WalkFrame(local: LocalZone, start: int, end: int, now: real) returns (frame: Frame)
    requires local.Valid()
    modifies local, local.Cached()
    ensures local.Valid() && fresh(local.Cached() - old(local.Cached()))
    ensures frame == Zoned(local.host) || frame.Fixed?
    ensures forall u :: Sec(start) - GAP_PROBE <= u <= Sec(end) ==> Show(ZoneOf(frame), u) == Show(local.host, u)
  {
    hide ValidZone;
    hide Sec;
    hide Moves;
    hide Answer;
    hide Mirrors;
    hide AllVouch;
    var fixed, goodTo := local.FixedFrame(start, Some(end), now);
    if fixed.None? || goodTo < end {
      return Zoned(local.host);
    }
    frame := Fixed(fixed.value);
    SecAscends(end, goodTo);
    ghost var z := local.host;
    forall u | Sec(start) - GAP_PROBE <= u <= Sec(end) ensures Show(ZoneOf(frame), u) == Show(z, u) {
      assert OffsetAt(z, u) == fixed.value;
    }
  }

  // ----- the whole grid -----

  datatype Job = Job(tab: CronTab, place: Place)

  /** The entries' own fires in a cell. */
  ghost function TotalFires(plans: map<Key, Plan>, entries: seq<Entry>, display: Zone, from: int, to: int, c: Cell): int
  {
    if entries == [] then 0
    else
      var rest, k := TotalFires(plans, entries[..|entries| - 1], display, from, to, c), entries[|entries| - 1].key;
      if k in plans then rest + FiresIn(plans[k].tab, plans[k].zone, display, from, to, c) else rest
  }

  ghost function TotalOff(plans: map<Key, Plan>, entries: seq<Entry>, display: Zone, from: int, to: int, c: Cell): int {
    if entries == [] then 0
    else
      var rest, k := TotalOff(plans, entries[..|entries| - 1], display, from, to, c), entries[|entries| - 1].key;
      if k in plans then rest + Off(plans[k], display, from, to, c) else rest
  }

  /** What replaying every entry gives a cell: the entries' own fires, and what their walks are off by. */
  lemma {:induction false} GridCountsFires(walk: Walker, plans: map<Key, Plan>, entries: seq<Entry>, display: Zone,
                                           from: int, to: int, c: Cell)
    requires forall i :: 0 <= i < |entries| ==>
               && entries[i].key in plans && walk(entries[i].key).Some?
               && Tallied(walk(entries[i].key).value, plans[entries[i].key], display, from, to, c)
    ensures GridAt(walk, entries, c)
         == TotalFires(plans, entries, display, from, to, c) + TotalOff(plans, entries, display, from, to, c)
  {
    hide FiresIn;
    hide Off;
    if entries != [] {
      GridCountsFires(walk, plans, entries[..|entries| - 1], display, from, to, c);
    }
  }

  /** A plan's cuts are those of its place, from some cache of frames that vouch. */
  ghost predicate Planned(p: Plan, job: Job, host: Zone, start: int, end: int, clock: nat -> real) {
    && p.tab == job.tab && p.zone == PlaceZone(job.place, host)
    && exists cache :: AllVouch(host, cache) && p.cuts == PlaceCuts(job.place, host, cache, start, end, clock)
  }

  /** Each schedule is planned, and its walk counts. */
  ghost predicate Accounted(jobs: map<Key, Job>, walks: map<Key, Walk>, plans: map<Key, Plan>, host: Zone,
                            display: Zone, start: int, end: int, clocks: Key -> nat -> real)
  {
    && walks.Keys == plans.Keys && plans.Keys <= jobs.Keys
    && forall k :: k in plans ==>
         && Planned(plans[k], jobs[k], host, start, end, clocks(k))
         && Counts(walks[k], plans[k], display, Sec(start), Sec(end - 1))
  }

  lemma AccountOne(jobs: map<Key, Job>, walks: map<Key, Walk>, plans: map<Key, Plan>, host: Zone, display: Zone,
                   start: int, end: int, clocks: Key -> nat -> real, key: Key, w: Walk, p: Plan)
    requires Accounted(jobs, walks, plans, host, display, start, end, clocks) && key in jobs
    requires Planned(p, jobs[key], host, start, end, clocks(key))
    requires Counts(w, p, display, Sec(start), Sec(end - 1))
    ensures Accounted(jobs, walks[key := w], plans[key := p], host, display, start, end, clocks)
  {
    hide Planned;
    hide Counts;
    hide Sec;
  }

  /** The schedules the entries name, each walked once, in the order they first appear. */
  method WalkAll(jobs: map<Key, Job>, entries: seq<Entry>, local: LocalZone, display: Zone, start: int, hours: int,
                 clocks: Key -> nat -> real)
      returns (walks: map<Key, Walk>, ghost plans: map<Key, Plan>)
    requires forall k :: k in jobs ==> ValidTab(jobs[k].tab) && ValidPlace(jobs[k].place)
    requires (forall i :: 0 <= i < |entries| ==> entries[i].key in jobs) && local.Valid() && hours >= 1
    modifies local, local.Cached()
    ensures local.Valid()
    ensures Accounted(jobs, walks, plans, local.host, display, start, start + hours * HOUR_MICROS, clocks)
    ensures forall i :: 0 <= i < |entries| ==> entries[i].key in walks
  {
    hide ValidTab;
    hide ValidZone;
    hide ValidPlace;
    hide Mirrors;
    hide AllVouch;
    hide Counts;
    hide Planned;
    hide Sec;
    walks, plans := map[], map[];
    ghost var host, end := local.host, start + hours * HOUR_MICROS;
    for i := 0 to |entries|
      invariant local.Valid() && fresh(local.Cached() - old(local.Cached()))
      invariant Accounted(jobs, walks, plans, host, display, start, end, clocks)
      invariant forall j :: 0 <= j < i ==> entries[j].key in walks
    {
      var key := entries[i].key;
      if key !in walks {
        hide Accounted;
        var job := jobs[key];
        ghost var cuts := PlaceCuts(job.place, host, local.cache, start, end, clocks(key));
        ghost var p := Plan(job.tab, PlaceZone(job.place, host), cuts);
        PlannedFrom(p, job, host, local.cache, start, end, clocks(key));
        var w := WalkSchedule(job.tab, job.place, local, display, start, hours, clocks(key));
        AccountOne(jobs, walks, plans, host, display, start, end, clocks, key, w, p);
        walks, plans := walks[key := w], plans[key := p];
      }
    }
  }

  lemma PlannedFrom(p: Plan, job: Job, host: Zone, cache: seq<Span>, start: int, end: int, clock: nat -> real)
    requires AllVouch(host, cache) && p.tab == job.tab && p.zone == PlaceZone(job.place, host)
    requires p.cuts == PlaceCuts(job.place, host, cache, start, end, clock)
    ensures Planned(p, job, host, start, end, clock)
  {}

  /** Every plan keeps whole minutes and lists no more than two minutes again. */
  ghost predicate Regular(plans: map<Key, Plan>, display: Zone) {
    forall k :: k in plans ==>
      WholeZones(plans[k].zone, display) && |Repeats(MinuteTab(plans[k].tab), plans[k].zone, plans[k].cuts)| <= 2
  }

  lemma CountsCell(w: Walk, plans: map<Key, Plan>, k: Key, display: Zone, from: int, to: int, c: Cell)
    requires Regular(plans, display) && k in plans && Counts(w, plans[k], display, from, to)
    ensures Tallied(w, plans[k], display, from, to, c)
  {
    hide Tallied;
    hide WholeZones;
    hide Repeats;
  }

  function WalkerOf(walks: map<Key, Walk>): Walker {
    (k: Key) => if k in walks then Some(walks[k]) else None
  }

  lemma GridOfWalks(jobs: map<Key, Job>, walks: map<Key, Walk>, plans: map<Key, Plan>, host: Zone, display: Zone,
                    start: int, end: int, clocks: Key -> nat -> real, entries: seq<Entry>, c: Cell)
    requires Accounted(jobs, walks, plans, host, display, start, end, clocks) && Regular(plans, display)
    requires forall i :: 0 <= i < |entries| ==> entries[i].key in walks
    ensures var from, to := Sec(start), Sec(end - 1);
            GridAt(WalkerOf(walks), entries, c)
            == TotalFires(plans, entries, display, from, to, c) + TotalOff(plans, entries, display, from, to, c)
  {
    hide Counts;
    hide Planned;
    hide Tallied;
    hide Regular;
    hide Sec;
    hide GridAt;
    hide TotalFires;
    hide TotalOff;
    var from, to := Sec(start), Sec(end - 1);
    forall i | 0 <= i < |entries|
      ensures Tallied(walks[entries[i].key], plans[entries[i].key], display, from, to, c)
    {
      CountsCell(walks[entries[i].key], plans, entries[i].key, display, from, to, c);
    }
    GridCountsFires(WalkerOf(walks), plans, entries, display, from, to, c);
  }

  /** Every entry has its plan. */
  ghost predicate AllPlanned(jobs: map<Key, Job>, entries: seq<Entry>, plans: map<Key, Plan>, host: Zone,
                             start: int, end: int, clocks: Key -> nat -> real)
  {
    forall i :: 0 <= i < |entries| ==>
      var k := entries[i].key;
      k in plans && k in jobs && Planned(plans[k], jobs[k], host, start, end, clocks(k))
  }

  lemma AccountedIsPlanned(jobs: map<Key, Job>, walks: map<Key, Walk>, plans: map<Key, Plan>, host: Zone, display: Zone,
                           start: int, end: int, clocks: Key -> nat -> real, entries: seq<Entry>)
    requires Accounted(jobs, walks, plans, host, display, start, end, clocks)
    requires forall i :: 0 <= i < |entries| ==> entries[i].key in walks
    ensures AllPlanned(jobs, entries, plans, host, start, end, clocks)
  {
    hide Counts;
    hide Planned;
    hide Sec;
  }

  /**
   The heatmap's grid: each cell holds the entries' own fires in the window and
   what their walks are off by, so it is exact just where those even out.
   */
  method CountFires(jobs: map<Key, Job>, entries: seq<Entry>, local: LocalZone, display: Zone, start: int, hours: int,
                    clocks: Key -> nat -> real)
      returns (grid: array2<int>, ghost plans: map<Key, Plan>)
    requires forall k :: k in jobs ==> ValidTab(jobs[k].tab) && ValidPlace(jobs[k].place)
    requires (forall i :: 0 <= i < |entries| ==> entries[i].key in jobs) && local.Valid() && hours >= 1
    modifies local, local.Cached()
    ensures local.Valid() && grid.Length0 == HOURS && grid.Length1 == MINUTES
    ensures AllPlanned(jobs, entries, plans, local.host, start, start + hours * HOUR_MICROS, clocks)
    ensures var from, to := Sec(start), Sec(start + hours * HOUR_MICROS - 1);
            Regular(plans, display) ==> forall h, m :: 0 <= h < HOURS && 0 <= m < MINUTES ==>
              grid[h, m] == TotalFires(plans, entries, display, from, to, (h, m))
                            + TotalOff(plans, entries, display, from, to, (h, m))
  {
    hide ValidTab;
    hide ValidPlace;
    hide AllPlanned;
    hide Accounted;
    hide Regular;
    hide Sec;
    hide GridAt;
    hide TotalFires;
    hide TotalOff;
    hide Sampled;
    hide WalkerOf;
    hide Mirrors;
    hide AllVouch;
    hide ValidZone;
    ghost var end := start + hours * HOUR_MICROS;
    var walks: map<Key, Walk>;
    walks, plans := WalkAll(jobs, entries, local, display, start, hours, clocks);
    AccountedIsPlanned(jobs, walks, plans, local.host, display, start, end, clocks, entries);
    var cellJobs, minuteJobs;
    grid, cellJobs, minuteJobs := FireCells(WalkerOf(walks), entries, false);
    if Regular(plans, display) {
      forall h, m | 0 <= h < HOURS && 0 <= m < MINUTES
        ensures grid[h, m] == TotalFires(plans, entries, display, Sec(start), Sec(end - 1), (h, m))
                              + TotalOff(plans, entries, display, Sec(start), Sec(end - 1), (h, m))
      {
        GridOfWalks(jobs, walks, plans, local.host, display, start, end, clocks, entries, (h, m));
      }
    }
  }

  // ----- a fire an unaligned window drops -----

  /** 02:30:30 on 8 March 2026, once. */
  const LATE: CronTab := LONE.(seconds := {30}, secondsSorted := [30])

  lemma LateFires(lab: int)
    ensures var a := DayAt(2026, 3, 8) + 9000;
            (Scheduled(LATE, lab) <==> lab == a + 30) && (Scheduled(MinuteTab(LATE), lab) <==> lab == a)
  {
    hide MonthStart;
    hide Fires;
    hide Year;
    hide Minute;
    var a := DayAt(2026, 3, 8) + 9000;
    assert MinuteTab(LATE) == LONE;
    LoneMatch(lab);
    LoneMatch(Minute(lab));
    LoneYear();
    MinuteFires(LATE, lab);
    Wrap(1440 * (MonthStart(2026, 3) + 7) + 150, 0);
    MinuteAndSecond(lab, a, 30);
  }

  lemma MinuteAndSecond(lab: int, a: int, s: int)
    requires a % MINUTE == 0 && 0 <= s < MINUTE
    ensures lab % MINUTE == s && Minute(lab) == a <==> lab == a + s
  {
    MinuteParts(a, s);
  }

  lemma LoneYear()
    ensures Year(DayAt(2026, 3, 8) + 9000) == 2026
  {
    hide MonthStart;
    hide DateOf;
    DayReads(2026, 3, 8, 9000);
  }

  /** Over the hour from 02:30:00 on, the schedule fires once and its minute walk finds nothing. */
  lemma UnalignedWindowDropsFire()
    ensures var z, a := Zone(0, []), DayAt(2026, 3, 8) + 9000;
            AllFires(LATE, z, a, a + 3599, [a + 30]) && AllFires(MinuteTab(LATE), z, a, a + 3599, [])
  {
    hide Scheduled;
    hide Resolve;
    hide MonthStart;
    var z, a := Zone(0, []), DayAt(2026, 3, 8) + 9000;
    forall m
      ensures Resolve(z, m) == m && (Scheduled(LATE, m) <==> m == a + 30) && (Scheduled(MinuteTab(LATE), m) <==> m == a)
    {
      FixedReading(0, m);
      LateFires(m);
    }
    forall u ensures (IsFire(LATE, z, u) <==> u == a + 30) && (IsFire(MinuteTab(LATE), z, u) <==> u == a) {
      assert Resolve(z, u) == u;
    }
  }
}
