/**
 Public forms of the search: the delay to the next fire, the stream of fires
 and the most recent fire.

 Every frame is read as a zone: a naive clock has offset zero, a fixed offset
 has no transitions. The fast paths for both must agree with the zoned search.
 */
module Occurrences {
  import opened Options
  import opened Calendar
  import opened Schedule
  import opened CivilWalk
  import opened CivilSearch
  import opened Zone
  import opened NextInstant

  datatype Frame = Naive | Fixed(offset: int) | Zoned(zone: Zone)

  function ZoneOf(f: Frame): Zone {
    match f
    case Naive => Zone(0, [])
    case Fixed(offset) => Zone(offset, [])
    case Zoned(zone) => zone
  }

  ghost predicate ValidFrame(f: Frame) {
    ValidZone(ZoneOf(f))
  }

  lemma FixedReading(offset: int, x: int)
    ensures var z := Zone(offset, []);
            Resolve(z, x) == x - offset && Show(z, x) == x + offset && InPlace(z, x)
            && Instant(z, x, false) == Instant(z, x, true) == x - offset
  {
    var z := Zone(offset, []);
    assert Segment(z, x) == 0 && WallSegment(z, x, false) == 0 && WallSegment(z, x, true) == 0;
    assert Segment(z, x - offset) == 0;
  }

  /** On a fixed offset the next civil match is the next fire. */
  lemma FixedNext(tab: CronTab, offset: int, lab: int, r: Option<int>)
    requires NextScheduled(tab, lab, r)
    ensures IsNextInstant(tab, Zone(offset, []), lab - offset, if r.Some? then Some(r.value - offset) else None)
  {
    hide Scheduled;
    hide Resolve;
    var z := Zone(offset, []);
    forall m ensures Resolve(z, m) == m - offset {
      FixedReading(offset, m);
    }
  }

  /** Seconds scaled to microseconds. */
  const MICROS := 1_000_000

  /**
   Microseconds until the first fire strictly after `now`, which is the label
   `lab` read with `fold`, plus `micro` millionths.
   */
  method Next(tab: CronTab, f: Frame, lab: int, fold: bool, micro: nat) returns (delay: Option<int>)
    requires ValidTab(tab) && ValidFrame(f) && micro < MICROS
    ensures var now := Instant(ZoneOf(f), lab, fold);
            match delay
            case None => IsNextInstant(tab, ZoneOf(f), now, None)
            case Some(d) => d > 0 && (d + micro) % MICROS == 0
                            && IsNextInstant(tab, ZoneOf(f), now, Some(now + (d + micro) / MICROS))
  {
    hide ValidTab;
    hide ValidZone;
    hide Instant;
    hide IsNextInstant;
    hide NextScheduled;
    var z := ZoneOf(f);
    ghost var now := Instant(z, lab, fold);
    if f.Zoned? {
      var r := NextInstant.NextInstant(tab, z, lab, fold);
      if r.None? {
        return None;
      }
      var nowUtc := Instant(z, lab, fold);
      NextIsAhead(tab, z, now, r.value);
      delay := Some((r.value - nowUtc) * MICROS - micro);
    } else {
      var target := NextMatch(tab, lab);
      FixedReading(z.first, lab);
      FixedNext(tab, z.first, lab, target);
      if target.None? {
        return None;
      }
      delay := Some((target.value - lab) * MICROS - micro);
    }
  }

  lemma NextIsAhead(tab: CronTab, z: Zone, now: int, u: int)
    requires IsNextInstant(tab, z, now, Some(u))
    ensures u > now
  {
    hide Scheduled;
    hide Resolve;
  }

  // ----- the stream -----

  lemma AheadAfterYield(tab: CronTab, z: Zone, now: int, civil: int, target: int)
    requires ValidZone(z) && AllAhead(tab, z, now, civil) && NextScheduled(tab, civil, Some(target))
    requires Resolve(z, target) > now && InPlace(z, target)
    ensures AllAhead(tab, z, Resolve(z, target), target)
  {
    hide Scheduled;
    hide Resolve;
  }

  lemma SeedAtMostShown(z: Zone, now: int)
    ensures Seed(z, now) <= Show(z, now)
  {
    hide Segment;
  }

  /** The iterator over fires strictly after a start. */
  class FireStream {
    const tab: CronTab
    const frame: Frame
    const zone: Zone
    var civil: int
    var lastUtc: int
    var last: int
    var lastFold: bool
    var careful: bool

    ghost predicate Valid()
      reads this
    {
      && ValidTab(tab) && ValidFrame(frame) && zone == ZoneOf(frame)
      && (frame.Zoned? ==>
            && lastUtc == Instant(zone, last, lastFold)
            && (!careful ==> Seed(zone, lastUtc) <= civil && AllAhead(tab, zone, lastUtc, civil)))
      && (!frame.Zoned? ==> lastUtc == civil - zone.first)
    }

    constructor (tab: CronTab, frame: Frame, start: int, fold: bool)
      requires ValidTab(tab) && ValidFrame(frame)
      ensures Valid() && this.tab == tab && this.frame == frame
      ensures lastUtc == Instant(ZoneOf(frame), start, fold)
      ensures careful <==> Seed(ZoneOf(frame), lastUtc) != start
    {
      hide ValidTab;
      hide ValidZone;
      hide Instant;
      hide GapRewoundSeed;
      hide Seed;
      hide AllAhead;
      var z := ZoneOf(frame);
      this.tab, this.frame, this.zone := tab, frame, z;
      civil, last, lastFold := start, start, fold;
      lastUtc := Instant(z, start, fold);
      careful := GapRewoundSeed(z, start, Instant(z, start, fold)) != start;
      RewoundSeedIsSeed(z, start, fold);
      SeedIsBehind(tab, z, Instant(z, start, fold));
      FixedReading(z.first, start);
    }

    /** The next fire, which is exactly the next instant after the last one. */
    method Step() returns (r: Option<int>)
      requires Valid()
      modifies this
      ensures Valid()
      ensures IsNextInstant(tab, zone, old(lastUtc), r)
      ensures lastUtc == if r.Some? then r.value else old(lastUtc)
    {
      hide ValidTab;
      hide ValidZone;
      hide Instant;
      hide GapRewoundSeed;
      hide Seed;
      hide AllAhead;
      hide Resolve;
      hide Show;
      hide IsNextInstant;
      hide NextScheduled;
      hide FirstLeft;
      hide HorizonEnd;
      if !frame.Zoned? {
        r := NextMatch(tab, civil);
        FixedNext(tab, zone.first, civil, r);
        if r.Some? {
          civil := r.value;
          r := Some(r.value - zone.first);
          lastUtc := r.value;
        }
        return;
      }
      ghost var now := lastUtc;
      while true
        invariant Valid() && lastUtc == now
        decreases HorizonEnd() - civil, !careful
      {
        if careful {
          r := NextInstant.NextInstant(tab, zone, last, lastFold);
          if r.None? {
            return;
          }
          ShowRoundTrip(zone, r.value);
          last, lastUtc := Show(zone, r.value), r.value;
          lastFold := FoldAt(zone, r.value);
          civil := last;
          careful := GapRewoundSeed(zone, last, lastUtc) != civil;
          RewoundSeedIsSeed(zone, last, lastFold);
          SeedIsBehind(tab, zone, lastUtc);
          return;
        }
        r := NextMatch(tab, civil);
        if r.None? {
          NoneAhead(tab, zone, now, civil);
          return;
        }
        var target := r.value;
        StepAhead(tab, zone, now, civil, target);
        var resolved := Resolve(zone, target);
        var resolvedCivil := Show(zone, resolved);
        if resolved <= lastUtc {
          PassedIsInPlace(zone, now, target);
          civil := Max(target, resolvedCivil);
          continue;
        }
        if resolvedCivil != target {
          careful := true;
          continue;
        }
        InPlaceWins(tab, zone, now, target);
        AheadAfterYield(tab, zone, now, civil, target);
        ShowRoundTrip(zone, resolved);
        SeedAtMostShown(zone, resolved);
        r := Some(resolved);
        last, lastUtc, lastFold := resolvedCivil, resolved, FoldAt(zone, resolved);
        civil := resolvedCivil;
        return;
      }
    }
  }

  lemma NextIsLeast(tab: CronTab, z: Zone, now: int, r: Option<int>, v: int)
    requires IsNextInstant(tab, z, now, r) && IsFire(tab, z, v) && v > now
    ensures r.Some? && r.value <= v
  {
    hide Scheduled;
    hide Resolve;
    var m :| Scheduled(tab, m) && Resolve(z, m) == v;
  }

  lemma NextIsFire(tab: CronTab, z: Zone, now: int, u: int)
    requires IsNextInstant(tab, z, now, Some(u))
    ensures IsFire(tab, z, u) && u > now
  {
    hide Scheduled;
    hide Resolve;
  }

  /** `out` lists exactly the fires in `(from, to]`, each once, in order. */
  ghost predicate AllFires(tab: CronTab, z: Zone, from: int, to: int, out: seq<int>) {
    && (forall i, j :: 0 <= i < j < |out| ==> out[i] < out[j])
    && (forall u :: u in out <==> IsFire(tab, z, u) && from < u <= to)
  }

  lemma NoFiresYet(tab: CronTab, z: Zone, from: int)
    ensures AllFires(tab, z, from, from, [])
  {}

  /** One step of the stream extends the list of fires. */
  lemma OneMoreFire(tab: CronTab, z: Zone, from: int, now: int, out: seq<int>, u: int)
    requires AllFires(tab, z, from, now, out) && from <= now && IsNextInstant(tab, z, now, Some(u))
    ensures AllFires(tab, z, from, u, out + [u])
  {
    hide IsFire;
    hide IsNextInstant;
    NextIsFire(tab, z, now, u);
    forall v ensures v in out + [u] <==> IsFire(tab, z, v) && from < v <= u {
      if IsFire(tab, z, v) && v > now {
        NextIsLeast(tab, z, now, Some(u), v);
      }
    }
    assert forall i :: 0 <= i < |out| ==> out[i] in out;
  }

  /** The stream stopped at `r`: nothing more fires before `end`. */
  lemma NoMoreFires(tab: CronTab, z: Zone, from: int, now: int, end: int, out: seq<int>, r: Option<int>)
    requires AllFires(tab, z, from, now, out) && from <= now && now < end
    requires IsNextInstant(tab, z, now, r) && (r.None? || r.value >= end)
    ensures AllFires(tab, z, from, end - 1, out)
  {
    hide IsFire;
    hide IsNextInstant;
    forall v ensures v in out <==> IsFire(tab, z, v) && from < v <= end - 1 {
      if IsFire(tab, z, v) && v > now {
        NextIsLeast(tab, z, now, r, v);
      }
    }
  }

  /** Every fire strictly after the start and before `end`, in order. */
  method FiresBefore(tab: CronTab, f: Frame, start: int, fold: bool, end: int) returns (out: seq<int>)
    requires ValidTab(tab) && ValidFrame(f)
    ensures var from := Instant(ZoneOf(f), start, fold);
            if from < end then AllFires(tab, ZoneOf(f), from, end - 1, out) else out == []
  {
    hide ValidTab;
    hide ValidZone;
    hide Instant;
    hide IsNextInstant;
    hide AllFires;
    var stream := new FireStream(tab, f, start, fold);
    out := [];
    ghost var z := ZoneOf(f);
    ghost var from := stream.lastUtc;
    NoFiresYet(tab, z, from);
    while true
      invariant stream.Valid() && stream.tab == tab && stream.frame == f
      invariant from <= stream.lastUtc && (from < end ==> stream.lastUtc < end)
      invariant AllFires(tab, z, from, stream.lastUtc, out)
      invariant from >= end ==> out == []
      decreases end - stream.lastUtc
    {
      ghost var now := stream.lastUtc;
      var r := stream.Step();
      if r.None? {
        if from < end {
          NoMoreFires(tab, z, from, now, end, out, r);
        }
        return;
      }
      NextIsFire(tab, z, now, r.value);
      if r.value >= end {
        if from < end {
          NoMoreFires(tab, z, from, now, end, out, r);
        }
        return;
      }
      OneMoreFire(tab, z, from, now, out, r.value);
      out := out + [r.value];
    }
  }

  // ----- the most recent fire -----

  /** `u` is the greatest fire before `end`. */
  ghost predicate IsLastFire(tab: CronTab, z: Zone, end: int, u: int) {
    IsFire(tab, z, u) && u < end && forall v :: IsFire(tab, z, v) && v < end ==> v <= u
  }

  lemma LastOfFires(tab: CronTab, z: Zone, from: int, end: int, out: seq<int>)
    requires AllFires(tab, z, from, end - 1, out) && out != []
    ensures IsLastFire(tab, z, end, out[|out| - 1])
  {
    hide IsFire;
    var u := out[|out| - 1];
    assert u in out;
    assert forall v :: v in out ==> v <= u;
    assert forall v :: IsFire(tab, z, v) && from < v < end ==> v in out;
  }

  /** The backward walk may start from label `a`: it matches, is in place, and lies below the ceiling. */
  ghost predicate Anchor(tab: CronTab, z: Zone, ceiling: int, a: int) {
    a < ceiling && Year(a) >= YEAR_FLOOR && Fires(tab, a) && InPlace(z, a)
  }

  /** Replaying forward from just before `a` meets a fire before `end`. */
  ghost predicate Replays(tab: CronTab, z: Zone, end: int, a: int) {
    exists u :: IsFire(tab, z, u) && Resolve(z, a - 1) < u < end
  }

  /**
   The same on labels: a match in place along with the second before it replays
   itself; one on the edge of a gap needs a match that resolves past the gap's
   shifted stretch.
   */
  ghost predicate Reports(tab: CronTab, z: Zone, end: int, a: int) {
    if InPlace(z, a - 1) then Resolve(z, a) < end
    else exists m :: Scheduled(tab, m) && Resolve(z, a - 1) < Resolve(z, m) < end
  }

  /** Labels below this can be anchors: those before `now`'s own label, and before the horizon's edge. */
  ghost function AnchorCeiling(lab: int, micro: nat): int {
    if lab >= HorizonEnd() then HorizonEnd() else if micro != 0 then lab + 1 else lab
  }

  /**
   The most recent fire strictly before `now`, which is the label `lab` read with
   `fold`, plus `micro` millionths. A fire found is the greatest; one is found
   exactly when some anchor reports one.
   */
  method Prev(tab: CronTab, f: Frame, lab: int, fold: bool, micro: nat) returns (r: Option<int>)
    requires ValidTab(tab) && ValidFrame(f) && !f.Naive?
    ensures var z := ZoneOf(f);
            var end := Instant(z, lab, fold) + if micro != 0 then 1 else 0;
            && (r.Some? ==> IsLastFire(tab, z, end, r.value))
            && (r.Some? <==> exists a :: Anchor(tab, z, AnchorCeiling(lab, micro), a) && Reports(tab, z, end, a))
  {
    hide ValidTab;
    hide ValidZone;
    hide Instant;
    hide Show;
    hide Fires;
    hide Year;
    hide AllFires;
    hide IsLastFire;
    hide IsFire;
    hide DayStart;
    var z := ZoneOf(f);
    var end := Instant(z, lab, fold) + if micro != 0 then 1 else 0;
    var edge := DayStart(YEAR_HORIZON + 1, 1);
    var anchor;
    if lab >= edge {
      anchor := PrevCivil(tab, edge, 0);
    } else {
      anchor := PrevCivil(tab, lab, micro);
    }
    ghost var ceiling := AnchorCeiling(lab, micro);
    while anchor.Some?
      invariant anchor.Some? ==> anchor.value < ceiling && Fires(tab, anchor.value) && Year(anchor.value) >= YEAR_FLOOR
      invariant forall a :: Anchor(tab, z, ceiling, a) && Replays(tab, z, end, a) ==> anchor.Some? && a <= anchor.value
      decreases if anchor.Some? then anchor.value - DayStart(YEAR_FLOOR, 1) + 1 else 0
    {
      var a := anchor.value;
      YearBounds(a, YEAR_FLOOR);
      var resolved := Resolve(z, a);
      if Show(z, resolved) == a {
        var replay := FiresBefore(tab, f, a - 1, false, end);
        ReplayDecides(tab, z, a, end, replay);
        if replay != [] {
          assert Anchor(tab, z, ceiling, a);
          ReplaysIsReports(tab, z, end, ceiling, a);
          return Some(replay[|replay| - 1]);
        }
      }
      anchor := PrevCivil(tab, a, 0);
    }
    forall a | Anchor(tab, z, ceiling, a) ensures !Reports(tab, z, end, a) {
      ReplaysIsReports(tab, z, end, ceiling, a);
    }
    r := None;
  }

  lemma AnchorIsScheduled(tab: CronTab, z: Zone, ceiling: int, a: int)
    requires Anchor(tab, z, ceiling, a) && ceiling <= HorizonEnd()
    ensures Scheduled(tab, a)
  {
    hide Fires;
    YearBounds(a, YEAR_HORIZON + 1);
  }

  lemma ReplaysLabel(tab: CronTab, z: Zone, end: int, a: int)
    ensures Replays(tab, z, end, a) <==> exists m :: Scheduled(tab, m) && Resolve(z, a - 1) < Resolve(z, m) < end
  {
    hide Resolve;
    hide Scheduled;
    if m :| Scheduled(tab, m) && Resolve(z, a - 1) < Resolve(z, m) < end {
      assert IsFire(tab, z, Resolve(z, m));
    }
  }

  /** For an anchor, replaying a fire is decided on labels. */
  lemma ReplaysIsReports(tab: CronTab, z: Zone, end: int, ceiling: int, a: int)
    requires ValidZone(z) && Anchor(tab, z, ceiling, a) && ceiling <= HorizonEnd()
    ensures Replays(tab, z, end, a) <==> Reports(tab, z, end, a)
  {
    hide Resolve;
    hide InPlace;
    hide ValidZone;
    hide Fires;
    hide Year;
    AnchorIsScheduled(tab, z, ceiling, a);
    hide Scheduled;
    hide Replays;
    ReplaysLabel(tab, z, end, a);
    if InPlace(z, a - 1) {
      if Resolve(z, a) < end {
        SettledAnchorReplays(tab, z, end, a);
      } else {
        forall m | Scheduled(tab, m) ensures !(Resolve(z, a - 1) < Resolve(z, m) < end) {
          NothingBetween(z, a, m);
        }
      }
    }
  }

  lemma ReplayDecides(tab: CronTab, z: Zone, a: int, end: int, replay: seq<int>)
    requires var from := Resolve(z, a - 1);
             if from < end then AllFires(tab, z, from, end - 1, replay) else replay == []
    ensures replay != [] <==> Replays(tab, z, end, a)
    ensures replay != [] ==> IsLastFire(tab, z, end, replay[|replay| - 1])
  {
    hide IsFire;
    hide Resolve;
    hide IsLastFire;
    if replay != [] {
      LastOfFires(tab, z, Resolve(z, a - 1), end, replay);
      assert replay[0] in replay;
    }
  }

  /** An in-place match whose preceding second is in place too always replays its own fire. */
  lemma SettledAnchorReplays(tab: CronTab, z: Zone, end: int, a: int)
    requires ValidZone(z) && Scheduled(tab, a) && InPlace(z, a) && InPlace(z, a - 1) && Resolve(z, a) < end
    ensures Replays(tab, z, end, a)
  {
    hide Scheduled;
    hide Resolve;
    hide ValidZone;
    hide InPlace;
    InPlaceAscends(z, a - 1, a);
    assert IsFire(tab, z, Resolve(z, a));
  }

  // ----- a fire the backward walk cannot see -----

  /** 02:30 on 8 March 2026, once. */
  const LONE: CronTab :=
    CronTab({0}, {30}, {2}, {8}, {}, {}, false, {3}, {0, 1, 2, 3, 4, 5, 6}, {}, {}, Some({2026}),
            [0], [30], [2], [8], [3], [2026])

  /** A zone five hours behind UTC that springs forward at 02:00 that day. */
  function SpringZone(): Zone {
    Zone(-5 * 3600, [Step(DayAt(2026, 3, 8) + 7 * 3600, -4 * 3600)])
  }

  lemma LoneMatch(a: int)
    ensures Fires(LONE, a) <==> a == DayAt(2026, 3, 8) + 9000
  {
    hide MonthStart;
    hide DateOf;
    hide DowIn;
    var day := Date(2026, 3, 8);
    if Fires(LONE, a) {
      assert LabelDate(a) == day && LabelTime(a) == Hms(2, 30, 0);
      LabelWhole(a);
      assert DayOf(a) == Ordinal(day);
      assert TodOf(a) == TimeOfDay(Hms(2, 30, 0));
    }
    if a == DayAt(2026, 3, 8) + 9000 {
      DayReads(2026, 3, 8, 9000);
      HmsOfTime(Hms(2, 30, 0));
      assert TimeOfDay(Hms(2, 30, 0)) == 9000;
    }
  }

  lemma LoneIsValid()
    ensures ValidTab(LONE)
  {}

  lemma LoneIsShifted()
    ensures var z, a := SpringZone(), DayAt(2026, 3, 8) + 9000;
            && ValidZone(z) && Resolve(z, a) == a + 5 * 3600 && !InPlace(z, a)
            && Instant(z, a + 9 * 3600, false) == a + 13 * 3600
  {
    hide MonthStart;
    var z, a := SpringZone(), DayAt(2026, 3, 8) + 9000;
    assert WallStep(z, 0, false) == DayAt(2026, 3, 8) + 3 * 3600;
    assert WallSegmentUpTo(z, a, false, 1) == 0;
    assert WallSegmentUpTo(z, a + 9 * 3600, false, 1) == 1;
    assert SegmentUpTo(z, a + 5 * 3600, 1) == 1;
  }

  /**
   The shifted run of a lone gap label is a fire before noon of that day, and
   yet the label has no anchor, so the backward walk reports nothing.
   */
  lemma LoneGapFireHasNoAnchor()
    ensures var z, a := SpringZone(), DayAt(2026, 3, 8) + 9000;
            var now := Instant(z, a + 9 * 3600, false);
            && ValidTab(LONE) && ValidZone(z) && IsFire(LONE, z, a + 5 * 3600) && a + 5 * 3600 < now
            && forall b, ceiling :: !Anchor(LONE, z, ceiling, b)
  {
    hide MonthStart;
    hide Fires;
    hide Resolve;
    hide InPlace;
    hide Instant;
    var z, a := SpringZone(), DayAt(2026, 3, 8) + 9000;
    hide ValidZone;
    hide ValidTab;
    LoneIsValid();
    LoneIsShifted();
    forall b ensures Fires(LONE, b) <==> b == a {
      LoneMatch(b);
    }
    DayReads(2026, 3, 8, 9000);
    assert Year(a) == 2026;
    assert Scheduled(LONE, a);
  }
}
