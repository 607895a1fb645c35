/**
 A time zone as a step function from UTC seconds to whole-second offsets, and
 the reading of civil labels in it (PEP 495): in a gap, fold 0 keeps the offset
 from before the transition; in a repeated stretch, fold 0 is the first leg.
 */
module Zone {
  import opened Calendar

  /** How far back the forward scan looks for a spring-forward. */
  const GAP_PROBE := 26 * 3600

  /** From second `at` on the offset is `to`. */
  datatype Step = Step(at: int, to: int)

  datatype Zone = Zone(first: int, steps: seq<Step>)

  /** The offset in force after `k` transitions. */
  function Offset(z: Zone, k: int): int
    requires 0 <= k <= |z.steps|
  {
    if k == 0 then z.first else z.steps[k - 1].to
  }

  /** The widening of transition `i`; zero or less when the clock moves back. */
  function Jump(z: Zone, i: int): int
    requires 0 <= i < |z.steps|
  {
    z.steps[i].to - Offset(z, i)
  }

  /**
   Offsets as `datetime` admits them, no jump wider than the probe and no two
   transitions inside two probe windows.
   */
  ghost predicate ValidZone(z: Zone) {
    && (forall k :: 0 <= k <= |z.steps| ==> -DAY < Offset(z, k) < DAY)
    && (forall k :: 0 <= k < |z.steps| ==> -GAP_PROBE <= Jump(z, k) <= GAP_PROBE)
    && (forall i, j :: 0 <= i < j < |z.steps| ==> z.steps[i].at + 2 * GAP_PROBE <= z.steps[j].at)
  }

  // ----- from instants to labels -----

  function SegmentUpTo(z: Zone, t: int, n: nat): (k: nat)
    requires n <= |z.steps|
    ensures k <= n
    ensures k > 0 ==> z.steps[k - 1].at <= t
    ensures forall i :: k <= i < n ==> t < z.steps[i].at
  {
    if n == 0 then 0 else if z.steps[n - 1].at <= t then n else SegmentUpTo(z, t, n - 1)
  }

  /** How many transitions lie at or before an instant. */
  function Segment(z: Zone, t: int): (k: nat)
    ensures k <= |z.steps|
    ensures k > 0 ==> z.steps[k - 1].at <= t
    ensures forall i :: k <= i < |z.steps| ==> t < z.steps[i].at
  {
    SegmentUpTo(z, t, |z.steps|)
  }

  function OffsetAt(z: Zone, t: int): int {
    Offset(z, Segment(z, t))
  }

  /** The label the zone shows at an instant. */
  function Show(z: Zone, t: int): int {
    t + OffsetAt(z, t)
  }

  // ----- from labels to instants -----

  /** The first label read with the offset after transition `i`. */
  function WallStep(z: Zone, i: int, fold: bool): int
    requires 0 <= i < |z.steps|
  {
    var before, after := Offset(z, i), z.steps[i].to;
    z.steps[i].at + if (before < after) == fold then before else after
  }

  function WallSegmentUpTo(z: Zone, lab: int, fold: bool, n: nat): (k: nat)
    requires n <= |z.steps|
    ensures k <= n
    ensures k > 0 ==> WallStep(z, k - 1, fold) <= lab
    ensures forall i :: k <= i < n ==> lab < WallStep(z, i, fold)
  {
    if n == 0 then 0 else if WallStep(z, n - 1, fold) <= lab then n else WallSegmentUpTo(z, lab, fold, n - 1)
  }

  function WallSegment(z: Zone, lab: int, fold: bool): (k: nat)
    ensures k <= |z.steps|
    ensures k > 0 ==> WallStep(z, k - 1, fold) <= lab
    ensures forall i :: k <= i < |z.steps| ==> lab < WallStep(z, i, fold)
  {
    WallSegmentUpTo(z, lab, fold, |z.steps|)
  }

  /** The instant an aware label denotes. */
  function Instant(z: Zone, lab: int, fold: bool): int {
    lab - Offset(z, WallSegment(z, lab, fold))
  }

  /** The instant a scheduled label fires at. */
  function Resolve(z: Zone, lab: int): int {
    Instant(z, lab, false)
  }

  /** The zone shows this label at the instant it resolves to. */
  predicate InPlace(z: Zone, lab: int) {
    Show(z, Resolve(z, lab)) == lab
  }

  // ----- the shape of fold 0 resolution -----

  lemma StepOrder(z: Zone, i: int, j: int)
    requires ValidZone(z) && 0 <= i <= j < |z.steps|
    ensures z.steps[i].at <= z.steps[j].at
  {}

  lemma SegmentIs(z: Zone, t: int, k: int)
    requires ValidZone(z) && 0 <= k <= |z.steps|
    requires k > 0 ==> z.steps[k - 1].at <= t
    requires k < |z.steps| ==> t < z.steps[k].at
    ensures Segment(z, t) == k
  {
    hide Segment;
    hide ValidZone;
    var s := Segment(z, t);
    if s > k {
      StepOrder(z, k, s - 1);
    } else if s < k {
      StepOrder(z, s, k - 1);
    }
  }

  /**
   Every label is either in place, with its instant in the segment it was read
   in, or a gap label, shown later by the width of the gap.
   */
  lemma Reading(z: Zone, lab: int)
    requires ValidZone(z)
    ensures var k, u := WallSegment(z, lab, false), Resolve(z, lab);
            if k < |z.steps| && z.steps[k].at <= u then
              && Jump(z, k) > 0 && u < z.steps[k].at + Jump(z, k)
              && Segment(z, u) == k + 1 && Show(z, u) == lab + Jump(z, k) && !InPlace(z, lab)
            else
              Segment(z, u) == k && InPlace(z, lab)
  {
    hide Segment;
    hide WallSegment;
    var k, u := WallSegment(z, lab, false), Resolve(z, lab);
    if k < |z.steps| {
      assert lab < WallStep(z, k, false) && Jump(z, k) <= GAP_PROBE;
      if z.steps[k].at <= u {
        SegmentIs(z, u, k + 1);
      } else {
        SegmentIs(z, u, k);
      }
    } else {
      SegmentIs(z, u, k);
    }
  }

  lemma WallOrder(z: Zone, i: int, j: int)
    requires ValidZone(z) && 0 <= i < j < |z.steps|
    ensures WallStep(z, i, false) < WallStep(z, j, false)
  {
    assert Offset(z, i + 1) == z.steps[i].to && Offset(z, j + 1) == z.steps[j].to;
  }

  lemma WallSegmentsAscend(z: Zone, a: int, b: int)
    requires ValidZone(z)
    ensures a <= b ==> WallSegment(z, a, false) <= WallSegment(z, b, false)
  {
    hide WallSegment;
    hide WallStep;
    hide ValidZone;
    var i: int, j: int := WallSegment(z, a, false), WallSegment(z, b, false);
    if j < i - 1 {
      WallOrder(z, j, i - 1);
    }
  }

  /** Past an in-place label, resolution ascends. */
  lemma InPlaceAscends(z: Zone, a: int, b: int)
    requires ValidZone(z) && InPlace(z, a) && a < b
    ensures Resolve(z, a) < Resolve(z, b)
  {
    hide Segment;
    hide WallSegment;
    Reading(z, a);
    Reading(z, b);
    WallSegmentsAscend(z, a, b);
    var i: int, j: int := WallSegment(z, a, false), WallSegment(z, b, false);
    assert i < j ==> a < WallStep(z, i, false) && WallStep(z, j - 1, false) <= b;
  }

  /** Labels of later segments lie ahead of the shown label. */
  lemma AheadOfShow(z: Zone, now: int, j: int)
    requires ValidZone(z) && Segment(z, now) < j <= |z.steps|
    ensures Show(z, now) < WallStep(z, j - 1, false)
  {
    hide Segment;
    var i: int := Segment(z, now);
    assert now < z.steps[i].at;
    assert i < j - 1 ==> z.steps[i].at + 2 * GAP_PROBE <= z.steps[j - 1].at;
  }

  /** An in-place label at or behind the shown label is not in the future. */
  lemma ShownIsPast(z: Zone, now: int, lab: int)
    requires ValidZone(z) && InPlace(z, lab) && lab <= Show(z, now)
    ensures Resolve(z, lab) <= now
  {
    hide Segment;
    hide WallSegment;
    hide WallStep;
    hide ValidZone;
    Reading(z, lab);
    SegmentsAscend(z, now, Resolve(z, lab));
    var j := WallSegment(z, lab, false);
    if Segment(z, now) < j {
      AheadOfShow(z, now, j);
    }
  }

  lemma SegmentsAscend(z: Zone, a: int, b: int)
    requires ValidZone(z)
    ensures a <= b ==> Segment(z, a) <= Segment(z, b)
  {
    hide Segment;
    hide ValidZone;
    var i, j := Segment(z, a), Segment(z, b);
    if j < i {
      StepOrder(z, j, i - 1);
    }
  }

  // ----- the forward seed -----

  /** Shifted fires of the last spring-forward can still be ahead of `now`. */
  predicate Pending(z: Zone, now: int) {
    var k := Segment(z, now);
    k > 0 && Jump(z, k - 1) > 0 && now < z.steps[k - 1].at + Jump(z, k - 1)
  }

  /** The label behind which no fire is left. */
  function Seed(z: Zone, now: int): int {
    var k := Segment(z, now);
    if Pending(z, now) then now + Offset(z, k - 1) else now + Offset(z, k)
  }

  /** Everything at or behind the seed has fired. */
  lemma BehindSeed(z: Zone, now: int, lab: int)
    requires ValidZone(z) && lab <= Seed(z, now)
    ensures Resolve(z, lab) <= now
  {
    hide Segment;
    hide WallSegment;
    hide WallStep;
    Reading(z, lab);
    var i: int, j: int := Segment(z, now), WallSegment(z, lab, false);
    if InPlace(z, lab) {
      ShownIsPast(z, now, lab);
    } else if i < j {
      AheadOfShow(z, now, j);
    } else {
      assert j + 1 < i ==> z.steps[j].at + 2 * GAP_PROBE <= z.steps[i - 1].at;
      assert Jump(z, j) <= GAP_PROBE;
    }
  }

  /** The seed clears every gap but the last. */
  lemma LaterSeed(z: Zone, now: int, j: int)
    requires ValidZone(z) && 0 < j < Segment(z, now)
    ensures z.steps[j - 1].at + z.steps[j - 1].to <= Seed(z, now)
  {
    hide Segment;
    var i: int := Segment(z, now);
    assert z.steps[j - 1].at + 2 * GAP_PROBE <= z.steps[i - 1].at;
    assert Offset(z, j) == z.steps[j - 1].to;
  }

  /** A label past the seed that has already fired is in place. */
  lemma PassedIsInPlace(z: Zone, now: int, lab: int)
    requires ValidZone(z) && Seed(z, now) < lab && Resolve(z, lab) <= now
    ensures InPlace(z, lab)
  {
    hide Segment;
    hide WallSegment;
    Reading(z, lab);
    var i: int, j: int := Segment(z, now), WallSegment(z, lab, false);
    var u := Resolve(z, lab);
    SegmentsAscend(z, u, now);
    if !InPlace(z, lab) && j + 1 < i {
      LaterSeed(z, now, j + 1);
    }
  }

  /** The seed the engine computes from an aware label and its instant. */
  function GapRewoundSeed(z: Zone, civil: int, now: int): int {
    var offNow := civil - now;
    var offThen := OffsetAt(z, now - GAP_PROBE);
    if offNow <= offThen then civil
    else
      var jump := offNow - offThen;
      if OffsetAt(z, now - jump) == offNow then civil else civil - jump
  }

  /** With fold 1 a gap label is read with the offset after the gap, before the transition. */
  lemma LaterReading(z: Zone, lab: int)
    requires ValidZone(z)
    ensures var k, u := WallSegment(z, lab, true), Instant(z, lab, true);
            if k > 0 && u < z.steps[k - 1].at then
              Segment(z, u) == k - 1 && Jump(z, k - 1) > 0 && z.steps[k - 1].at - Jump(z, k - 1) <= u
            else
              Segment(z, u) == k
  {
    hide Segment;
    hide WallSegment;
    var k: int, u := WallSegment(z, lab, true), Instant(z, lab, true);
    assert k < |z.steps| ==> lab < WallStep(z, k, true);
    if k > 0 && u < z.steps[k - 1].at {
      assert Jump(z, k - 1) <= GAP_PROBE;
      assert k > 1 ==> z.steps[k - 2].at + 2 * GAP_PROBE <= z.steps[k - 1].at;
      SegmentIs(z, u, k - 1);
    } else {
      SegmentIs(z, u, k);
    }
  }

  lemma SeedOfShown(z: Zone, now: int)
    requires ValidZone(z)
    ensures GapRewoundSeed(z, Show(z, now), now) == Seed(z, now)
  {
    hide Segment;
    var i: int := Segment(z, now);
    if i > 0 {
      var at, jump := z.steps[i - 1].at, Jump(z, i - 1);
      assert jump <= GAP_PROBE;
      assert i > 1 ==> z.steps[i - 2].at + 2 * GAP_PROBE <= at;
      if now - GAP_PROBE < at {
        SegmentIs(z, now - GAP_PROBE, i - 1);
        if jump > 0 {
          SegmentIs(z, now - jump, if now - jump < at then i - 1 else i);
        }
      } else {
        SegmentIs(z, now - GAP_PROBE, i);
      }
    } else {
      SegmentIs(z, now - GAP_PROBE, 0);
    }
  }

  /** A nonexistent label read with fold 0 is its own rewound seed. */
  lemma SeedInGap(z: Zone, now: int)
    requires ValidZone(z) && Pending(z, now)
    ensures GapRewoundSeed(z, now + Offset(z, Segment(z, now) - 1), now) == now + Offset(z, Segment(z, now) - 1)
  {
    hide Segment;
    var k: int := Segment(z, now) - 1;
    assert Jump(z, k) <= GAP_PROBE;
    assert k > 0 ==> z.steps[k - 1].at + 2 * GAP_PROBE <= z.steps[k].at;
    SegmentIs(z, now - GAP_PROBE, k);
  }

  /** A nonexistent label read with fold 1 rewinds to the label shown. */
  lemma SeedBeforeGap(z: Zone, now: int)
    requires ValidZone(z) && Segment(z, now) < |z.steps|
    requires Jump(z, Segment(z, now)) > 0 && z.steps[Segment(z, now)].at - Jump(z, Segment(z, now)) <= now
    ensures GapRewoundSeed(z, now + z.steps[Segment(z, now)].to, now) == Seed(z, now)
  {
    hide Segment;
    var i: int := Segment(z, now);
    assert Jump(z, i) <= GAP_PROBE;
    if i > 0 {
      assert z.steps[i - 1].at + 2 * GAP_PROBE <= z.steps[i].at;
      assert Jump(z, i - 1) <= GAP_PROBE;
    }
    SegmentIs(z, now - GAP_PROBE, i);
    SegmentIs(z, now - Jump(z, i), i);
  }

  /** Whatever the label of `now` (nonexistent and repeated ones too), the engine's seed is the seed. */
  lemma RewoundSeedIsSeed(z: Zone, civil: int, fold: bool)
    requires ValidZone(z)
    ensures GapRewoundSeed(z, civil, Instant(z, civil, fold)) == Seed(z, Instant(z, civil, fold))
  {
    hide Segment;
    hide WallSegment;
    hide WallStep;
    hide ValidZone;
    hide GapRewoundSeed;
    var now := Instant(z, civil, fold);
    var i: int, k: int := Segment(z, now), WallSegment(z, civil, fold);
    if fold {
      LaterReading(z, civil);
    } else {
      Reading(z, civil);
    }
    if i == k {
      SeedOfShown(z, now);
    } else if i == k + 1 {
      SeedInGap(z, now);
    } else {
      SeedBeforeGap(z, now);
    }
  }

  // ----- inside a gap -----

  lemma WallSegmentIs(z: Zone, lab: int, k: int)
    requires ValidZone(z) && 0 <= k <= |z.steps|
    requires k > 0 ==> WallStep(z, k - 1, false) <= lab
    requires k < |z.steps| ==> lab < WallStep(z, k, false)
    ensures WallSegment(z, lab, false) == k
  {
    hide WallSegment;
    hide WallStep;
    hide ValidZone;
    var s: int := WallSegment(z, lab, false);
    if s - 1 > k {
      WallOrder(z, k, s - 1);
    } else if s < k - 1 {
      WallOrder(z, s, k - 1);
    }
  }

  /** The first label after the gap that holds `lab`. */
  ghost function GapEdge(z: Zone, lab: int): int
    requires ValidZone(z) && !InPlace(z, lab)
  {
    Reading(z, lab);
    var k := WallSegment(z, lab, false);
    z.steps[k].at + z.steps[k].to
  }

  /**
   From a gap label up to where the clock shows it, the labels split at the gap's
   edge: shifted ones before it, in-place ones after it.
   */
  lemma GapShape(z: Zone, lab: int, x: int)
    requires ValidZone(z) && !InPlace(z, lab)
    ensures var u, edge := Resolve(z, lab), GapEdge(z, lab);
            && lab < edge <= Show(z, u)
            && (lab <= x < edge ==> !InPlace(z, x) && Resolve(z, x) == u + (x - lab))
            && (edge <= x <= Show(z, u) ==> InPlace(z, x) && Resolve(z, x) == u - (Show(z, u) - x))
  {
    hide Segment;
    hide WallSegment;
    Reading(z, lab);
    Reading(z, x);
    var k, edge, shown := WallSegment(z, lab, false), GapEdge(z, lab), Show(z, Resolve(z, lab));
    assert Jump(z, k) <= GAP_PROBE;
    if lab <= x < edge {
      WallSegmentIs(z, x, k);
    } else if edge <= x <= shown {
      assert k + 1 < |z.steps| ==> z.steps[k].at + 2 * GAP_PROBE <= z.steps[k + 1].at;
      WallSegmentIs(z, x, k + 1);
    }
  }

  /** Where two neighbouring in-place labels are read with different offsets, the clock moves back. */
  lemma NeighboursRead(z: Zone, a: int)
    requires ValidZone(z) && InPlace(z, a - 1) && InPlace(z, a)
    ensures var i := WallSegment(z, a - 1, false);
            Resolve(z, a) == Resolve(z, a - 1) + 1 || (i < |z.steps| && Resolve(z, a - 1) == z.steps[i].at - 1)
  {
    hide Segment;
    hide WallSegment;
    Reading(z, a - 1);
    WallSegmentsAscend(z, a - 1, a);
    var i: int, j: int := WallSegment(z, a - 1, false), WallSegment(z, a, false);
    if i < j {
      assert a - 1 < WallStep(z, i, false);
      if i < j - 1 {
        WallOrder(z, i, j - 1);
      }
      CrossedStep(z, a, i, j);
    }
  }

  lemma CrossedStep(z: Zone, a: int, i: int, j: int)
    requires ValidZone(z) && 0 <= i < j <= |z.steps| && j == WallSegment(z, a, false)
    requires a - 1 < WallStep(z, i, false)
    ensures WallStep(z, i, false) == a
  {
    hide WallSegment;
    hide WallStep;
    hide ValidZone;
    if i < j - 1 {
      WallOrder(z, i, j - 1);
    }
  }

  /** No label resolves between two neighbouring in-place labels. */
  lemma NothingBetween(z: Zone, a: int, m: int)
    requires ValidZone(z) && InPlace(z, a - 1) && InPlace(z, a)
    ensures Resolve(z, m) <= Resolve(z, a - 1) || Resolve(z, a) <= Resolve(z, m)
  {
    hide Segment;
    hide WallSegment;
    hide WallStep;
    hide InPlace;
    NeighboursRead(z, a);
    if m > a {
      InPlaceAscends(z, a, m);
    } else if m < a - 1 && InPlace(z, m) {
      InPlaceAscends(z, m, a - 1);
    } else if m < a - 1 {
      Reading(z, m);
      WallSegmentsAscend(z, m, a - 1);
      var k: int, i: int := WallSegment(z, m, false), WallSegment(z, a - 1, false);
      if k < i < |z.steps| {
        assert z.steps[k].at + 2 * GAP_PROBE <= z.steps[i].at && Jump(z, k) <= GAP_PROBE;
      }
    }
  }

  /** Past the gap's edge, a label ahead of the shown one is in the future. */
  lemma GapAheadOfShow(z: Zone, lab: int, x: int, now: int)
    requires ValidZone(z) && !InPlace(z, lab)
    requires GapEdge(z, lab) <= x <= Show(z, Resolve(z, lab)) && now < Resolve(z, lab) && Show(z, now) < x
    ensures now < Resolve(z, x)
  {
    hide Segment;
    hide WallSegment;
    hide WallStep;
    GapShape(z, lab, x);
    Reading(z, lab);
    var k := WallSegment(z, lab, false);
    if z.steps[k].at <= now {
      SegmentIs(z, now, k + 1);
    }
  }

  // ----- instants as local times -----

  /** The fold that makes the label shown at `t` denote `t`. */
  function FoldAt(z: Zone, t: int): bool {
    Resolve(z, Show(z, t)) != t
  }

  lemma WallSegmentIsLater(z: Zone, lab: int, k: int)
    requires ValidZone(z) && 0 <= k <= |z.steps|
    requires k > 0 ==> WallStep(z, k - 1, true) <= lab
    requires k < |z.steps| ==> lab < WallStep(z, k, true)
    ensures WallSegment(z, lab, true) == k
  {
    hide WallSegment;
    hide WallStep;
    hide ValidZone;
    var s: int := WallSegment(z, lab, true);
    if s - 1 > k {
      WallOrderLater(z, k, s - 1);
    } else if s < k - 1 {
      WallOrderLater(z, s, k - 1);
    }
  }

  lemma WallOrderLater(z: Zone, i: int, j: int)
    requires ValidZone(z) && 0 <= i < j < |z.steps|
    ensures WallStep(z, i, true) < WallStep(z, j, true)
  {
    assert Offset(z, i + 1) == z.steps[i].to && Offset(z, j + 1) == z.steps[j].to;
  }

  /** Converting an instant to local time and back returns it. */
  lemma ShowRoundTrip(z: Zone, t: int)
    requires ValidZone(z)
    ensures Instant(z, Show(z, t), FoldAt(z, t)) == t
  {
    hide Segment;
    hide WallSegment;
    if FoldAt(z, t) {
      var i: int, lab := Segment(z, t), Show(z, t);
      if i == 0 || WallStep(z, i - 1, false) <= lab {
        assert i < |z.steps| ==> lab < WallStep(z, i, false);
        WallSegmentIs(z, lab, i);
      } else {
        assert Jump(z, i - 1) >= -GAP_PROBE;
        assert i < |z.steps| ==> z.steps[i - 1].at + 2 * GAP_PROBE <= z.steps[i].at && Jump(z, i) >= -GAP_PROBE;
        WallSegmentIsLater(z, lab, i);
      }
    }
  }

  // ----- what the two folds mean -----

  /** Fold 0 denotes the first instant that shows a label. */
  lemma FirstShown(z: Zone, lab: int, t: int)
    requires ValidZone(z) && Show(z, t) == lab
    ensures Resolve(z, lab) <= t && Show(z, Resolve(z, lab)) == lab
  {
    hide Segment;
    hide WallSegment;
    var i: int := Segment(z, t);
    assert i < |z.steps| ==> lab < WallStep(z, i, false);
    hide ValidZone;
    if i == 0 || WallStep(z, i - 1, false) <= lab {
      WallSegmentIs(z, lab, i);
    } else {
      FirstLeg(z, lab, i);
    }
  }

  /** A label of the second leg that also shows before transition `i - 1`. */
  lemma FirstLeg(z: Zone, lab: int, i: int)
    requires ValidZone(z) && 0 < i <= |z.steps|
    requires z.steps[i - 1].at + Offset(z, i) <= lab < WallStep(z, i - 1, false)
    ensures WallSegment(z, lab, false) == i - 1 && Offset(z, i) < Offset(z, i - 1)
    ensures Segment(z, lab - Offset(z, i - 1)) == i - 1
  {
    hide Segment;
    hide WallSegment;
    assert Jump(z, i - 1) >= -GAP_PROBE;
    assert i > 1 ==> z.steps[i - 2].at + 2 * GAP_PROBE <= z.steps[i - 1].at && Jump(z, i - 2) <= GAP_PROBE;
    WallSegmentIs(z, lab, i - 1);
    SegmentIs(z, lab - Offset(z, i - 1), i - 1);
  }

  /** Fold 1 denotes the last one. */
  lemma LastShown(z: Zone, lab: int, t: int)
    requires ValidZone(z) && Show(z, t) == lab
    ensures t <= Instant(z, lab, true) && Show(z, Instant(z, lab, true)) == lab
  {
    hide Segment;
    hide WallSegment;
    var i: int := Segment(z, t);
    assert i > 0 ==> WallStep(z, i - 1, true) <= lab;
    if i == |z.steps| || lab < WallStep(z, i, true) {
      WallSegmentIsLater(z, lab, i);
    } else {
      assert Jump(z, i) >= -GAP_PROBE;
      assert i + 1 < |z.steps| ==> z.steps[i].at + 2 * GAP_PROBE <= z.steps[i + 1].at && Jump(z, i + 1) >= -GAP_PROBE;
      WallSegmentIsLater(z, lab, i + 1);
      SegmentIs(z, lab - Offset(z, i + 1), i + 1);
    }
  }

  /**
   A label that no instant shows lies in a gap; fold 0 reads it with the offset
   before the transition, fold 1 with the offset after.
   */
  lemma NeverShown(z: Zone, lab: int) returns (i: nat)
    requires ValidZone(z) && forall t :: Show(z, t) != lab
    ensures i < |z.steps| && z.steps[i].at + Offset(z, i) <= lab < z.steps[i].at + Offset(z, i + 1)
    ensures Resolve(z, lab) == lab - Offset(z, i) && Instant(z, lab, true) == lab - Offset(z, i + 1)
  {
    hide Segment;
    hide WallSegment;
    Reading(z, lab);
    i := WallSegment(z, lab, false);
    assert Show(z, Resolve(z, lab)) != lab;
    assert i + 1 < |z.steps| ==> z.steps[i].at + 2 * GAP_PROBE <= z.steps[i + 1].at && Jump(z, i + 1) >= -GAP_PROBE;
    WallSegmentIsLater(z, lab, i + 1);
  }
}
