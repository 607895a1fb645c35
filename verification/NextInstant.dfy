/**
 The first real instant a schedule fires after an aware `now`.

 Fold 0 resolution is not monotone: the labels of a spring-forward gap fire in
 between the in-place labels after it. The search walks civil labels and still
 returns the least instant.
 */
module NextInstant {
  import opened Options
  import opened Calendar
  import opened Schedule
  import opened CivilWalk
  import opened CivilSearch
  import opened Zone

  /** A label the schedule fires for, inside the horizon. */
  ghost predicate Scheduled(tab: CronTab, lab: int) {
    Fires(tab, lab) && Year(lab) <= YEAR_HORIZON
  }

  /** Some scheduled label resolves to this instant. */
  ghost predicate IsFire(tab: CronTab, z: Zone, u: int) {
    exists m :: Scheduled(tab, m) && Resolve(z, m) == u
  }

  /** `r` is the least fire after `now`, and None only when there is none. */
  ghost predicate IsNextInstant(tab: CronTab, z: Zone, now: int, r: Option<int>) {
    match r
    case None => forall m :: Scheduled(tab, m) ==> Resolve(z, m) <= now
    case Some(u) =>
      && u > now && IsFire(tab, z, u)
      && forall m :: Scheduled(tab, m) && Resolve(z, m) > now ==> u <= Resolve(z, m)
  }

  /** The next instant is determined by the schedule, the zone and `now`. */
  lemma NextInstantUnique(tab: CronTab, z: Zone, now: int, r: Option<int>, s: Option<int>)
    requires IsNextInstant(tab, z, now, r) && IsNextInstant(tab, z, now, s)
    ensures r == s
  {
    hide Scheduled;
    hide Resolve;
  }

  // ----- civil steps -----

  ghost predicate NextScheduled(tab: CronTab, seed: int, r: Option<int>) {
    match r
    case None => forall m :: m > seed ==> !Scheduled(tab, m)
    case Some(t) => t > seed && Scheduled(tab, t) && forall m :: seed < m < t ==> !Scheduled(tab, m)
  }

  ghost function HorizonEnd(): int {
    DayStart(YEAR_HORIZON + 1, 1)
  }

  method NextMatch(tab: CronTab, seed: int) returns (r: Option<int>)
    requires ValidTab(tab)
    ensures NextScheduled(tab, seed, r)
    ensures r.Some? ==> seed < r.value < HorizonEnd()
  {
    hide Fires;
    hide Year;
    hide ValidTab;
    hide DayStart;
    r := NextCivil(tab, seed);
    if r.Some? {
      YearBounds(r.value, YEAR_HORIZON + 1);
    }
  }

  // ----- the invariant of the search -----

  /** Every fire left has its label past `civil`. */
  ghost predicate AllAhead(tab: CronTab, z: Zone, now: int, civil: int) {
    forall m :: Scheduled(tab, m) && Resolve(z, m) > now ==> m > civil
  }

  /** `target` is the least label with a fire left. */
  ghost predicate FirstLeft(tab: CronTab, z: Zone, now: int, target: int) {
    && Scheduled(tab, target) && Resolve(z, target) > now
    && forall m :: Scheduled(tab, m) && Resolve(z, m) > now ==> target <= m
  }

  lemma SeedIsBehind(tab: CronTab, z: Zone, now: int)
    requires ValidZone(z)
    ensures AllAhead(tab, z, now, Seed(z, now))
  {
    hide Scheduled;
    hide Resolve;
    hide Seed;
    hide ValidZone;
    forall m | Scheduled(tab, m) && Resolve(z, m) > now
      ensures m > Seed(z, now)
    {
      if m <= Seed(z, now) {
        BehindSeed(z, now, m);
      }
    }
  }

  lemma NoneAhead(tab: CronTab, z: Zone, now: int, civil: int)
    requires AllAhead(tab, z, now, civil) && NextScheduled(tab, civil, None)
    ensures IsNextInstant(tab, z, now, None)
  {
    hide Scheduled;
    hide Resolve;
  }

  /** The next civil match either has fired already or is the least label left. */
  lemma StepAhead(tab: CronTab, z: Zone, now: int, civil: int, target: int)
    requires AllAhead(tab, z, now, civil) && NextScheduled(tab, civil, Some(target))
    ensures Resolve(z, target) <= now ==> AllAhead(tab, z, now, target)
    ensures Resolve(z, target) > now ==> FirstLeft(tab, z, now, target)
  {
    hide Scheduled;
    hide Resolve;
  }

  // ----- what wins -----

  lemma InPlaceWins(tab: CronTab, z: Zone, now: int, target: int)
    requires ValidZone(z) && FirstLeft(tab, z, now, target) && InPlace(z, target)
    ensures IsNextInstant(tab, z, now, Some(Resolve(z, target)))
  {
    hide Scheduled;
    hide Resolve;
    hide ValidZone;
    hide InPlace;
    forall m | Scheduled(tab, m) && Resolve(z, m) > now
      ensures Resolve(z, target) <= Resolve(z, m)
    {
      if target < m {
        InPlaceAscends(z, target, m);
      }
    }
  }

  /** A seed for the rival search that skips only gap labels and fires already past. */
  ghost predicate RivalSeed(z: Zone, now: int, target: int, base: int)
    requires ValidZone(z) && !InPlace(z, target)
  {
    && target <= base && Show(z, now) <= base
    && (base < GapEdge(z, target) || base <= Show(z, now))
  }

  /** A label with a fire left either shifts to at or after the target's fire, or is past the seed. */
  lemma RivalOrder(z: Zone, now: int, target: int, base: int, m: int)
    requires ValidZone(z) && !InPlace(z, target) && now < Resolve(z, target)
    requires RivalSeed(z, now, target, base) && target <= m && now < Resolve(z, m)
    ensures Resolve(z, target) <= Resolve(z, m) || (InPlace(z, m) && base < m < Show(z, Resolve(z, target)))
  {
    hide Resolve;
    hide ValidZone;
    hide GapEdge;
    hide Show;
    hide InPlace;
    var shown := Show(z, Resolve(z, target));
    GapShape(z, target, m);
    GapShape(z, target, shown);
    if m > shown {
      InPlaceAscends(z, shown, m);
    } else if GapEdge(z, target) <= m && m <= Show(z, now) {
      ShownIsPast(z, now, m);
    }
  }

  lemma NoRival(tab: CronTab, z: Zone, now: int, target: int, base: int, rival: Option<int>)
    requires ValidZone(z) && FirstLeft(tab, z, now, target) && !InPlace(z, target)
    requires RivalSeed(z, now, target, base) && NextScheduled(tab, base, rival)
    requires rival.None? || rival.value >= Show(z, Resolve(z, target))
    ensures IsNextInstant(tab, z, now, Some(Resolve(z, target)))
  {
    hide Scheduled;
    hide Resolve;
    hide ValidZone;
    hide RivalSeed;
    hide Show;
    hide InPlace;
    forall m | Scheduled(tab, m) && Resolve(z, m) > now
      ensures Resolve(z, target) <= Resolve(z, m)
    {
      RivalOrder(z, now, target, base, m);
    }
  }

  lemma RivalWins(tab: CronTab, z: Zone, now: int, target: int, base: int, rival: int)
    requires ValidZone(z) && FirstLeft(tab, z, now, target) && !InPlace(z, target)
    requires RivalSeed(z, now, target, base) && NextScheduled(tab, base, Some(rival))
    requires rival < Show(z, Resolve(z, target)) && InPlace(z, rival)
    ensures IsNextInstant(tab, z, now, Some(Resolve(z, rival)))
  {
    hide Scheduled;
    hide Resolve;
    hide ValidZone;
    hide GapEdge;
    hide Show;
    hide InPlace;
    GapShape(z, target, rival);
    GapAheadOfShow(z, target, rival, now);
    forall m | Scheduled(tab, m) && Resolve(z, m) > now
      ensures Resolve(z, rival) <= Resolve(z, m)
    {
      RivalOrder(z, now, target, base, m);
      if rival < m {
        InPlaceAscends(z, rival, m);
      }
    }
  }

  function Max(a: int, b: int): int {
    if a >= b then a else b
  }

  /** The first label after the gap that holds `target`, by bisection on what the zone shows. */
  method FindGapEdge(z: Zone, target: int, resolvedCivil: int) returns (edge: int)
    requires ValidZone(z) && !InPlace(z, target) && resolvedCivil == Show(z, Resolve(z, target))
    ensures edge == GapEdge(z, target)
  {
    hide ValidZone;
    hide GapEdge;
    hide Resolve;
    hide Show;
    var low, high := target, resolvedCivil;
    GapShape(z, target, target);
    while high - low > 1
      invariant target <= low < GapEdge(z, target) <= high <= resolvedCivil
    {
      var mid := low + (high - low) / 2;
      GapShape(z, target, mid);
      var back := Show(z, Resolve(z, mid));
      if back == mid {
        high := mid;
      } else {
        low := mid;
      }
    }
    edge := high;
  }

  /** The least label with a fire left after the aware `now`. */
  method FirstPending(tab: CronTab, z: Zone, lab: int, fold: bool) returns (r: Option<int>)
    requires ValidTab(tab) && ValidZone(z)
    ensures r.None? ==> IsNextInstant(tab, z, Instant(z, lab, fold), None)
    ensures r.Some? ==> FirstLeft(tab, z, Instant(z, lab, fold), r.value)
  {
    hide ValidTab;
    hide ValidZone;
    hide Resolve;
    hide Show;
    hide Seed;
    hide GapRewoundSeed;
    hide IsNextInstant;
    hide NextScheduled;
    hide AllAhead;
    hide FirstLeft;
    hide HorizonEnd;
    hide Instant;
    var now := Instant(z, lab, fold);
    RewoundSeedIsSeed(z, lab, fold);
    var civil := GapRewoundSeed(z, lab, now);
    SeedIsBehind(tab, z, now);
    while true
      invariant Seed(z, now) <= civil && AllAhead(tab, z, now, civil)
      decreases HorizonEnd() - civil
    {
      r := NextMatch(tab, civil);
      if r.None? {
        NoneAhead(tab, z, now, civil);
        return;
      }
      var target := r.value;
      StepAhead(tab, z, now, civil, target);
      var resolved := Resolve(z, target);
      if resolved > now {
        return;
      }
      PassedIsInPlace(z, now, target);
      civil := Max(target, Show(z, resolved));
    }
  }

  /** The first scheduled instant after the aware `now` with label `lab` and fold `fold`. */
  method NextInstant(tab: CronTab, z: Zone, lab: int, fold: bool) returns (r: Option<int>)
    requires ValidTab(tab) && ValidZone(z)
    ensures IsNextInstant(tab, z, Instant(z, lab, fold), r)
  {
    hide ValidTab;
    hide ValidZone;
    hide GapEdge;
    hide Resolve;
    hide Show;
    hide IsNextInstant;
    hide NextScheduled;
    hide FirstLeft;
    hide HorizonEnd;
    hide Instant;
    var now := Instant(z, lab, fold);
    var first := FirstPending(tab, z, lab, fold);
    if first.None? {
      return None;
    }
    var target := first.value;
    var resolved := Resolve(z, target);
    var resolvedCivil := Show(z, resolved);
    if resolvedCivil == target {
      InPlaceWins(tab, z, now, target);
      return Some(resolved);
    }
    GapShape(z, target, target);
    var shown := Show(z, now);
    var rival := NextMatch(tab, Max(target, shown));
    if rival.None? || rival.value >= resolvedCivil {
      NoRival(tab, z, now, target, Max(target, shown), rival);
      return Some(resolved);
    }
    var rivalUtc := Resolve(z, rival.value);
    if Show(z, rivalUtc) == rival.value {
      RivalWins(tab, z, now, target, Max(target, shown), rival.value);
      return Some(rivalUtc);
    }
    var edge := FindGapEdge(z, target, resolvedCivil);
    rival := NextMatch(tab, Max(edge - 1, shown));
    if rival.Some? && rival.value < resolvedCivil {
      GapShape(z, target, rival.value);
      RivalWins(tab, z, now, target, Max(edge - 1, shown), rival.value);
      return Some(Resolve(z, rival.value));
    }
    NoRival(tab, z, now, target, Max(edge - 1, shown), rival);
    return Some(resolved);
  }
}
