/**
 The host clock as a zone, and the frames that let the engine answer on a fixed
 offset: an hourly sampled stretch with no transition inside the engine's
 look-back. Fixed answers must equal the answers on the moving zone.
 */
module LocalFrames {
  import opened Options
  import opened Calendar
  import opened Schedule
  import opened CivilWalk
  import opened CivilSearch
  import opened Zone
  import opened NextInstant
  import opened Occurrences

  const FRAME_SPAN := 35 * DAY
  const FRAME_STEP := 3600
  const FRAME_TTL := 60.0
  const FRAMES_KEPT := 4

  // ----- steady stretches -----

  ghost predicate Steady(z: Zone, from: int, to: int, offset: int) {
    forall t :: from <= t <= to ==> OffsetAt(z, t) == offset
  }

  lemma OneStep(z: Zone, t: int)
    requires ValidZone(z)
    ensures Segment(z, t) <= Segment(z, t + FRAME_STEP) <= Segment(z, t) + 1
  {
    hide Segment;
    hide ValidZone;
    var i: int, j: int := Segment(z, t), Segment(z, t + FRAME_STEP);
    SegmentsAscend(z, t, t + FRAME_STEP);
    if j > i + 1 {
      StepsApart(z, i, j - 1);
    }
  }

  lemma StepsApart(z: Zone, i: int, j: int)
    requires ValidZone(z) && 0 <= i < j < |z.steps|
    ensures z.steps[i].at + 2 * GAP_PROBE <= z.steps[j].at
  {}

  /** Between two agreeing hourly samples the offset cannot change and change back. */
  lemma SteadyHour(z: Zone, t: int, offset: int)
    requires ValidZone(z) && OffsetAt(z, t) == offset == OffsetAt(z, t + FRAME_STEP)
    ensures Steady(z, t, t + FRAME_STEP, offset)
  {
    hide Segment;
    OneStep(z, t);
    forall x | t <= x <= t + FRAME_STEP
      ensures OffsetAt(z, x) == offset
    {
      SegmentsAscend(z, t, x);
      SegmentsAscend(z, x, t + FRAME_STEP);
    }
  }

  /** A transition inside a steady stretch does not move the clock. */
  lemma SteadyStep(z: Zone, from: int, to: int, offset: int, k: int)
    requires ValidZone(z) && Steady(z, from, to, offset)
    requires 0 <= k < |z.steps| && from < z.steps[k].at <= to
    ensures Offset(z, k) == z.steps[k].to == offset
  {
    hide Segment;
    var at := z.steps[k].at;
    assert k > 0 ==> z.steps[k - 1].at + 2 * GAP_PROBE <= at;
    assert k + 1 < |z.steps| ==> at + 2 * GAP_PROBE <= z.steps[k + 1].at;
    SegmentIs(z, at - 1, k);
    SegmentIs(z, at, k + 1);
    assert OffsetAt(z, at - 1) == offset && OffsetAt(z, at) == offset;
  }

  lemma SteadySeed(z: Zone, now: int, offset: int)
    requires ValidZone(z) && Steady(z, now - GAP_PROBE, now, offset)
    ensures Seed(z, now) == now + offset
  {
    hide Segment;
    var k: int := Segment(z, now);
    assert OffsetAt(z, now) == offset;
    if k > 0 && z.steps[k - 1].at > now - GAP_PROBE {
      SteadyStep(z, now - GAP_PROBE, now, offset, k - 1);
    }
    assert k > 0 ==> Jump(z, k - 1) <= GAP_PROBE;
  }

  /** On a steady stretch the fixed reading of a label is the zone's reading. */
  lemma SteadyResolve(z: Zone, now: int, to: int, offset: int, u: int)
    requires ValidZone(z) && Steady(z, now - GAP_PROBE, to, offset) && now <= u <= to
    ensures Resolve(z, u + offset) == u
  {
    hide Segment;
    hide WallSegment;
    var i: int := Segment(z, u);
    assert OffsetAt(z, u) == offset;
    if i > 0 {
      if z.steps[i - 1].at > now - GAP_PROBE {
        SteadyStep(z, now - GAP_PROBE, to, offset, i - 1);
      }
      assert Jump(z, i - 1) >= -GAP_PROBE;
    }
    WallSegmentIs(z, u + offset, i);
  }

  /** No gap label fires on a steady stretch. */
  lemma SteadyInPlace(z: Zone, now: int, to: int, offset: int, lab: int)
    requires ValidZone(z) && Steady(z, now - GAP_PROBE, to, offset) && now <= Resolve(z, lab) <= to
    ensures lab == Resolve(z, lab) + offset
  {
    hide Segment;
    hide WallSegment;
    hide WallStep;
    Reading(z, lab);
    var k, u := WallSegment(z, lab, false), Resolve(z, lab);
    assert OffsetAt(z, u) == offset;
    if !InPlace(z, lab) {
      assert Jump(z, k) <= GAP_PROBE;
      SteadyStep(z, now - GAP_PROBE, to, offset, k);
    }
  }

  /** A fixed answer that stays inside the steady stretch is the zone's answer. */
  lemma SteadyNext(tab: CronTab, z: Zone, now: int, to: int, offset: int, r: Option<int>)
    requires ValidZone(z) && now <= to && Steady(z, now - GAP_PROBE, to, offset)
    requires NextScheduled(tab, now + offset, r)
    ensures r.None? ==> IsNextInstant(tab, z, now, None)
    ensures r.Some? && r.value - offset <= to ==> IsNextInstant(tab, z, now, Some(r.value - offset))
  {
    hide Scheduled;
    hide Resolve;
    hide ValidZone;
    hide Seed;
    SteadySeed(z, now, offset);
    SeedIsBehind(tab, z, now);
    if r.Some? && r.value - offset <= to {
      SteadyResolve(z, now, to, offset, r.value - offset);
      forall m | Scheduled(tab, m) && Resolve(z, m) > now
        ensures r.value - offset <= Resolve(z, m)
      {
        if Resolve(z, m) <= to {
          SteadyInPlace(z, now, to, offset, m);
        }
      }
    }
  }

  // ----- instants with a fraction of a second -----

  const HOUR_MICROS := FRAME_STEP * MICROS
  const PROBE_MICROS := GAP_PROBE * MICROS
  const SPAN_MICROS := FRAME_SPAN * MICROS

  /** The second an instant in microseconds lies in. */
  function Sec(t: int): int {
    t / MICROS
  }

  predicate Whole(t: int) {
    t % MICROS == 0
  }

  lemma SecMoves(t: int, k: int)
    ensures Sec(t + k * MICROS) == Sec(t) + k && (Whole(t + k * MICROS) <==> Whole(t))
  {}

  lemma SecAscends(a: int, b: int)
    requires a <= b
    ensures Sec(a) <= Sec(b)
  {}

  // ----- sampling -----

  /** Two neighbouring hourly samples differ. */
  ghost predicate Moves(z: Zone, t: int) {
    OffsetAt(z, Sec(t)) != OffsetAt(z, Sec(t) + FRAME_STEP)
  }

  /** `t` is one of the hourly samples from `start` on. */
  ghost predicate Sample(start: int, t: int) {
    start <= t && (t - start) % HOUR_MICROS == 0
  }

  /** The first hourly sample after `start`, reaching `stop`, with another offset. */
  ghost function Change(z: Zone, start: int, stop: int, offset: int): (change: Option<int>)
    ensures change.Some? ==> start + HOUR_MICROS <= change.value
    decreases stop - start
  {
    if start >= stop then None
    else if OffsetAt(z, Sec(start + HOUR_MICROS)) != offset then Some(start + HOUR_MICROS)
    else Change(z, start + HOUR_MICROS, stop, offset)
  }

  /** Up to the change, or through `stop`, the offset holds at every second, not only at the samples. */
  lemma {:induction false} ChangeIsFirst(z: Zone, start: int, stop: int, offset: int)
    requires ValidZone(z) && OffsetAt(z, Sec(start)) == offset
    ensures var change := Change(z, start, stop, offset);
            && (change.None? ==> Steady(z, Sec(start), Sec(Max(start, stop)), offset))
            && (change.Some? ==>
                  && change.value < stop + HOUR_MICROS && Sample(start, change.value)
                  && Steady(z, Sec(start), Sec(change.value - HOUR_MICROS), offset)
                  && OffsetAt(z, Sec(change.value)) != offset && Moves(z, change.value - HOUR_MICROS))
    decreases stop - start
  {
    hide OffsetAt;
    hide ValidZone;
    hide Sec;
    SecMoves(start, FRAME_STEP);
    var next := start + HOUR_MICROS;
    if start < stop && OffsetAt(z, Sec(next)) == offset {
      SteadyHour(z, Sec(start), offset);
      ChangeIsFirst(z, next, stop, offset);
      SecAscends(Max(start, stop), Max(next, stop));
      var change := Change(z, next, stop, offset);
      if change.Some? {
        EarlierStart(start, change.value);
      }
    }
  }

  lemma EarlierStart(start: int, t: int)
    requires Sample(start + HOUR_MICROS, t)
    ensures Sample(start, t)
  {
    LaterSample(start + HOUR_MICROS, t);
  }

  method FirstChange(z: Zone, start: int, stop: int, offset: int) returns (change: Option<int>)
    ensures change == Change(z, start, stop, offset)
  {
    hide OffsetAt;
    hide Sec;
    var at := start;
    while at < stop
      invariant Change(z, start, stop, offset) == Change(z, at, stop, offset)
      decreases stop - at
    {
      at := at + HOUR_MICROS;
      if OffsetAt(z, Sec(at)) != offset {
        return Some(at);
      }
    }
    change := None;
  }

  /** Samples share the fraction of a second they start with. */
  lemma SampleFraction(start: int, t: int)
    requires Sample(start, t)
    ensures Whole(t) <==> Whole(start)
  {
    var k := (t - start) / HOUR_MICROS;
    assert t == start + (k * FRAME_STEP) * MICROS;
    SecMoves(start, k * FRAME_STEP);
  }

  lemma EarlierSample(start: int, t: int)
    requires Sample(start, t) && start < t
    ensures Sample(start, t - HOUR_MICROS)
  {
    LaterSample(start, t - HOUR_MICROS);
  }

  lemma LaterSample(start: int, t: int)
    ensures (t + HOUR_MICROS - start) % HOUR_MICROS == (t - start) % HOUR_MICROS
    ensures (t - (start - HOUR_MICROS)) % HOUR_MICROS == (t - start) % HOUR_MICROS
    ensures Sample(start, t) ==> Sample(start, t + HOUR_MICROS)
  {}

  // ----- what a frame says -----

  /** The offset verdict for instants in `[lo, hi)`; `open` when `hi` is only how far was sampled. */
  datatype Span = Span(lo: int, hi: int, fixed: Option<int>, open: bool, built: real)

  /**
   The fixed offset holds from the look-back of `lo` through `hi`, and unless
   the span is open the samples move right after; without a fixed offset they
   move within an hour of `lo`, and the span ends a look-back later.
   */
  ghost predicate Vouches(z: Zone, s: Span) {
    && s.lo < s.hi
    && (s.open ==> s.fixed.Some?)
    && (s.fixed.Some? ==> Steady(z, Sec(s.lo) - GAP_PROBE, Sec(s.hi), s.fixed.value))
    && (s.fixed.Some? && !s.open ==> Moves(z, s.hi))
    && (s.fixed.None? ==>
          && s.hi - PROBE_MICROS - HOUR_MICROS <= s.lo
          && Moves(z, s.hi - PROBE_MICROS - HOUR_MICROS))
  }

  /** The last instant a new span asks about. */
  function Horizon(at: int, until: Option<int>): int {
    if until.Some? && until.value > at + SPAN_MICROS then until.value else at + SPAN_MICROS
  }

  /** The span sampled from the look-back of `at` on. */
  ghost function Built(z: Zone, at: int, until: Option<int>, now: real): (s: Span)
    ensures s.lo == at < s.hi && s.built == now
    ensures s.open ==> s.hi == Horizon(at, until)
  {
    var origin, stop := at - PROBE_MICROS, Horizon(at, until);
    var offset := OffsetAt(z, Sec(origin));
    match Change(z, origin, stop, offset)
    case None => Span(at, stop, Some(offset), true, now)
    case Some(change) =>
      if at >= change - HOUR_MICROS then Span(at, change + PROBE_MICROS, None, false, now)
      else Span(at, change - HOUR_MICROS, Some(offset), false, now)
  }

  lemma BuiltVouches(z: Zone, at: int, until: Option<int>, now: real)
    requires ValidZone(z)
    ensures var s := Built(z, at, until, now);
            && Vouches(z, s)
            && (!s.open ==> Sample(at - PROBE_MICROS, if s.fixed.Some? then s.hi else s.hi - PROBE_MICROS))
            && (!s.open ==> (Whole(s.hi) <==> Whole(at)))
  {
    hide OffsetAt;
    hide ValidZone;
    hide Sec;
    hide Whole;
    hide Sample;
    hide Moves;
    hide Change;
    SecMoves(at, -GAP_PROBE);
    var origin, stop := at - PROBE_MICROS, Horizon(at, until);
    var offset := OffsetAt(z, Sec(origin));
    ChangeIsFirst(z, origin, stop, offset);
    var change := Change(z, origin, stop, offset);
    if change.Some? {
      SampleFraction(origin, change.value);
      SecMoves(change.value, GAP_PROBE);
      if at < change.value - HOUR_MICROS {
        EarlierSample(origin, change.value);
        SampleFraction(origin, change.value - HOUR_MICROS);
      }
    }
  }

  /** An open span sampled on to `until`. */
  ghost function Extended(z: Zone, s: Span, until: int): (e: Span)
    requires s.fixed.Some?
    ensures s.hi < until ==> s.hi <= e.hi
    ensures e.open && s.hi < until ==> e.hi == until
  {
    match Change(z, s.hi, until, s.fixed.value)
    case None => s.(hi := until, open := true)
    case Some(change) => s.(hi := change - HOUR_MICROS, open := false)
  }

  lemma ExtendedVouches(z: Zone, s: Span, until: int)
    requires ValidZone(z) && Vouches(z, s) && s.open && s.hi < until
    ensures var e := Extended(z, s, until);
            Vouches(z, e) && (Whole(s.hi) && Whole(until) ==> Whole(e.hi))
  {
    hide OffsetAt;
    hide ValidZone;
    hide Sec;
    hide Whole;
    hide Sample;
    hide Moves;
    hide Change;
    SecAscends(s.lo, s.hi);
    ChangeIsFirst(z, s.hi, until, s.fixed.value);
    var change := Change(z, s.hi, until, s.fixed.value);
    if change.Some? {
      EarlierSample(s.hi, change.value);
      SampleFraction(s.hi, change.value - HOUR_MICROS);
    }
  }

  // ----- what the cache answers -----

  ghost predicate Covers(s: Span, at: int, now: real) {
    s.lo <= at < s.hi && now - s.built < FRAME_TTL
  }

  /** The first span that covers `at`, or past the end. */
  ghost function Find(cache: seq<Span>, at: int, now: real): (i: nat)
    ensures i <= |cache| && (i < |cache| ==> Covers(cache[i], at, now))
  {
    if cache == [] || Covers(cache[0], at, now) then 0 else 1 + Find(cache[1..], at, now)
  }

  ghost function Reached(z: Zone, s: Span, until: Option<int>): (e: Span)
    ensures s.hi <= e.hi
  {
    if until.Some? && s.open && s.fixed.Some? && s.hi < until.value then Extended(z, s, until.value) else s
  }

  /** The spans young enough to keep, newest first. */
  ghost function Young(cache: seq<Span>, now: real): seq<Span> {
    if cache == [] then []
    else
      var last := cache[|cache| - 1];
      Young(cache[..|cache| - 1], now) + if now - last.built < FRAME_TTL then [last] else []
  }

  function Newest<T>(s: seq<T>): seq<T> {
    s[..if |s| < FRAMES_KEPT - 1 then |s| else FRAMES_KEPT - 1]
  }

  /** An answer, and the cache it leaves. */
  datatype Reply = Reply(fixed: Option<int>, goodTo: int, cache: seq<Span>)

  ghost function Answer(z: Zone, cache: seq<Span>, at: int, until: Option<int>, now: real): (r: Reply)
    ensures at < r.goodTo
  {
    var i := Find(cache, at, now);
    if i < |cache| then
      var s := Reached(z, cache[i], until);
      Reply(s.fixed, s.hi, cache[i := s])
    else
      var s := Built(z, at, until, now);
      Reply(s.fixed, s.hi, [s] + Newest(Young(cache, now)))
  }

  ghost predicate AllVouch(z: Zone, cache: seq<Span>) {
    forall i :: 0 <= i < |cache| ==> Vouches(z, cache[i])
  }

  ghost predicate WholeSpans(cache: seq<Span>) {
    forall i :: 0 <= i < |cache| ==> Whole(cache[i].hi)
  }

  lemma {:induction false} YoungAreCached(cache: seq<Span>, now: real, j: nat)
    requires j < |Young(cache, now)|
    ensures Young(cache, now)[j] in cache
  {
    if j < |Young(cache[..|cache| - 1], now)| {
      YoungAreCached(cache[..|cache| - 1], now, j);
    }
  }

  lemma KeptAreCached(cache: seq<Span>, now: real)
    ensures forall j :: 0 <= j < |Newest(Young(cache, now))| ==> Newest(Young(cache, now))[j] in cache
  {
    forall j | 0 <= j < |Newest(Young(cache, now))| ensures Newest(Young(cache, now))[j] in cache {
      YoungAreCached(cache, now, j);
    }
  }

  /** Whatever the cache holds, the answer is right for `at` and the spans kept go on vouching. */
  lemma AnswerVouches(z: Zone, cache: seq<Span>, at: int, until: Option<int>, now: real)
    requires ValidZone(z) && AllVouch(z, cache)
    ensures var r := Answer(z, cache, at, until, now);
            && AllVouch(z, r.cache)
            && (r.fixed.Some? ==> Steady(z, Sec(at) - GAP_PROBE, Sec(r.goodTo), r.fixed.value))
            && (r.fixed.None? ==> exists t :: at - PROBE_MICROS - HOUR_MICROS < t <= at && Moves(z, t))
            && (r.fixed.Some? && until.Some? && r.goodTo < until.value ==> Moves(z, r.goodTo))
  {
    hide OffsetAt;
    hide ValidZone;
    hide Sec;
    hide Moves;
    hide Built;
    hide Extended;
    hide Young;
    var i := Find(cache, at, now);
    if i < |cache| {
      var s := cache[i];
      SecAscends(s.lo, at);
      if until.Some? && s.open && s.hi < until.value {
        ExtendedVouches(z, s, until.value);
        SpanFixed(z, s, until.value);
      }
    } else {
      BuiltVouches(z, at, until, now);
      KeptAreCached(cache, now);
    }
  }

  lemma SpanFixed(z: Zone, s: Span, until: int)
    requires s.fixed.Some?
    ensures var e := Extended(z, s, until);
            e.lo == s.lo && e.fixed == s.fixed && e.built == s.built
  {}

  lemma WholeAnswer(z: Zone, cache: seq<Span>, at: int, until: int, now: real)
    requires ValidZone(z) && AllVouch(z, cache) && WholeSpans(cache) && Whole(at) && Whole(until)
    ensures var r := Answer(z, cache, at, Some(until), now);
            WholeSpans(r.cache) && Whole(r.goodTo)
  {
    hide OffsetAt;
    hide ValidZone;
    hide Whole;
    hide Vouches;
    hide Built;
    hide Extended;
    hide Young;
    var i := Find(cache, at, now);
    if i < |cache| {
      var s := cache[i];
      if s.open && s.fixed.Some? && s.hi < until {
        ExtendedVouches(z, s, until);
      }
    } else {
      BuiltVouches(z, at, Some(until), now);
      SecMoves(at, FRAME_SPAN);
      KeptAreCached(cache, now);
    }
  }

  /** A frame that met no change reaches 35 days on, and the end asked for. */
  lemma BuiltReaches(z: Zone, at: int, until: Option<int>, now: real)
    ensures var s := Built(z, at, until, now);
            s.open ==> && s.hi >= at + 35 * 86400 * 1_000_000 && (until.Some? ==> s.hi >= until.value)
                       && (s.hi == at + 35 * 86400 * 1_000_000 || until == Some(s.hi))
  {
    hide Change;
  }

  /** Frames a minute old are not asked: the answer is sampled afresh, and alone is kept. */
  lemma OldFramesAreDropped(z: Zone, cache: seq<Span>, at: int, until: Option<int>, now: real)
    requires forall i :: 0 <= i < |cache| ==> now - cache[i].built >= 60.0
    ensures var s := Built(z, at, until, now);
            Answer(z, cache, at, until, now) == Reply(s.fixed, s.hi, [s])
  {
    hide Built;
    NoneYoung(cache, now);
    var i := Find(cache, at, now);
    assert i < |cache| ==> Covers(cache[i], at, now);
  }

  lemma {:induction false} NoneYoung(cache: seq<Span>, now: real)
    requires forall i :: 0 <= i < |cache| ==> now - cache[i].built >= 60.0
    ensures Young(cache, now) == []
  {
    if cache != [] {
      NoneYoung(cache[..|cache| - 1], now);
    }
  }

  /** A younger frame that holds `at` is asked instead of sampling: its verdict stands, and it never shrinks. */
  lemma YoungFrameAnswers(z: Zone, cache: seq<Span>, at: int, until: Option<int>, now: real, i: nat)
    requires i < |cache| && cache[i].lo <= at < cache[i].hi && now - cache[i].built < 60.0
    requires forall k :: 0 <= k < i ==> !(cache[k].lo <= at < cache[k].hi && now - cache[k].built < 60.0)
    ensures var r := Answer(z, cache, at, until, now);
            && r.fixed == cache[i].fixed && r.goodTo >= cache[i].hi && |r.cache| == |cache|
            && forall k :: 0 <= k < |cache| && k != i ==> r.cache[k] == cache[k]
  {
    hide Extended;
    FirstCover(cache, at, now, i);
    if cache[i].fixed.Some? && until.Some? {
      SpanFixed(z, cache[i], until.value);
    }
  }

  lemma {:induction false} FirstCover(cache: seq<Span>, at: int, now: real, i: nat)
    requires i < |cache| && Covers(cache[i], at, now) && forall k :: 0 <= k < i ==> !Covers(cache[k], at, now)
    ensures Find(cache, at, now) == i
  {
    if i > 0 {
      assert forall k :: 0 <= k < i - 1 ==> cache[1..][k] == cache[k + 1];
      FirstCover(cache[1..], at, now, i - 1);
    }
  }

  /** No more than four frames are kept. */
  lemma FewFrames(z: Zone, cache: seq<Span>, at: int, until: Option<int>, now: real)
    requires |cache| <= 4
    ensures |Answer(z, cache, at, until, now).cache| <= 4
  {
    hide Built;
    hide Extended;
    hide Young;
  }

  // ----- frames and the zone that keeps them -----

  class HostFrame {
    const lo: int
    var hi: int
    const fixed: Option<int>
    var open: bool
    const built: real

    constructor (lo: int, hi: int, fixed: Option<int>, open: bool, built: real)
      ensures Value() == Span(lo, hi, fixed, open, built)
    {
      this.lo, this.hi, this.fixed, this.open, this.built := lo, hi, fixed, open, built;
    }

    ghost function Value(): Span
      reads this
    {
      Span(lo, hi, fixed, open, built)
    }
  }

  method BuildFrame(z: Zone, at: int, until: Option<int>, now: real) returns (frame: HostFrame)
    ensures fresh(frame) && frame.Value() == Built(z, at, until, now)
  {
    hide OffsetAt;
    hide Sec;
    hide Change;
    var origin := at - PROBE_MICROS;
    var offset := OffsetAt(z, Sec(origin));
    var stop := at + SPAN_MICROS;
    if until.Some? && until.value > stop {
      stop := until.value;
    }
    var change := FirstChange(z, origin, stop, offset);
    if change.None? {
      frame := new HostFrame(at, stop, Some(offset), true, now);
    } else if at >= change.value - HOUR_MICROS {
      frame := new HostFrame(at, change.value + PROBE_MICROS, None, false, now);
    } else {
      frame := new HostFrame(at, change.value - HOUR_MICROS, Some(offset), false, now);
    }
  }

  /** Sample an open frame on to `until`. */
  method ExtendFrame(z: Zone, frame: HostFrame, until: int)
    requires frame.open && frame.fixed.Some?
    modifies frame
    ensures frame.Value() == Extended(z, old(frame.Value()), until)
  {
    hide OffsetAt;
    hide Sec;
    hide Change;
    var change := FirstChange(z, frame.hi, until, frame.fixed.value);
    if change.None? {
      frame.hi := until;
    } else {
      frame.hi := change.value - HOUR_MICROS;
      frame.open := false;
    }
  }

  /** The host's local clock with its cached frames; `cache` is what they say. */
  class LocalZone {
    const host: Zone
    var frames: seq<HostFrame>
    ghost var cache: seq<Span>

    ghost function Cached(): set<HostFrame>
      reads this
    {
      set f | f in frames
    }

    ghost predicate Valid()
      reads this, frames
    {
      && ValidZone(host) && AllVouch(host, cache)
      && Mirrors(frames, cache)
    }

    constructor (host: Zone)
      requires ValidZone(host)
      ensures Valid() && this.host == host && cache == []
    {
      this.host, frames, cache := host, [], [];
    }

    /** The offset the host keeps from the look-back of `at` through `goodTo`, if one does. */
    method FixedFrame(at: int, until: Option<int>, now: real) returns (fixed: Option<int>, goodTo: int)
      requires Valid()
      modifies this, Cached()
      ensures Valid() && fresh(Cached() - old(Cached()))
      ensures Reply(fixed, goodTo, cache) == Answer(host, old(cache), at, until, now)
      ensures fixed.Some? ==> Steady(host, Sec(at) - GAP_PROBE, Sec(goodTo), fixed.value)
      ensures fixed.None? ==> exists t :: at - PROBE_MICROS - HOUR_MICROS < t <= at && Moves(host, t)
      ensures fixed.Some? && until.Some? && goodTo < until.value ==> Moves(host, goodTo)
    {
      hide OffsetAt;
      hide ValidZone;
      hide Sec;
      hide Moves;
      hide Steady;
      hide Vouches;
      hide Built;
      hide Extended;
      hide Young;
      hide AllVouch;
      MirroredSize(frames, cache);
      hide Mirrors;
      hide Find;
      hide Newest;
      AnswerVouches(host, cache, at, until, now);
      var i := 0;
      while i < |frames|
        invariant 0 <= i <= |frames| == |cache|
        invariant Valid() && frames == old(frames) && cache == old(cache)
        invariant Find(cache, at, now) == i + Find(cache[i..], at, now)
      {
        MirroredAt(frames, cache, i);
        FindNext(cache, i, at, now);
        if frames[i].lo <= at < frames[i].hi && now - frames[i].built < FRAME_TTL {
          OpenIsFixed(host, cache, i);
          fixed, goodTo := Reuse(i, until);
          return;
        }
        i := i + 1;
      }
      assert cache[i..] == [];
      fixed, goodTo := Renew(at, until, now);
    }

    /** Answer from a cached frame, sampled further if it is open. */
    method Reuse(i: nat, until: Option<int>) returns (fixed: Option<int>, goodTo: int)
      requires i < |frames| && Mirrors(frames, cache) && (cache[i].open ==> cache[i].fixed.Some?)
      modifies this, Cached()
      ensures frames == old(frames) && Mirrors(frames, cache)
      ensures var s := Reached(host, old(cache)[i], until);
              cache == old(cache)[i := s] && fixed == s.fixed && goodTo == s.hi
    {
      hide Extended;
      var frame := frames[i];
      if until.Some? && frame.open && frame.hi < until.value {
        ExtendFrame(host, frame, until.value);
      }
      cache := cache[i := frame.Value()];
      return frame.fixed, frame.hi;
    }

    /** Answer from a new frame, and keep it with the newest of the young ones. */
    method Renew(at: int, until: Option<int>, now: real) returns (fixed: Option<int>, goodTo: int)
      requires Mirrors(frames, cache)
      modifies this
      ensures Mirrors(frames, cache) && fresh(Cached() - old(Cached()))
      ensures var s := Built(host, at, until, now);
              cache == [s] + Newest(Young(old(cache), now)) && fixed == s.fixed && goodTo == s.hi
    {
      hide Built;
      hide Young;
      var frame := BuildFrame(host, at, until, now);
      var kept := YoungFrames(frames, cache, now);
      MirrorsNewest(frame, kept, Young(cache, now));
      hide Mirrors;
      hide Newest;
      frames, cache := [frame] + Newest(kept), [frame.Value()] + Newest(Young(cache, now));
      return frame.fixed, frame.hi;
    }
  }

  /** The frames are distinct objects, and say what the cache says. */
  ghost predicate Mirrors(frames: seq<HostFrame>, cache: seq<Span>)
    reads frames
  {
    && |frames| == |cache|
    && (forall i :: 0 <= i < |frames| ==> frames[i].Value() == cache[i])
    && forall i, j :: 0 <= i < j < |frames| ==> frames[i] != frames[j]
  }

  lemma MirroredSize(frames: seq<HostFrame>, cache: seq<Span>)
    requires Mirrors(frames, cache)
    ensures |frames| == |cache|
  {}

  lemma FindNext(cache: seq<Span>, i: nat, at: int, now: real)
    requires i < |cache|
    ensures Find(cache[i..], at, now) == if Covers(cache[i], at, now) then 0 else 1 + Find(cache[i + 1..], at, now)
  {
    assert cache[i..][1..] == cache[i + 1..];
  }

  lemma OpenIsFixed(z: Zone, cache: seq<Span>, i: nat)
    requires AllVouch(z, cache) && i < |cache|
    ensures cache[i].open ==> cache[i].fixed.Some?
  {}

  lemma MirrorsNewest(frame: HostFrame, kept: seq<HostFrame>, young: seq<Span>)
    requires Mirrors(kept, young) && frame !in kept
    ensures Mirrors([frame] + Newest(kept), [frame.Value()] + Newest(young))
    ensures forall f :: f in Newest(kept) ==> f in kept
  {
    var frames := [frame] + Newest(kept);
    forall i, j | 0 <= i < j < |frames| ensures frames[i] != frames[j] {
      assert frames[j] == kept[j - 1] && kept[j - 1] in kept;
    }
  }

  lemma MirroredAt(frames: seq<HostFrame>, cache: seq<Span>, i: nat)
    requires Mirrors(frames, cache) && i < |frames|
    ensures i < |cache| && frames[i].Value() == cache[i]
  {}

  method YoungFrames(frames: seq<HostFrame>, ghost cache: seq<Span>, now: real) returns (kept: seq<HostFrame>)
    requires Mirrors(frames, cache)
    ensures Mirrors(kept, Young(cache, now)) && forall f :: f in kept ==> f in frames
  {
    kept := [];
    var k := 0;
    while k < |frames|
      invariant 0 <= k <= |frames|
      invariant Mirrors(kept, Young(cache[..k], now)) && forall f :: f in kept ==> f in frames[..k]
    {
      assert cache[..k + 1][..k] == cache[..k];
      assert frames[..k + 1] == frames[..k] + [frames[k]];
      assert frames[k] !in frames[..k];
      if now - frames[k].built < FRAME_TTL {
        kept := kept + [frames[k]];
      }
      k := k + 1;
    }
    assert cache[..k] == cache && frames[..k] == frames;
  }

  /** A fixed-offset answer, as a civil match. */
  lemma FlatNext(tab: CronTab, offset: int, now: int, r: Option<int>)
    requires IsNextInstant(tab, Zone(offset, []), now, r)
    ensures NextScheduled(tab, now + offset, if r.Some? then Some(r.value + offset) else None)
  {
    hide Scheduled;
    hide Resolve;
    forall m ensures Resolve(Zone(offset, []), m) == m - offset {
      FixedReading(offset, m);
    }
  }

  /** The fixed-offset delay, checked against how far the frame is good. */
  lemma FixedDelay(tab: CronTab, z: Zone, now: int, goodTo: int, offset: int, delay: Option<int>)
    requires ValidZone(z) && now < goodTo && Steady(z, Sec(now) - GAP_PROBE, Sec(goodTo), offset)
    requires IsDelay(tab, Zone(offset, []), now, delay)
    ensures delay.None? || delay.value <= goodTo - now ==> IsDelay(tab, z, now, delay)
  {
    hide IsNextInstant;
    hide ValidZone;
    hide Steady;
    hide NextScheduled;
    SecAscends(now, goodTo);
    var r := if delay.Some? then Some(Sec(now + delay.value)) else None;
    FlatNext(tab, offset, Sec(now), r);
    SteadyNext(tab, z, Sec(now), Sec(goodTo), offset, if r.Some? then Some(r.value + offset) else None);
    if delay.Some? && delay.value <= goodTo - now {
      SecAscends(now + delay.value, goodTo);
    }
  }

  /** `delay` microseconds lead from `now` exactly to the next fire. */
  ghost predicate IsDelay(tab: CronTab, z: Zone, now: int, delay: Option<int>) {
    match delay
    case None => IsNextInstant(tab, z, Sec(now), None)
    case Some(d) => d > 0 && Whole(now + d) && IsNextInstant(tab, z, Sec(now), Some(Sec(now + d)))
  }

  /**
   Microseconds until the next fire after `now` on the host clock, answered on a
   fixed offset whenever a frame vouches for it. It is always the answer on the
   moving zone.
   */
  method NextLocal(tab: CronTab, local: LocalZone, now: int, clock: real) returns (delay: Option<int>)
    requires ValidTab(tab) && local.Valid()
    modifies local, local.Cached()
    ensures local.Valid() && IsDelay(tab, local.host, now, delay)
  {
    hide ValidTab;
    hide ValidZone;
    hide IsDelay;
    hide Steady;
    hide Moves;
    hide Answer;
    hide Mirrors;
    hide AllVouch;
    var fixed, goodTo := local.FixedFrame(now, None, clock);
    if fixed.Some? {
      SecAscends(now, goodTo);
      SteadyOffset(local.host, Sec(now), Sec(goodTo), fixed.value);
      delay := NextFrom(tab, Fixed(fixed.value), now);
      FixedDelay(tab, local.host, now, goodTo, fixed.value, delay);
      if delay.None? || delay.value <= goodTo - now {
        return;
      }
    }
    delay := NextFrom(tab, Zoned(local.host), now);
  }

  /** `next` for an instant, read in a frame. */
  method NextFrom(tab: CronTab, f: Frame, now: int) returns (delay: Option<int>)
    requires ValidTab(tab) && ValidFrame(f)
    ensures IsDelay(tab, ZoneOf(f), now, delay)
  {
    hide ValidTab;
    hide ValidZone;
    hide IsNextInstant;
    hide Show;
    hide Instant;
    hide FoldAt;
    var z := ZoneOf(f);
    ShowRoundTrip(z, Sec(now));
    delay := Next(tab, f, Show(z, Sec(now)), FoldAt(z, Sec(now)), now % MICROS);
  }

  // ----- walking frame by frame -----

  lemma SteadyOffset(z: Zone, at: int, to: int, offset: int)
    requires ValidZone(z) && at <= to && Steady(z, at - GAP_PROBE, to, offset)
    ensures ValidZone(Zone(offset, []))
  {
    hide Segment;
    assert OffsetAt(z, at) == offset;
  }

  lemma SteadyNarrows(z: Zone, at: int, to: int, less: int, offset: int)
    requires Steady(z, at - GAP_PROBE, to, offset) && less <= to
    ensures Steady(z, at - GAP_PROBE, less, offset)
  {}

  /** Fires on the fixed offset and on the zone coincide inside the steady stretch. */
  lemma SteadyFires(tab: CronTab, z: Zone, at: int, to: int, offset: int, from: int, out: seq<int>)
    requires ValidZone(z) && Steady(z, at - GAP_PROBE, to, offset) && at - 1 <= from
    requires AllFires(tab, Zone(offset, []), from, to, out)
    ensures AllFires(tab, z, from, to, out)
  {
    hide Scheduled;
    hide Resolve;
    hide ValidZone;
    hide Steady;
    var flat := Zone(offset, []);
    forall u | from < u <= to
      ensures IsFire(tab, z, u) <==> IsFire(tab, flat, u)
    {
      if IsFire(tab, flat, u) {
        var m :| Scheduled(tab, m) && Resolve(flat, m) == u;
        FixedReading(offset, m);
        SteadyResolve(z, at, to, offset, u);
      }
      if IsFire(tab, z, u) {
        var m :| Scheduled(tab, m) && Resolve(z, m) == u;
        SteadyInPlace(z, at, to, offset, m);
        FixedReading(offset, m);
      }
    }
  }

  /** How many of the cuts fall inside second `u`, past its start. */
  ghost function CutsInside(cuts: seq<int>, u: int): nat {
    if cuts == [] then 0
    else
      var c := cuts[|cuts| - 1];
      CutsInside(cuts[..|cuts| - 1], u) + if !Whole(c) && Sec(c) == u then 1 else 0
  }

  /** How often a walk from `probe` with these cuts lists `u`, up to second `to`. */
  ghost function Listed(tab: CronTab, z: Zone, probe: int, to: int, cuts: seq<int>, u: int): nat {
    if !IsFire(tab, z, u) || u > to then 0 else CutsInside(cuts, u) + if Sec(probe) < u then 1 else 0
  }

  /** `out` lists the fires in order, each as often as the cuts make it. */
  ghost predicate Walked(tab: CronTab, z: Zone, probe: int, to: int, cuts: seq<int>, out: seq<int>) {
    && (forall i, j :: 0 <= i < j < |out| ==> out[i] <= out[j])
    && forall u :: multiset(out)[u] == Listed(tab, z, probe, to, cuts, u)
  }

  lemma {:induction false} OnceEach(s: seq<int>, u: int)
    requires forall i, j :: 0 <= i < j < |s| ==> s[i] < s[j]
    ensures multiset(s)[u] == if u in s then 1 else 0
  {
    if s != [] {
      var rest, last := s[..|s| - 1], s[|s| - 1];
      OnceEach(rest, u);
      assert s == rest + [last];
      assert last !in rest;
    }
  }

  lemma FireCount(tab: CronTab, z: Zone, from: int, to: int, out: seq<int>, u: int)
    requires AllFires(tab, z, from, to, out)
    ensures multiset(out)[u] == if IsFire(tab, z, u) && from < u <= to then 1 else 0
  {
    hide IsFire;
    OnceEach(out, u);
  }

  lemma {:induction false} NoCutYet(cuts: seq<int>, at: int, u: int)
    requires (forall i :: 0 <= i < |cuts| ==> cuts[i] <= at) && Sec(at) < u
    ensures CutsInside(cuts, u) == 0
  {
    if cuts != [] {
      SecAscends(cuts[|cuts| - 1], at);
      NoCutYet(cuts[..|cuts| - 1], at, u);
    }
  }

  lemma FirstSegment(tab: CronTab, z: Zone, probe: int, to: int, part: seq<int>)
    requires AllFires(tab, z, Sec(probe), to, part)
    ensures Walked(tab, z, probe, to, [], part)
  {
    hide IsFire;
    forall u ensures multiset(part)[u] == Listed(tab, z, probe, to, [], u) {
      FireCount(tab, z, Sec(probe), to, part, u);
    }
  }

  lemma CutSeconds(cut: int)
    ensures Sec(cut - 1) == if Whole(cut) then Sec(cut) - 1 else Sec(cut)
  {}

  /** One more cut, and the segment from a second before it. */
  lemma NextSegment(tab: CronTab, z: Zone, probe: int, cuts: seq<int>, out: seq<int>, cut: int, to: int, part: seq<int>)
    requires probe < cut && (forall c :: c in cuts ==> c < cut) && Sec(cut - 1) <= to
    requires Walked(tab, z, probe, Sec(cut - 1), cuts, out) && AllFires(tab, z, Sec(cut) - 1, to, part)
    ensures Walked(tab, z, probe, to, cuts + [cut], out + part)
  {
    hide IsFire;
    hide Sec;
    hide Whole;
    CutSeconds(cut);
    SecAscends(probe, cut - 1);
    var more, all := cuts + [cut], out + part;
    assert more[..|more| - 1] == cuts;
    assert forall i :: 0 <= i < |cuts| ==> cuts[i] in cuts;
    forall u ensures multiset(all)[u] == Listed(tab, z, probe, to, more, u) {
      FireCount(tab, z, Sec(cut) - 1, to, part, u);
      assert multiset(out)[u] == Listed(tab, z, probe, Sec(cut - 1), cuts, u);
      if Sec(cut - 1) < u {
        NoCutYet(cuts, cut - 1, u);
      }
    }
    forall i, j | 0 <= i < j < |all| ensures all[i] <= all[j] {
      if i < |out| <= j {
        assert out[i] in multiset(out);
        assert Listed(tab, z, probe, Sec(cut - 1), cuts, out[i]) > 0;
        assert part[j - |out|] in part;
      }
    }
  }

  /** One segment: on the fixed offset where a frame vouches, on the moving zone elsewhere. */
  method WalkSegment(tab: CronTab, z: Zone, fixed: Option<int>, at: int, goodTo: int, seed: int, to: int)
      returns (part: seq<int>)
    requires ValidTab(tab) && ValidZone(z) && at - 1 <= seed <= to <= goodTo && at <= goodTo
    requires fixed.Some? ==> Steady(z, at - GAP_PROBE, goodTo, fixed.value)
    ensures AllFires(tab, z, seed, to, part)
  {
    hide ValidTab;
    hide ValidZone;
    hide Steady;
    hide Show;
    hide Instant;
    hide FoldAt;
    hide AllFires;
    if fixed.Some? {
      FixedReading(fixed.value, seed + fixed.value);
      SteadyOffset(z, at, goodTo, fixed.value);
      part := FiresBefore(tab, Fixed(fixed.value), seed + fixed.value, false, to + 1);
      SteadyNarrows(z, at, goodTo, to, fixed.value);
      SteadyFires(tab, z, at, to, fixed.value, seed, part);
    } else {
      ShowRoundTrip(z, seed);
      part := FiresBefore(tab, Zoned(z), Show(z, seed), FoldAt(z, seed), to + 1);
    }
  }

  // ----- where a walk is cut -----

  /**
   The instants a walk from `probe` to `end` is cut at, from what the cache holds:
   each the end of the frame that answers at the one before. `clock` is the
   reading at each request.
   */
  ghost function Cuts(z: Zone, cache: seq<Span>, probe: int, end: int, clock: nat -> real, k: nat): seq<int>
    decreases end - probe
  {
    var r := Answer(z, cache, probe, Some(end), clock(k));
    if r.goodTo >= end then [] else [r.goodTo] + Cuts(z, r.cache, r.goodTo, end, clock, k + 1)
  }

  lemma {:induction false} CutInside(z: Zone, cache: seq<Span>, probe: int, end: int, clock: nat -> real, k: nat,
                                     i: nat)
    requires i < |Cuts(z, cache, probe, end, clock, k)|
    ensures probe < Cuts(z, cache, probe, end, clock, k)[i] < end
    decreases i
  {
    hide Answer;
    var r := Answer(z, cache, probe, Some(end), clock(k));
    if i > 0 {
      CutInside(z, r.cache, r.goodTo, end, clock, k + 1, i - 1);
    }
  }

  /** From a whole second to a whole second, on frames that end on whole seconds, every cut is on one. */
  lemma {:induction false} WholeCut(z: Zone, cache: seq<Span>, probe: int, end: int, clock: nat -> real, k: nat, i: nat)
    requires ValidZone(z) && AllVouch(z, cache) && WholeSpans(cache) && Whole(probe) && Whole(end)
    requires i < |Cuts(z, cache, probe, end, clock, k)|
    ensures Whole(Cuts(z, cache, probe, end, clock, k)[i])
    decreases i
  {
    hide Answer;
    hide ValidZone;
    hide AllVouch;
    hide WholeSpans;
    hide Whole;
    var r := Answer(z, cache, probe, Some(end), clock(k));
    AnswerVouches(z, cache, probe, Some(end), clock(k));
    WholeAnswer(z, cache, probe, end, clock(k));
    if i > 0 {
      WholeCut(z, r.cache, r.goodTo, end, clock, k + 1, i - 1);
    }
  }

  /** The end of the frame built at `at` for a walk to `end`. */
  ghost function FrameEnd(z: Zone, at: int, end: int): (hi: int)
    ensures at < hi
  {
    Built(z, at, Some(end), 0.0).hi
  }

  /** The cuts of a walk that finds no frame to reuse. */
  ghost function BuiltCuts(z: Zone, probe: int, end: int): seq<int>
    decreases end - probe
  {
    var hi := FrameEnd(z, probe, end);
    if hi >= end then [] else [hi] + BuiltCuts(z, hi, end)
  }

  /** Every cached span ends at or before `at`. */
  ghost predicate Behind(cache: seq<Span>, at: int) {
    forall i :: 0 <= i < |cache| ==> cache[i].hi <= at
  }

  lemma {:induction false} NoneFound(cache: seq<Span>, at: int, now: real)
    requires Behind(cache, at)
    ensures Find(cache, at, now) == |cache|
  {
    if cache != [] {
      NoneFound(cache[1..], at, now);
    }
  }

  lemma BuiltAnswer(z: Zone, cache: seq<Span>, at: int, end: int, now: real)
    requires Behind(cache, at)
    ensures var r := Answer(z, cache, at, Some(end), now);
            r.goodTo == FrameEnd(z, at, end) && Behind(r.cache, r.goodTo)
  {
    hide OffsetAt;
    hide Sec;
    hide Change;
    hide Young;
    NoneFound(cache, at, now);
    KeptAreCached(cache, now);
  }

  /** Behind every cached frame the walk builds each frame afresh: the cuts depend on the zone and the window alone. */
  lemma {:induction false} CutsBehind(z: Zone, cache: seq<Span>, probe: int, end: int, clock: nat -> real, k: nat)
    requires Behind(cache, probe)
    ensures Cuts(z, cache, probe, end, clock, k) == BuiltCuts(z, probe, end)
    decreases end - probe
  {
    hide Answer;
    hide FrameEnd;
    hide Behind;
    BuiltAnswer(z, cache, probe, end, clock(k));
    var r := Answer(z, cache, probe, Some(end), clock(k));
    if r.goodTo < end {
      CutsBehind(z, r.cache, r.goodTo, end, clock, k + 1);
    }
  }

  /** Those cuts share the fraction of a second of the start. */
  lemma {:induction false} BuiltCutsFraction(z: Zone, probe: int, end: int, i: nat)
    requires ValidZone(z) && i < |BuiltCuts(z, probe, end)|
    ensures Whole(BuiltCuts(z, probe, end)[i]) <==> Whole(probe)
    decreases end - probe
  {
    hide ValidZone;
    hide Whole;
    hide Built;
    BuiltVouches(z, probe, Some(end), 0.0);
    var hi := FrameEnd(z, probe, end);
    if i > 0 {
      BuiltCutsFraction(z, hi, end, i - 1);
    }
  }

  // ----- walking -----

  /** A walk that has reached the cut `at` and is to resume from `seed`. */
  ghost predicate Reaching(tab: CronTab, z: Zone, probe: int, at: int, seed: int, cuts: seq<int>, out: seq<int>) {
    if at == probe then cuts == [] && out == [] && seed == Sec(probe)
    else
      && probe < at && seed == Sec(at) - 1
      && cuts != [] && cuts[|cuts| - 1] == at && (forall i :: 0 <= i < |cuts| - 1 ==> cuts[i] < at)
      && Walked(tab, z, probe, Sec(at - 1), cuts[..|cuts| - 1], out)
  }

  lemma ReachedCut(tab: CronTab, z: Zone, probe: int, at: int, cuts: seq<int>, out: seq<int>, cut: int)
    requires Walked(tab, z, probe, Sec(cut - 1), cuts, out) && probe <= at < cut
    requires forall i :: 0 <= i < |cuts| ==> cuts[i] <= at
    ensures Reaching(tab, z, probe, cut, Sec(cut - MICROS), cuts + [cut], out)
  {
    SecMoves(cut, -1);
    assert (cuts + [cut])[..|cuts|] == cuts;
    hide Walked;
    hide Sec;
  }

  /** The next segment, up to `stop`. */
  method WalkOn(tab: CronTab, z: Zone, fixed: Option<int>, goodTo: int, probe: int, at: int, seed: int, stop: int,
                out: seq<int>, ghost cuts: seq<int>)
      returns (more: seq<int>)
    requires ValidTab(tab) && ValidZone(z) && at < stop <= goodTo && Reaching(tab, z, probe, at, seed, cuts, out)
    requires fixed.Some? ==> Steady(z, Sec(at) - GAP_PROBE, Sec(goodTo), fixed.value)
    ensures Walked(tab, z, probe, Sec(stop - 1), cuts, more)
    ensures probe <= at && forall i :: 0 <= i < |cuts| ==> cuts[i] <= at
  {
    hide ValidTab;
    hide ValidZone;
    hide Steady;
    hide Walked;
    hide AllFires;
    hide Sec;
    SecAscends(at, goodTo);
    SecAscends(at, stop - 1);
    SecAscends(stop - 1, goodTo);
    var part := WalkSegment(tab, z, fixed, Sec(at), Sec(goodTo), seed, Sec(stop - 1));
    more := out + part;
    if at == probe {
      FirstSegment(tab, z, probe, Sec(stop - 1), part);
      assert more == part;
    } else {
      ghost var done := cuts[..|cuts| - 1];
      SecAscends(at - 1, stop - 1);
      NextSegment(tab, z, probe, done, out, at, Sec(stop - 1), part);
      assert cuts == done + [at];
    }
  }

  /**
   The fires on the host clock strictly after `probe` and before `end`, frame by
   frame. Each segment resumes one second before the last cut: a fire in the
   second of a cut that is not on a whole second is listed once more.
   */
  method WalkFires(tab: CronTab, local: LocalZone, probe: int, end: int, clock: nat -> real) returns (out: seq<int>)
    requires ValidTab(tab) && local.Valid()
    modifies local, local.Cached()
    ensures local.Valid() && fresh(local.Cached() - old(local.Cached()))
    ensures probe < end ==>
              Walked(tab, local.host, probe, Sec(end - 1),
                     Cuts(local.host, old(local.cache), probe, end, clock, 0), out)
    ensures probe >= end ==> out == []
  {
    hide ValidTab;
    hide ValidZone;
    hide Steady;
    hide Walked;
    hide Reaching;
    hide Moves;
    hide Sec;
    hide Answer;
    hide Mirrors;
    hide AllVouch;
    hide Cuts;
    var z := local.host;
    out := [];
    if probe >= end {
      var fixed, goodTo := local.FixedFrame(probe, Some(end), clock(0));
      return;
    }
    ghost var all := Cuts(z, local.cache, probe, end, clock, 0);
    var at, seed, k := probe, Sec(probe), 0;
    ghost var cuts: seq<int> := [];
    assert Reaching(tab, z, probe, at, seed, cuts, out) by {
      StartsReaching(tab, z, probe);
    }
    while true
      invariant local.Valid() && local.host == z && fresh(local.Cached() - old(local.Cached()))
      invariant at < end && k >= 0 && Reaching(tab, z, probe, at, seed, cuts, out)
      invariant all == cuts + Cuts(z, local.cache, at, end, clock, k)
      decreases end - at
    {
      CutsStep(z, local.cache, at, end, clock, k);
      var fixed, goodTo := local.FixedFrame(at, Some(end), clock(k));
      var stop := if goodTo < end then goodTo else end;
      out := WalkOn(tab, z, fixed, goodTo, probe, at, seed, stop, out, cuts);
      if stop >= end {
        assert all == cuts;
        return;
      }
      ReachedCut(tab, z, probe, at, cuts, out, stop);
      assert all == (cuts + [stop]) + Cuts(z, local.cache, stop, end, clock, k + 1);
      at, seed, k, cuts := stop, Sec(stop - MICROS), k + 1, cuts + [stop];
    }
  }

  lemma StartsReaching(tab: CronTab, z: Zone, probe: int)
    ensures Reaching(tab, z, probe, probe, Sec(probe), [], [])
  {}

  lemma CutsStep(z: Zone, cache: seq<Span>, at: int, end: int, clock: nat -> real, k: nat)
    ensures var r := Answer(z, cache, at, Some(end), clock(k));
            Cuts(z, cache, at, end, clock, k)
            == if r.goodTo >= end then [] else [r.goodTo] + Cuts(z, r.cache, r.goodTo, end, clock, k + 1)
  {
    hide Answer;
  }

  // ----- when the walk lists each fire once -----

  lemma {:induction false} CutCounts(cuts: seq<int>, i: nat)
    requires i < |cuts| && !Whole(cuts[i])
    ensures CutsInside(cuts, Sec(cuts[i])) > 0
  {
    if i < |cuts| - 1 {
      CutCounts(cuts[..|cuts| - 1], i);
    }
  }

  lemma {:induction false} CutFound(cuts: seq<int>, u: int) returns (i: nat)
    requires CutsInside(cuts, u) > 0
    ensures i < |cuts| && !Whole(cuts[i]) && Sec(cuts[i]) == u
  {
    var c := cuts[|cuts| - 1];
    if !Whole(c) && Sec(c) == u {
      i := |cuts| - 1;
    } else {
      i := CutFound(cuts[..|cuts| - 1], u);
    }
  }

  /** No cut splits a second with a fire in it. */
  ghost predicate CleanCuts(tab: CronTab, z: Zone, cuts: seq<int>) {
    forall i :: 0 <= i < |cuts| ==> Whole(cuts[i]) || !IsFire(tab, z, Sec(cuts[i]))
  }

  lemma CleanLists(tab: CronTab, z: Zone, probe: int, to: int, cuts: seq<int>, out: seq<int>)
    requires Walked(tab, z, probe, to, cuts, out) && CleanCuts(tab, z, cuts)
    ensures AllFires(tab, z, Sec(probe), to, out)
  {
    hide IsFire;
    hide Sec;
    hide Whole;
    forall u ensures multiset(out)[u] == if IsFire(tab, z, u) && Sec(probe) < u <= to then 1 else 0 {
      assert multiset(out)[u] == Listed(tab, z, probe, to, cuts, u);
      if CutsInside(cuts, u) > 0 {
        var i := CutFound(cuts, u);
      }
    }
    OnceIsStrict(out);
    assert forall u :: u in out <==> multiset(out)[u] > 0;
  }

  lemma OnceIsStrict(out: seq<int>)
    requires forall i, j :: 0 <= i < j < |out| ==> out[i] <= out[j]
    requires forall u :: multiset(out)[u] <= 1
    ensures forall i, j :: 0 <= i < j < |out| ==> out[i] < out[j]
  {
    forall i, j | 0 <= i < j < |out| ensures out[i] < out[j] {
      assert out == out[..i] + [out[i]] + out[i + 1..j] + [out[j]] + out[j + 1..];
      assert multiset(out)[out[i]] <= 1;
    }
  }

  lemma CleanIff(tab: CronTab, z: Zone, probe: int, to: int, cuts: seq<int>, out: seq<int>)
    requires Walked(tab, z, probe, to, cuts, out)
    requires forall i :: 0 <= i < |cuts| ==> probe < cuts[i] && Sec(cuts[i]) <= to
    ensures AllFires(tab, z, Sec(probe), to, out) <==> CleanCuts(tab, z, cuts)
  {
    hide IsFire;
    hide Sec;
    hide Whole;
    if CleanCuts(tab, z, cuts) {
      CleanLists(tab, z, probe, to, cuts, out);
    } else {
      var i :| 0 <= i < |cuts| && !Whole(cuts[i]) && IsFire(tab, z, Sec(cuts[i]));
      var u := Sec(cuts[i]);
      CutCounts(cuts, i);
      assert multiset(out)[u] == Listed(tab, z, probe, to, cuts, u);
      if AllFires(tab, z, Sec(probe), to, out) {
        FireCount(tab, z, Sec(probe), to, out, u);
      }
    }
  }

  /**
   A walk lists each fire of its window once exactly when no cut, as the zone,
   the cached frames and the window fix them, splits a second with a fire in it.
   */
  lemma WalkedOnceIff(tab: CronTab, z: Zone, cache: seq<Span>, probe: int, end: int, clock: nat -> real, out: seq<int>)
    requires probe < end && Walked(tab, z, probe, Sec(end - 1), Cuts(z, cache, probe, end, clock, 0), out)
    ensures AllFires(tab, z, Sec(probe), Sec(end - 1), out)
       <==> CleanCuts(tab, z, Cuts(z, cache, probe, end, clock, 0))
  {
    hide Walked;
    hide AllFires;
    hide CleanCuts;
    hide Cuts;
    hide Sec;
    var cuts := Cuts(z, cache, probe, end, clock, 0);
    forall i | 0 <= i < |cuts| ensures probe < cuts[i] && Sec(cuts[i]) <= Sec(end - 1) {
      CutInside(z, cache, probe, end, clock, 0, i);
      SecAscends(cuts[i], end - 1);
    }
    CleanIff(tab, z, probe, Sec(end - 1), cuts, out);
  }

  /**
   With every cached frame behind it, a walk lists each fire once exactly when it
   starts on a whole second or no frame it builds ends in a second with a fire.
   */
  lemma FreshWalkOnceIff(tab: CronTab, z: Zone, cache: seq<Span>, probe: int, end: int, clock: nat -> real,
                         out: seq<int>)
    requires ValidZone(z) && Behind(cache, probe)
    requires probe < end && Walked(tab, z, probe, Sec(end - 1), Cuts(z, cache, probe, end, clock, 0), out)
    ensures AllFires(tab, z, Sec(probe), Sec(end - 1), out)
       <==> Whole(probe) || forall i :: 0 <= i < |BuiltCuts(z, probe, end)| ==>
                              !IsFire(tab, z, Sec(BuiltCuts(z, probe, end)[i]))
  {
    hide Walked;
    hide AllFires;
    hide ValidZone;
    hide Behind;
    hide Cuts;
    hide BuiltCuts;
    hide IsFire;
    hide Whole;
    hide Sec;
    WalkedOnceIff(tab, z, cache, probe, end, clock, out);
    CutsBehind(z, cache, probe, end, clock, 0);
    forall i | 0 <= i < |BuiltCuts(z, probe, end)| ensures Whole(BuiltCuts(z, probe, end)[i]) <==> Whole(probe) {
      BuiltCutsFraction(z, probe, end, i);
    }
  }

  /** From a whole second to a whole second, on frames that end on whole seconds, nothing is listed twice. */
  lemma WholeSecondsWalkOnce(tab: CronTab, z: Zone, cache: seq<Span>, probe: int, end: int, clock: nat -> real,
                             out: seq<int>)
    requires ValidZone(z) && AllVouch(z, cache) && WholeSpans(cache) && Whole(probe) && Whole(end)
    requires probe < end && Walked(tab, z, probe, Sec(end - 1), Cuts(z, cache, probe, end, clock, 0), out)
    ensures AllFires(tab, z, Sec(probe), Sec(end - 1), out)
  {
    hide Walked;
    hide AllFires;
    hide ValidZone;
    hide AllVouch;
    hide WholeSpans;
    hide Cuts;
    hide IsFire;
    hide Whole;
    hide Sec;
    var cuts := Cuts(z, cache, probe, end, clock, 0);
    forall i | 0 <= i < |cuts| ensures Whole(cuts[i]) {
      WholeCut(z, cache, probe, end, clock, 0, i);
    }
    WalkedOnceIff(tab, z, cache, probe, end, clock, out);
  }

  // ----- a fire walked twice -----

  /** 01:30 on 8 March 2026, once. */
  const EARLY: CronTab := LONE.(hours := {1}, hoursSorted := [1])

  /** The instant it fires at in the zone that springs forward half an hour later. */
  function EarlyFire(): int {
    DayAt(2026, 3, 8) + 23400
  }

  lemma EarlyIsValid()
    ensures ValidTab(EARLY) && ValidZone(SpringZone())
  {
    hide MonthStart;
  }

  lemma EarlyFires()
    ensures IsFire(EARLY, SpringZone(), EarlyFire())
  {
    hide MonthStart;
    hide DateOf;
    hide DowIn;
    var z, a := SpringZone(), DayAt(2026, 3, 8) + 5400;
    DayReads(2026, 3, 8, 5400);
    HmsOfTime(Hms(1, 30, 0));
    assert TimeOfDay(Hms(1, 30, 0)) == 5400;
    assert Scheduled(EARLY, a);
    EarlyIsValid();
    assert WallStep(z, 0, false) == DayAt(2026, 3, 8) + 3 * 3600;
    WallSegmentIs(z, a, 0);
    assert Resolve(z, a) == EarlyFire();
  }

  lemma SpringOffset(t: int)
    ensures OffsetAt(SpringZone(), t) == if t < EarlyFire() + 1800 then -5 * 3600 else -4 * 3600
  {
    hide MonthStart;
    hide Segment;
    EarlyIsValid();
    SegmentIs(SpringZone(), t, if t < EarlyFire() + 1800 then 0 else 1);
  }

  /** On the zone that springs forward, the only hourly sample half past that moves is the one in the fire's second. */
  lemma OnlyCut(probe: int, cut: int)
    requires probe == (EarlyFire() - 2 * DAY) * MICROS + 500_000
    requires Sample(probe - PROBE_MICROS, cut) && Moves(SpringZone(), cut)
    ensures Sec(cut) == EarlyFire() && !Whole(cut)
  {
    hide MonthStart;
    hide OffsetAt;
    SpringOffset(Sec(cut));
    SpringOffset(Sec(cut) + FRAME_STEP);
    var fire := EarlyFire();
    HourGrid(fire, cut, (cut - (probe - PROBE_MICROS)) / HOUR_MICROS);
  }

  lemma HourGrid(fire: int, cut: int, k: int)
    requires cut == (fire - 2 * DAY) * MICROS + 500_000 - PROBE_MICROS + k * HOUR_MICROS
    requires Sec(cut) < fire + 1800 <= Sec(cut) + FRAME_STEP
    ensures Sec(cut) == fire && !Whole(cut)
  {
    SecMoves(500_000, fire - 2 * DAY - GAP_PROBE + k * FRAME_STEP);
    assert k == 74;
  }

  /** What the first frame of a walk meets. */
  lemma FirstEnd(z: Zone, probe: int, end: int)
    requires ValidZone(z) && probe < end
    ensures var hi := FrameEnd(z, probe, end);
            || (exists t :: probe - PROBE_MICROS - HOUR_MICROS < t <= probe && Moves(z, t))
            || (hi >= end && Steady(z, Sec(probe) - GAP_PROBE, Sec(end - 1), OffsetAt(z, Sec(probe))))
            || (Sample(probe - PROBE_MICROS, hi) && Moves(z, hi))
  {
    hide OffsetAt;
    hide ValidZone;
    hide Sec;
    hide Sample;
    hide Moves;
    hide Built;
    BuiltVouches(z, probe, Some(end), 0.0);
    var s := Built(z, probe, Some(end), 0.0);
    SecAscends(probe, end - 1);
    if s.open {
      SecAscends(end - 1, s.hi);
      SteadyStart(z, Sec(probe), Sec(s.hi), Sec(end - 1), s.fixed.value);
    }
  }

  lemma SteadyStart(z: Zone, at: int, goodTo: int, to: int, offset: int)
    requires Steady(z, at - GAP_PROBE, goodTo, offset) && at <= to <= goodTo
    ensures Steady(z, at - GAP_PROBE, to, OffsetAt(z, at))
  {
    assert OffsetAt(z, at) == offset;
  }

  lemma SpringCut(probe: int, end: int)
    requires probe == (EarlyFire() - 2 * DAY) * MICROS + 500_000 && end == (EarlyFire() + 2 * FRAME_STEP) * MICROS
    ensures var hi := FrameEnd(SpringZone(), probe, end);
            hi < end && Sec(hi) == EarlyFire() && !Whole(hi)
  {
    hide MonthStart;
    hide OffsetAt;
    hide FrameEnd;
    var z, fire := SpringZone(), EarlyFire();
    EarlyIsValid();
    SecMoves(500_000, fire - 2 * DAY);
    SecMoves(-1, fire + 2 * FRAME_STEP);
    FirstEnd(z, probe, end);
    forall t | probe - PROBE_MICROS - HOUR_MICROS < t <= probe ensures !Moves(z, t) {
      SecAscends(t, probe);
      SpringOffset(Sec(t));
      SpringOffset(Sec(t) + FRAME_STEP);
    }
    SpringOffset(Sec(probe));
    SpringOffset(Sec(end - 1));
    OnlyCut(probe, FrameEnd(z, probe, end));
  }

  /**
   A walk of two days and two hours from half a second past a minute: its first
   cut falls half a second past the fire, and the fire is listed again.
   */
  method WalkTwice(clock: nat -> real) returns (out: seq<int>)
    ensures IsFire(EARLY, SpringZone(), EarlyFire()) && multiset(out)[EarlyFire()] >= 2
  {
    hide MonthStart;
    hide EarlyFire;
    hide FrameEnd;
    hide IsFire;
    hide Cuts;
    EarlyIsValid();
    EarlyFires();
    var local := new LocalZone(SpringZone());
    var probe, end := (EarlyFire() - 2 * DAY) * MICROS + 500_000, (EarlyFire() + 2 * FRAME_STEP) * MICROS;
    out := WalkFires(EARLY, local, probe, end, clock);
    ghost var cuts := Cuts(SpringZone(), [], probe, end, clock, 0);
    CutsBehind(SpringZone(), [], probe, end, clock, 0);
    SpringCut(probe, end);
    CutCounts(cuts, 0);
    SecMoves(500_000, EarlyFire() - 2 * DAY);
    SecMoves(-1, EarlyFire() + 2 * FRAME_STEP);
    assert multiset(out)[EarlyFire()] == Listed(EARLY, SpringZone(), probe, Sec(end - 1), cuts, EarlyFire());
  }
}
