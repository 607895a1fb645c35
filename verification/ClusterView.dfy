/**
 How one entry of the peer table moves: the rule a successful poll applies, the
 rule a failed poll applies, and what every history of polls leaves behind.
 */
module ClusterView {
  import opened Options
  import opened PeerTable

  const SCHEME_VERSION := "v1"

  /** A validated `/peer` body. */
  datatype Observation = Observation(
    name: Option<string>,
    id: Option<string>,
    scheme: Option<string>,
    instance: Option<string>,
    members: Option<seq<Member>>,
    reportsMembers: bool,
    ranJobs: Option<set<string>>,
    size: Option<int>,
    distribution: Option<string>,
    electLeader: Option<bool>,
    mutualAgreeing: Option<set<string>>,
    quorateVouched: Option<set<string>>)

  /** What a body says about the peer, as this node reads it. */
  datatype Sighting = IsSelf | IsTwin | OtherScheme | Match | Mismatch

  function Sight(o: Observation, me: Node, myId: string): Sighting {
    if o.name == Some(me.name) then
      if o.instance.Some? && o.instance.value != me.instance then IsTwin else IsSelf
    else if o.scheme.Some? && o.scheme.value != SCHEME_VERSION then OtherScheme
    else if o.id == Some(myId) then Match
    else Mismatch
  }

  /** The reported fields, copied; the derived ones (status, latch, streak) as given. */
  function Reported(o: Observation, status: Status, selfConfirmed: bool, streak: nat): Peer {
    Peer(status, o.id, o.name, o.instance, selfConfirmed, streak, 0, o.members, o.reportsMembers, o.size,
         o.distribution, o.electLeader, o.ranJobs, o.mutualAgreeing, o.quorateVouched)
  }

  function Succeeded(p: Peer, o: Observation, me: Node, myId: string, driftAfter: int): Peer {
    match Sight(o, me, myId)
    case IsTwin => Reported(o, Conflict, false, p.mismatchStreak)
    case IsSelf => Reported(o, Self, true, 0)
    case OtherScheme => Reported(o, Drifted, false, p.mismatchStreak)
    case Match => Reported(o, Agreed, false, 0)
    case Mismatch =>
      var streak := p.mismatchStreak + 1;
      Reported(o, if streak >= driftAfter then Drifted else Syncing, false, streak)
  }

  /** A failed poll drops the peer's reported view and keeps its identity, the streak and the self latch. */
  function Failed(p: Peer, untrusted: bool): Peer {
    p.(status := if p.selfConfirmed then Self else if untrusted then Untrusted else Unreachable,
       members := None, ranRebootJobs := None, mutualAgreeing := None, quorateVouched := None,
       reportsMembers := false)
  }

  function RoundEnded(p: Peer): Peer {
    if p.status.Unreachable? || p.status.Untrusted? then p.(failedRounds := p.failedRounds + 1) else p
  }

  // ----- histories -----

  datatype Event = Success(o: Observation, myId: string) | Failure(untrusted: bool) | EndRound

  const BLANK := Peer(Unknown, None, None, None, false, 0, 0, None, true, None, None, None, None, None, None)

  /** The entry after a history of events, under any sequence of own job-set ids. */
  function Run(h: seq<Event>, me: Node, driftAfter: int): Peer {
    if h == [] then BLANK
    else
      var p := Run(h[..|h| - 1], me, driftAfter);
      match h[|h| - 1]
      case Success(o, myId) => Succeeded(p, o, me, myId, driftAfter)
      case Failure(untrusted) => Failed(p, untrusted)
      case EndRound => RoundEnded(p)
  }

  // ----- what a body makes of an entry, on its fields -----

  /** Each status has its own condition on the body; everything the body reports is copied. */
  lemma StatusIs(p: Peer, o: Observation, me: Node, myId: string, driftAfter: int)
    ensures var q := Succeeded(p, o, me, myId, driftAfter);
            var ours := o.name == Some(me.name);
            var comparable := !ours && (o.scheme.None? || o.scheme.value == "v1");
            && (q.status == Conflict <==> ours && o.instance.Some? && o.instance.value != me.instance)
            && (q.status == Self <==> ours && (o.instance.None? || o.instance.value == me.instance))
            && (q.status == Agreed <==> comparable && o.id == Some(myId))
            && (q.status == Syncing <==> comparable && o.id != Some(myId) && p.mismatchStreak + 1 < driftAfter)
            && (q.status == Drifted <==>
                  !ours && (!comparable || (o.id != Some(myId) && p.mismatchStreak + 1 >= driftAfter)))
            && (q.selfConfirmed <==> q.status == Self)
            && q.mismatchStreak == (if q.status == Self || q.status == Agreed then 0
                                    else if comparable then p.mismatchStreak + 1 else p.mismatchStreak)
    ensures var q := Succeeded(p, o, me, myId, driftAfter);
            && q.jobSetId == o.id && q.nodeName == o.name && q.instanceId == o.instance
            && q.members == o.members && q.reportsMembers == o.reportsMembers && q.failedRounds == 0
            && q.declaredSize == o.size && q.declaredDistribution == o.distribution
            && q.declaredElectLeader == o.electLeader && q.ranRebootJobs == o.ranJobs
            && q.mutualAgreeing == o.mutualAgreeing && q.quorateVouched == o.quorateVouched
  {}

  /** A body of another node that can be compared with us. */
  predicate Comparable(e: Event, me: Node) {
    e.Success? && e.o.name != Some(me.name) && (e.o.scheme.None? || e.o.scheme.value == "v1")
  }

  /** A body that names us and no other process. */
  predicate NamesUs(e: Event, me: Node) {
    e.Success? && e.o.name == Some(me.name) && (e.o.instance.None? || e.o.instance.value == me.instance)
  }

  predicate Differs(e: Event, me: Node) {
    Comparable(e, me) && e.o.id != Some(e.myId)
  }

  /** Only a confirmed agreement or self-listing clears the drift streak. */
  predicate Resets(e: Event, me: Node) {
    NamesUs(e, me) || (Comparable(e, me) && e.o.id == Some(e.myId))
  }

  function Mismatches(h: seq<Event>, me: Node): nat {
    if h == [] then 0 else Mismatches(h[1..], me) + if Differs(h[0], me) then 1 else 0
  }

  lemma {:induction false} OneMoreEvent(h: seq<Event>, e: Event, me: Node)
    ensures Mismatches(h + [e], me) == Mismatches(h, me) + if Differs(e, me) then 1 else 0
  {
    if h == [] {
      assert h + [e] == [e];
    } else {
      OneMoreEvent(h[1..], e, me);
      assert (h + [e])[1..] == h[1..] + [e];
    }
  }

  lemma ResetClears(a: seq<Event>, me: Node, driftAfter: int)
    requires a != [] && Resets(a[|a| - 1], me)
    ensures Run(a, me, driftAfter).mismatchStreak == 0
  {
    hide Succeeded;
    var e := a[|a| - 1];
    StatusIs(Run(a[..|a| - 1], me, driftAfter), e.o, me, e.myId, driftAfter);
  }

  /** The streak counts the comparable mismatches since the last reset. */
  lemma {:induction false} StreakCountsMismatches(a: seq<Event>, b: seq<Event>, me: Node, driftAfter: int)
    requires a == [] || Resets(a[|a| - 1], me)
    requires forall e :: e in b ==> !Resets(e, me)
    ensures Run(a + b, me, driftAfter).mismatchStreak == Mismatches(b, me)
  {
    if b == [] {
      assert a + b == a;
      if a != [] {
        ResetClears(a, me, driftAfter);
      }
    } else {
      var rest, e := b[..|b| - 1], b[|b| - 1];
      assert e in b;
      assert rest + [e] == b;
      assert (a + b)[..|a + b| - 1] == a + rest;
      StreakCountsMismatches(a, rest, me, driftAfter);
      OneMoreEvent(rest, e, me);
      hide Succeeded;
      if e.Success? {
        StatusIs(Run(a + rest, me, driftAfter), e.o, me, e.myId, driftAfter);
      }
    }
  }

  /** A mismatching poll reads as drift exactly when the mismatches since the last reset reach the threshold. */
  lemma DriftIsDebounced(a: seq<Event>, b: seq<Event>, e: Event, me: Node, driftAfter: int)
    requires a == [] || Resets(a[|a| - 1], me)
    requires forall x :: x in b ==> !Resets(x, me)
    requires Differs(e, me)
    ensures Run(a + (b + [e]), me, driftAfter).status
         == if Mismatches(b, me) + 1 >= driftAfter then Drifted else Syncing
  {
    StreakCountsMismatches(a, b, me, driftAfter);
    assert (a + (b + [e]))[..|a + (b + [e])| - 1] == a + b;
  }

  // ----- what a history leaves -----

  /** The last poll of a history, answered or not. */
  function LastPoll(h: seq<Event>): (poll: Option<Event>)
    ensures poll.Some? ==> poll.value.Success? || poll.value.Failure?
  {
    if h == [] then None
    else if !h[|h| - 1].EndRound? then Some(h[|h| - 1])
    else LastPoll(h[..|h| - 1])
  }

  /** The last poll that was answered. */
  function LastAnswer(h: seq<Event>): (answer: Option<Event>)
    ensures answer.Some? ==> answer.value.Success?
  {
    if h == [] then None
    else if h[|h| - 1].Success? then Some(h[|h| - 1])
    else LastAnswer(h[..|h| - 1])
  }

  /** Who a peer is and what it declares, by its last answer. */
  ghost predicate IdentityIs(p: Peer, answer: Option<Event>, me: Node)
    requires answer.Some? ==> answer.value.Success?
  {
    if answer.None? then
      && p.jobSetId.None? && p.nodeName.None? && p.instanceId.None? && p.declaredSize.None?
      && p.declaredDistribution.None? && p.declaredElectLeader.None? && !p.selfConfirmed
    else
      var o := answer.value.o;
      && p.jobSetId == o.id && p.nodeName == o.name && p.instanceId == o.instance && p.declaredSize == o.size
      && p.declaredDistribution == o.distribution && p.declaredElectLeader == o.electLeader
      && (p.selfConfirmed <==> NamesUs(answer.value, me))
  }

  /** What it reports of others, and how it reads, by its last poll. */
  ghost predicate ReportIs(p: Peer, poll: Option<Event>, me: Node) {
    match poll
    case None => p.status == Unknown
    case Some(Success(o, myId)) =>
      && p.members == o.members && p.reportsMembers == o.reportsMembers && p.ranRebootJobs == o.ranJobs
      && p.mutualAgreeing == o.mutualAgreeing && p.quorateVouched == o.quorateVouched
      && p.status != Unknown && p.status != Unreachable && p.status != Untrusted
      && (p.status == Agreed <==> Comparable(poll.value, me) && o.id == Some(myId))
      && (p.status == Self <==> NamesUs(poll.value, me))
    case Some(Failure(untrusted)) =>
      && p.members.None? && !p.reportsMembers && p.ranRebootJobs.None?
      && p.mutualAgreeing.None? && p.quorateVouched.None?
      && p.status == if p.selfConfirmed then Self else if untrusted then Untrusted else Unreachable
    case Some(EndRound) => false
  }

  lemma AnswerIs(p: Peer, e: Event, me: Node, driftAfter: int)
    requires e.Success?
    ensures var q := Succeeded(p, e.o, me, e.myId, driftAfter);
            IdentityIs(q, Some(e), me) && ReportIs(q, Some(e), me) && q.failedRounds == 0
  {
    hide Succeeded;
    StatusIs(p, e.o, me, e.myId, driftAfter);
  }

  lemma FailureIs(p: Peer, answer: Option<Event>, me: Node, untrusted: bool)
    requires (answer.Some? ==> answer.value.Success?) && IdentityIs(p, answer, me)
    ensures var q := Failed(p, untrusted);
            IdentityIs(q, answer, me) && ReportIs(q, Some(Failure(untrusted)), me) && q.failedRounds == p.failedRounds
  {}

  lemma RoundEndIs(p: Peer, answer: Option<Event>, poll: Option<Event>, me: Node)
    requires (answer.Some? ==> answer.value.Success?) && IdentityIs(p, answer, me) && ReportIs(p, poll, me)
    ensures IdentityIs(RoundEnded(p), answer, me) && ReportIs(RoundEnded(p), poll, me)
  {}

  /**
   Who a peer is and what it declares outlives failed polls; what it reports of
   others does not; a self-listing stays until another answer.
   */
  lemma {:induction false} EntryIs(h: seq<Event>, me: Node, driftAfter: int)
    ensures var p := Run(h, me, driftAfter); IdentityIs(p, LastAnswer(h), me) && ReportIs(p, LastPoll(h), me)
    ensures LastPoll(h).Some? && LastPoll(h).value.Success? ==> LastAnswer(h) == LastPoll(h)
    ensures LastPoll(h).None? ==> LastAnswer(h).None?
  {
    if h != [] {
      hide Succeeded;
      hide Failed;
      hide RoundEnded;
      hide IdentityIs;
      hide ReportIs;
      var rest, e := h[..|h| - 1], h[|h| - 1];
      var p := Run(rest, me, driftAfter);
      EntryIs(rest, me, driftAfter);
      match e
      case Success(_, _) => AnswerIs(p, e, me, driftAfter);
      case Failure(untrusted) => FailureIs(p, LastAnswer(rest), me, untrusted);
      case EndRound => RoundEndIs(p, LastAnswer(rest), LastPoll(rest), me);
    }
  }

  /** Failed polls keep a confirmed self-listing, so the cluster size does not flap. */
  lemma SelfLatch(h: seq<Event>, me: Node, driftAfter: int)
    ensures Run(h, me, driftAfter).status == Self <==> LastAnswer(h).Some? && NamesUs(LastAnswer(h).value, me)
  {
    EntryIs(h, me, driftAfter);
  }

  /** The rounds closed since the last answer, from the first failed poll on. */
  function MissedRounds(h: seq<Event>): nat {
    if h == [] || h[|h| - 1].Success? then 0
    else
      var rest, poll := h[..|h| - 1], LastPoll(h[..|h| - 1]);
      MissedRounds(rest) + if h[|h| - 1].EndRound? && poll.Some? && poll.value.Failure? then 1 else 0
  }

  lemma {:induction false} FailedRoundsAre(h: seq<Event>, me: Node, driftAfter: int)
    ensures Run(h, me, driftAfter).failedRounds
         == if LastAnswer(h).Some? && NamesUs(LastAnswer(h).value, me) then 0 else MissedRounds(h)
  {
    if h != [] {
      var rest, e := h[..|h| - 1], h[|h| - 1];
      FailedRoundsAre(rest, me, driftAfter);
      EntryIs(rest, me, driftAfter);
      AnsweredPoll(rest);
      hide Succeeded;
      if e.Success? {
        AnswerIs(Run(rest, me, driftAfter), e, me, driftAfter);
      }
    }
  }

  lemma {:induction false} AnsweredPoll(h: seq<Event>)
    ensures LastPoll(h).Some? && LastPoll(h).value.Success? ==> LastAnswer(h) == LastPoll(h) && MissedRounds(h) == 0
  {
    if h != [] {
      AnsweredPoll(h[..|h| - 1]);
    }
  }

  // ----- who is counted, over histories -----

  /** The table after one history per address. */
  function Table(hs: seq<seq<Event>>, me: Node, driftAfter: int): seq<Peer> {
    seq(|hs|, i requires 0 <= i < |hs| => Run(hs[i], me, driftAfter))
  }

  /** The body lists this very process as agreed, or is of a build that lists nobody. */
  ghost predicate ListsUs(o: Observation, me: Node) {
    o.reportsMembers ==>
      o.members.Some? && exists i :: 0 <= i < |o.members.value| && o.members.value[i].agreed
                                     && o.members.value[i].instance == me.instance
  }

  /**
   The last poll was answered by another named node on our scheme and job set,
   which lists us as agreed and declares nothing but what we do.
   */
  ghost predicate Confirmed(h: seq<Event>, me: Node, size: int) {
    LastPoll(h).Some? && LastPoll(h).value.Success? &&
    var o, myId := LastPoll(h).value.o, LastPoll(h).value.myId;
    && o.name.Some? && o.name.value != me.name && (o.scheme.None? || o.scheme.value == "v1") && o.id == Some(myId)
    && ListsUs(o, me)
    && (o.size.None? || o.size.value == size)
    && (o.distribution.None? || o.distribution.value == me.distribution)
    && (o.electLeader.None? || o.electLeader.value == me.electLeader)
  }

  /** Over every history of every address: whoever is counted is confirmed by its last poll. */
  lemma CountedIsConfirmed(hs: seq<seq<Event>>, me: Node, driftAfter: int, p: Peer) returns (i: nat)
    requires p in AgreeingPeers(me, Table(hs, me, driftAfter))
    ensures i < |hs| && p == Run(hs[i], me, driftAfter) && Confirmed(hs[i], me, ClusterSize(Table(hs, me, driftAfter)))
  {
    hide Run;
    hide ClusterSize;
    hide AgreeingIn;
    var t := Table(hs, me, driftAfter);
    OnlyConfirmed(me, ClusterSize(t), t, p);
    i :| 0 <= i < |t| && t[i] == p;
    EntryIs(hs[i], me, driftAfter);
  }

  /** And whoever is confirmed is counted, at this address or at another of the same process. */
  lemma ConfirmedIsCounted(hs: seq<seq<Event>>, me: Node, driftAfter: int, i: nat)
    requires i < |hs| && Confirmed(hs[i], me, ClusterSize(Table(hs, me, driftAfter)))
    ensures var p, agreeing := Run(hs[i], me, driftAfter), AgreeingPeers(me, Table(hs, me, driftAfter));
            p in agreeing || (p.instanceId.Some? && exists q :: q in agreeing && q.instanceId == p.instanceId)
  {
    hide Run;
    hide ClusterSize;
    hide AgreeingIn;
    var t := Table(hs, me, driftAfter);
    EntryIs(hs[i], me, driftAfter);
    assert t[i] in t;
    AllConfirmed(me, ClusterSize(t), t, t[i]);
  }

  /** A node whose fresh report does not list us as agreed is not among our names. */
  lemma UnlistedIsNotNamed(hs: seq<seq<Event>>, me: Node, driftAfter: int, name: string)
    requires forall i :: 0 <= i < |hs| && Run(hs[i], me, driftAfter).nodeName == Some(name) ==>
               LastPoll(hs[i]).Some? && LastPoll(hs[i]).value.Success? && !ListsUs(LastPoll(hs[i]).value.o, me)
    ensures name !in AgreeingNames(me, Table(hs, me, driftAfter))
  {
    hide Run;
    hide AgreeingIn;
    var t := Table(hs, me, driftAfter);
    if name in AgreeingNames(me, t) {
      InNamesOf(AgreeingPeers(me, t), name);
      var p :| p in AgreeingPeers(me, t) && p.nodeName == Some(name);
      var i := CountedIsConfirmed(hs, me, driftAfter, p);
    }
  }

  predicate Observes(e: Event) {
    e.Success? || e.Failure?
  }

  /** A peer is unknown exactly until its first observation. */
  lemma {:induction false} UnknownNeverReturns(h: seq<Event>, me: Node, driftAfter: int)
    ensures Run(h, me, driftAfter).status.Unknown? <==> forall e :: e in h ==> !Observes(e)
  {
    if h != [] {
      var rest, e := h[..|h| - 1], h[|h| - 1];
      UnknownNeverReturns(rest, me, driftAfter);
      assert e in h && forall x :: x in h <==> x in rest || x == e by {
        assert h == rest + [e];
      }
    }
  }

  // ----- the mutable table -----

  /** Process-wide count of peer field writes. */
  class Generation {
    var count: nat

    constructor ()
      ensures count == 0
    {
      count := 0;
    }

    /** A write to some entry of another view. */
    method Bump()
      modifies this
      ensures count == old(count) + 1
    {
      count := count + 1;
    }
  }

  class PeerState {
    var value: Peer
    const generation: Generation

    constructor (generation: Generation)
      ensures value == BLANK && this.generation == generation
    {
      value := BLANK;
      this.generation := generation;
    }

    /** The interception point of every field write. */
    method Set(v: Peer)
      modifies this, generation
      ensures value == v && generation.count == old(generation.count) + 1
    {
      value := v;
      generation.count := generation.count + 1;
    }

    method CopyReport(o: Observation)
      modifies this, generation
      ensures value == Reported(o, old(value).status, false, old(value).mismatchStreak)
      ensures generation.count > old(generation.count)
    {
      Set(value.(failedRounds := 0));
      Set(value.(jobSetId := o.id));
      Set(value.(nodeName := o.name));
      Set(value.(instanceId := o.instance));
      Set(value.(members := o.members));
      Set(value.(reportsMembers := o.reportsMembers));
      Set(value.(ranRebootJobs := o.ranJobs));
      Set(value.(declaredSize := o.size));
      Set(value.(mutualAgreeing := o.mutualAgreeing));
      Set(value.(quorateVouched := o.quorateVouched));
      Set(value.(declaredDistribution := o.distribution));
      Set(value.(declaredElectLeader := o.electLeader));
      Set(value.(selfConfirmed := false));
    }

    method RecordSuccess(o: Observation, me: Node, myId: string, driftAfter: int)
      modifies this, generation
      ensures value == Succeeded(old(value), o, me, myId, driftAfter)
      ensures generation.count > old(generation.count)
    {
      CopyReport(o);
      if o.name == Some(me.name) {
        if o.instance.Some? && o.instance.value != me.instance {
          Set(value.(status := Conflict));
          return;
        }
        Set(value.(status := Self));
        Set(value.(selfConfirmed := true));
        Set(value.(mismatchStreak := 0));
        return;
      }
      if o.scheme.Some? && o.scheme.value != SCHEME_VERSION {
        Set(value.(status := Drifted));
        return;
      }
      if o.id == Some(myId) {
        Set(value.(status := Agreed));
        Set(value.(mismatchStreak := 0));
      } else {
        Set(value.(mismatchStreak := value.mismatchStreak + 1));
        Set(value.(status := if value.mismatchStreak >= driftAfter then Drifted else Syncing));
      }
    }

    method RecordFailure(untrusted: bool)
      modifies this, generation
      ensures value == Failed(old(value), untrusted)
      ensures generation.count > old(generation.count)
    {
      if value.selfConfirmed {
        Set(value.(status := Self));
      } else {
        Set(value.(status := if untrusted then Untrusted else Unreachable));
      }
      Set(value.(members := None));
      Set(value.(ranRebootJobs := None));
      Set(value.(mutualAgreeing := None));
      Set(value.(quorateVouched := None));
      Set(value.(reportsMembers := false));
    }

    method EndRound()
      modifies this, generation
      ensures value == RoundEnded(old(value))
      ensures generation.count >= old(generation.count)
      ensures value != old(value) ==> generation.count > old(generation.count)
    {
      if value.status.Unreachable? || value.status.Untrusted? {
        Set(value.(failedRounds := value.failedRounds + 1));
      }
    }
  }
}
