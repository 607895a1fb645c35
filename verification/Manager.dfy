/**
 The memoised derivations and the settle latch. Every cached answer is keyed by
 the count of peer field writes and this node's identity; whatever interleaving
 of writes and queries happens, an answer equals a recomputation from the
 current table.
 */
module Manager {
  import opened Options
  import opened Collections
  import opened Ordering
  import opened PeerTable
  import opened Candidates
  import opened Rendezvous
  import opened ClusterView

  const MAX_MEMOIZED_JOB_OWNERS := 100_000
  const SETTLE_ROUNDS := 3

  datatype Key = Key(generation: nat, me: Node)

  /** The spread derivation, with the per-job owners filled in since it was made. */
  datatype Spread = Spread(quorate: bool, members: seq<string>, owners: map<string, string>)

  datatype Derived = Derived(
    size: Option<int>,
    names: Option<seq<string>>,
    eligible: Option<seq<string>>,
    unconfirmed: Option<seq<string>>,
    leader: Option<Option<string>>,
    spread: Option<Spread>)

  const NOTHING := Derived(None, None, None, None, None, None)

  /** Every cached value is what the view derives now. */
  ghost predicate Sound(hash: Digest, v: View, d: Derived) {
    && (d.size.Some? ==> d.size.value == ClusterSize(v.table))
    && (d.names.Some? ==> d.names.value == Names(v))
    && (d.eligible.Some? ==> d.eligible.value == Eligible(v))
    && (d.unconfirmed.Some? ==> d.unconfirmed.value == Ascend(Unconfirmed(v)))
    && (d.leader.Some? ==> d.leader.value == LeaderName(v))
    && (d.spread.Some? ==> SoundSpread(hash, v, d.spread.value))
  }

  ghost predicate SoundSpread(hash: Digest, v: View, s: Spread) {
    && s.quorate == Quorate(v)
    && s.members == SpreadMembers(v)
    && forall job :: job in s.owners ==> IsOwner(hash, job, AsSet(SpreadMembers(v)), s.owners[job])
  }

  // One lemma per memoised derivation: a cached value is the derivation, and caching the derivation is sound.

  lemma CachedSize(hash: Digest, v: View, d: Derived)
    requires Sound(hash, v, d)
    ensures d.size.Some? ==> d.size.value == ClusterSize(v.table)
    ensures Sound(hash, v, d.(size := Some(ClusterSize(v.table))))
  {
    hide ClusterSize;
    hide SoundSpread;
  }

  lemma CachedNames(hash: Digest, v: View, d: Derived)
    requires Sound(hash, v, d)
    ensures d.names.Some? ==> d.names.value == Names(v)
    ensures Sound(hash, v, d.(names := Some(Names(v))))
  {
    hide Names;
    hide SoundSpread;
  }

  lemma CachedEligible(hash: Digest, v: View, d: Derived)
    requires Sound(hash, v, d)
    ensures d.eligible.Some? ==> d.eligible.value == Eligible(v)
    ensures Sound(hash, v, d.(eligible := Some(Eligible(v))))
  {
    hide Eligible;
    hide SoundSpread;
  }

  lemma CachedUnconfirmed(hash: Digest, v: View, d: Derived)
    requires Sound(hash, v, d)
    ensures d.unconfirmed.Some? ==> d.unconfirmed.value == Ascend(Unconfirmed(v))
    ensures Sound(hash, v, d.(unconfirmed := Some(Ascend(Unconfirmed(v)))))
  {
    hide Unconfirmed;
    hide Ascend;
    hide SoundSpread;
  }

  lemma CachedLeader(hash: Digest, v: View, d: Derived)
    requires Sound(hash, v, d)
    ensures d.leader.Some? ==> d.leader.value == LeaderName(v)
    ensures Sound(hash, v, d.(leader := Some(LeaderName(v))))
  {
    hide LeaderName;
    hide SoundSpread;
  }

  lemma CachedSpread(hash: Digest, v: View, d: Derived, s: Spread)
    requires Sound(hash, v, d)
    ensures d.spread.Some? ==> SoundSpread(hash, v, d.spread.value)
    ensures SoundSpread(hash, v, s) ==> Sound(hash, v, d.(spread := Some(s)))
  {
    hide SoundSpread;
  }

  /** A fresh spread derivation, from its four parts. */
  lemma FreshSpread(hash: Digest, v: View)
    ensures SoundSpread(hash, v, Spread(1 + |Names(v)| >= QuorumSize(ClusterSize(v.table)),
                                        [v.me.name] + Eligible(v) + Ascend(Unconfirmed(v)), map[]))
  {
    hide Names;
    hide Eligible;
    hide Unconfirmed;
    hide Ascend;
    hide ClusterSize;
  }

  /** One more owner filled in. */
  lemma OwnerFilled(hash: Digest, v: View, s: Spread, job: string, owner: string)
    requires SoundSpread(hash, v, s) && IsOwner(hash, job, AsSet(SpreadMembers(v)), owner)
    ensures SoundSpread(hash, v, s.(owners := s.owners[job := owner]))
  {
    hide Quorate;
    hide SpreadMembers;
    hide IsOwner;
  }

  lemma NothingCached(hash: Digest, v: View)
    ensures Sound(hash, v, NOTHING)
  {}

  predicate Attested(p: Peer, instance: string) {
    p.members.Some? && exists i :: 0 <= i < |p.members.value| && p.members.value[i].instance == instance
  }

  /** Whether the view has settled, decided afresh. */
  predicate Settled(v: View, rounds: nat) {
    && (forall i :: 0 <= i < |v.table| ==> !v.table[i].status.Unknown?)
    && (rounds >= SETTLE_ROUNDS
        || forall i :: 0 <= i < |v.table| && v.table[i].status.Agreed? && v.table[i].reportsMembers
                       ==> Attested(v.table[i], v.me.instance))
  }

  /** The last poll was answered by another node on our scheme and job set. */
  ghost predicate LastAgreed(h: seq<Event>, me: Node) {
    && LastPoll(h).Some? && LastPoll(h).value.Success?
    && Comparable(LastPoll(h).value, me) && LastPoll(h).value.o.id == Some(LastPoll(h).value.myId)
  }

  ghost predicate Mentions(o: Observation, instance: string) {
    o.members.Some? && exists i :: 0 <= i < |o.members.value| && o.members.value[i].instance == instance
  }

  /**
   When a view may be trusted, over every history of every address: each was
   polled, and three rounds are over or every agreeing peer that lists members
   mentions this process.
   */
  lemma SettledIs(hs: seq<seq<Event>>, me: Node, driftAfter: int, rounds: nat)
    ensures Settled(View(me, Table(hs, me, driftAfter)), rounds)
       <==> && (forall i :: 0 <= i < |hs| ==> LastPoll(hs[i]).Some?)
            && (rounds >= 3
                || forall i :: 0 <= i < |hs| && LastAgreed(hs[i], me) && LastPoll(hs[i]).value.o.reportsMembers ==>
                     Mentions(LastPoll(hs[i]).value.o, me.instance))
  {
    hide Run;
    var t := Table(hs, me, driftAfter);
    forall i | 0 <= i < |hs|
      ensures t[i].status == Unknown <==> LastPoll(hs[i]).None?
      ensures t[i].status == Agreed <==> LastAgreed(hs[i], me)
      ensures LastAgreed(hs[i], me) ==>
                && t[i].reportsMembers == LastPoll(hs[i]).value.o.reportsMembers
                && (Attested(t[i], me.instance) <==> Mentions(LastPoll(hs[i]).value.o, me.instance))
    {
      EntryIs(hs[i], me, driftAfter);
    }
  }

  /** Trust gained after three rounds is never lost, whatever is observed then. */
  lemma SettledStays(hs: seq<seq<Event>>, more: seq<seq<Event>>, me: Node, driftAfter: int, rounds: nat, later: nat)
    requires Settled(View(me, Table(hs, me, driftAfter)), rounds) && 3 <= rounds <= later
    requires |more| == |hs| && forall i :: 0 <= i < |hs| ==> hs[i] <= more[i]
    ensures Settled(View(me, Table(more, me, driftAfter)), later)
  {
    hide Settled;
    hide Table;
    SettledIs(hs, me, driftAfter, rounds);
    SettledIs(more, me, driftAfter, later);
    forall i | 0 <= i < |hs| ensures LastPoll(more[i]).Some? {
      PolledStays(hs[i], more[i]);
    }
  }

  lemma {:induction false} PolledStays(h: seq<Event>, more: seq<Event>)
    requires LastPoll(h).Some? && h <= more
    ensures LastPoll(more).Some?
    decreases |more|
  {
    if h != more {
      PolledStays(h, more[..|more| - 1]);
    }
  }

  class ClusterManager {
    const hash: Digest
    const driftAfter: int
    const peers: seq<PeerState>
    const generation: Generation
    var me: Node
    var cacheKey: Option<Key>
    var cache: Derived
    var pollRounds: nat
    var latched: bool
    ghost var table: seq<Peer>

    ghost predicate Wired()
      reads this, peers
    {
      && ValidDigest(hash)
      && (forall i :: 0 <= i < |peers| ==> peers[i].generation == generation)
      && (forall i, j :: 0 <= i < j < |peers| ==> peers[i] != peers[j])
      && |table| == |peers|
      && forall i :: 0 <= i < |peers| ==> peers[i].value == table[i]
    }

    ghost function Now(): View
      reads this
    {
      View(me, table)
    }

    ghost predicate Valid()
      reads this, peers, generation
    {
      && Wired()
      && (cacheKey.Some? ==> cacheKey.value.generation <= generation.count)
      && (cacheKey.Some? && cacheKey.value.generation == generation.count
          ==> Sound(hash, View(cacheKey.value.me, table), cache))
      && (latched ==> pollRounds >= SETTLE_ROUNDS)
      && (latched ==> forall i :: 0 <= i < |table| ==> !table[i].status.Unknown?)
    }

    constructor (hash: Digest, me: Node, driftAfter: int, peers: seq<PeerState>, generation: Generation)
      requires ValidDigest(hash)
      requires forall i :: 0 <= i < |peers| ==> peers[i].generation == generation && peers[i].value == BLANK
      requires forall i, j :: 0 <= i < j < |peers| ==> peers[i] != peers[j]
      ensures Valid() && this.hash == hash && this.peers == peers && this.me == me && this.generation == generation
      ensures pollRounds == 0 && table == seq(|peers|, i => BLANK)
    {
      this.hash, this.me, this.driftAfter, this.peers, this.generation := hash, me, driftAfter, peers, generation;
      cacheKey, cache, pollRounds, latched := None, NOTHING, 0, false;
      table := seq(|peers|, i => BLANK);
    }

    // ----- writes -----

    method RecordSuccess(at: nat, o: Observation, myId: string)
      requires Valid() && at < |peers|
      modifies this`table, peers[at], generation
      ensures Valid() && table == old(table)[at := Succeeded(old(table)[at], o, me, myId, driftAfter)]
    {
      hide Sound;
      hide Succeeded;
      peers[at].RecordSuccess(o, me, myId, driftAfter);
      KnownAfterSuccess(table[at], o, me, myId, driftAfter);
      table := table[at := Succeeded(table[at], o, me, myId, driftAfter)];
    }

    method RecordFailure(at: nat, untrusted: bool)
      requires Valid() && at < |peers|
      modifies this`table, peers[at], generation
      ensures Valid() && table == old(table)[at := Failed(old(table)[at], untrusted)]
    {
      hide Sound;
      peers[at].RecordFailure(untrusted);
      table := table[at := Failed(table[at], untrusted)];
    }

    method CountRound(at: nat)
      requires Valid() && at < |peers|
      modifies this`table, peers[at], generation
      ensures Valid() && table == old(table)[at := RoundEnded(old(table)[at])]
    {
      hide Sound;
      peers[at].EndRound();
      ghost var now := table[at := RoundEnded(table[at])];
      assert RoundEnded(table[at]) == table[at] ==> now == table;
      table := now;
    }

    /** Closes a poll round. */
    method EndRound()
      requires Valid()
      modifies this, peers, generation
      ensures Valid() && pollRounds == old(pollRounds) + 1 && me == old(me)
      ensures |table| == |old(table)| && forall i :: 0 <= i < |table| ==> table[i] == RoundEnded(old(table)[i])
    {
      hide Sound;
      ghost var was := table;
      for i := 0 to |peers|
        invariant Valid() && me == old(me) && pollRounds == old(pollRounds) && |table| == |was|
        invariant forall k :: 0 <= k < i ==> table[k] == RoundEnded(was[k])
        invariant forall k :: i <= k < |was| ==> table[k] == was[k]
      {
        CountRound(i);
      }
      pollRounds := pollRounds + 1;
    }

    /** A write to an entry of some other view of this process. */
    method ForeignWrite()
      requires Valid()
      modifies generation
      ensures Valid()
    {
      hide Sound;
      generation.Bump();
    }

    /** A change of name, instance or declared policy. */
    method Reassign(node: Node)
      requires Valid()
      modifies this`me
      ensures Valid() && me == node
    {
      hide Sound;
      me := node;
    }

    // ----- queries -----

    /** The peer values, in configured order. */
    method Snapshot() returns (t: seq<Peer>)
      requires Valid()
      ensures t == table
    {
      t := [];
      for i := 0 to |peers|
        invariant t == table[..i]
      {
        t := t + [peers[i].value];
      }
    }

    /** Drops everything cached under another key. */
    method Roll()
      requires Valid()
      modifies this`cacheKey, this`cache
      ensures Valid() && Sound(hash, Now(), cache) && cacheKey == Some(Key(generation.count, me))
    {
      hide Sound;
      var key := Key(generation.count, me);
      if cacheKey != Some(key) {
        NothingCached(hash, Now());
        cacheKey, cache := Some(key), NOTHING;
      }
    }

    /** Stores a derivation under the current key. */
    method Store(d: Derived)
      requires Valid() && cacheKey == Some(Key(generation.count, me)) && Sound(hash, Now(), d)
      modifies this`cache
      ensures Valid() && cache == d
    {
      hide Sound;
      cache := d;
    }

    method Size() returns (n: int)
      requires Valid()
      modifies this`cacheKey, this`cache
      ensures Valid() && n == ClusterSize(table)
    {
      hide Valid;
      hide Sound;
      hide ClusterSize;
      Roll();
      CachedSize(hash, Now(), cache);
      if cache.size.Some? {
        return cache.size.value;
      }
      var t := Snapshot();
      n := ComputeClusterSize(t);
      Store(cache.(size := Some(n)));
    }

    method AgreeingNames() returns (names: seq<string>)
      requires Valid()
      modifies this`cacheKey, this`cache
      ensures Valid() && names == Names(Now())
    {
      hide Valid;
      hide Sound;
      hide AgreeingPeers;
      hide NamesOf;
      Roll();
      CachedNames(hash, Now(), cache);
      if cache.names.Some? {
        return cache.names.value;
      }
      var t := Snapshot();
      var agreeing := ComputeAgreeingPeers(me, t);
      names := ComputeNames(agreeing);
      Store(cache.(names := Some(names)));
    }

    method EligibleCandidates() returns (names: seq<string>)
      requires Valid()
      modifies this`cacheKey, this`cache
      ensures Valid() && names == Eligible(Now())
    {
      hide Valid;
      hide Sound;
      hide Eligible;
      Roll();
      CachedEligible(hash, Now(), cache);
      if cache.eligible.Some? {
        return cache.eligible.value;
      }
      var t := Snapshot();
      names := ComputeEligible(Candidates.View(me, t));
      Store(cache.(eligible := Some(names)));
    }

    method UnconfirmedContenders() returns (names: seq<string>)
      requires Valid()
      modifies this`cacheKey, this`cache
      ensures Valid() && names == Ascend(Unconfirmed(Now()))
    {
      hide Valid;
      hide Sound;
      hide Unconfirmed;
      hide Ascend;
      Roll();
      CachedUnconfirmed(hash, Now(), cache);
      if cache.unconfirmed.Some? {
        return cache.unconfirmed.value;
      }
      var t := Snapshot();
      names := ComputeUnconfirmed(Candidates.View(me, t));
      Store(cache.(unconfirmed := Some(names)));
    }

    method Leader() returns (leader: Option<string>)
      requires Valid()
      modifies this`cacheKey, this`cache
      ensures Valid() && leader == LeaderName(Now())
    {
      hide Valid;
      hide Sound;
      hide LeaderName;
      Roll();
      CachedLeader(hash, Now(), cache);
      if cache.leader.Some? {
        return cache.leader.value;
      }
      var t := Snapshot();
      leader := ComputeLeader(Candidates.View(me, t));
      Store(cache.(leader := Some(leader)));
    }

    /** Built from the other memoised derivations, then cached itself. */
    method SpreadOwnerSet() returns (s: Spread)
      requires Valid()
      modifies this`cacheKey, this`cache
      ensures Valid() && SoundSpread(hash, Now(), s) && Sound(hash, Now(), cache)
      ensures cacheKey == Some(Key(generation.count, me))
    {
      hide Valid;
      hide Sound;
      hide SoundSpread;
      hide Eligible;
      hide Unconfirmed;
      hide ClusterSize;
      hide Names;
      hide Ascend;
      Roll();
      if cache.spread.Some? {
        s := cache.spread.value;
        CachedSpread(hash, Now(), cache, s);
        return;
      }
      var names := AgreeingNames();
      var size := Size();
      var eligible := EligibleCandidates();
      var unconfirmed := UnconfirmedContenders();
      s := Spread(1 + |names| >= QuorumSize(size), [me.name] + eligible + unconfirmed, map[]);
      FreshSpread(hash, Now());
      Roll();
      CachedSpread(hash, Now(), cache, s);
      Store(cache.(spread := Some(s)));
    }

    /** The owner of a job: none below quorum, else the maximum by (score, name) over the members. */
    method JobOwner(job: string) returns (owner: Option<string>)
      requires Valid()
      modifies this`cacheKey, this`cache
      ensures Valid()
      ensures owner.None? <==> !Quorate(Now())
      ensures owner.Some? ==> IsOwner(hash, job, AsSet(SpreadMembers(Now())), owner.value)
    {
      hide Sound;
      hide Quorate;
      hide SpreadMembers;
      hide AsSet;
      hide IsOwner;
      var s := SpreadOwnerSet();
      if !s.quorate {
        return None;
      }
      if job in s.owners {
        return Some(s.owners[job]);
      }
      MembersNonEmpty(Now());
      var best := HrwOwner(hash, job, s.members);
      if |s.owners| < MAX_MEMOIZED_JOB_OWNERS {
        OwnerFilled(hash, Now(), s, job, best);
        CachedSpread(hash, Now(), cache, s.(owners := s.owners[job := best]));
        Store(cache.(spread := Some(s.(owners := s.owners[job := best]))));
      }
      return Some(best);
    }

    /** The latch never changes an answer. */
    method ViewSettled() returns (settled: bool)
      requires Valid()
      modifies this`latched
      ensures Valid() && settled == Settled(Now(), pollRounds)
    {
      hide Sound;
      if latched {
        return true;
      }
      var t := Snapshot();
      for i := 0 to |t|
        invariant forall k :: 0 <= k < i ==> !t[k].status.Unknown?
      {
        if t[i].status.Unknown? {
          return false;
        }
      }
      if pollRounds >= SETTLE_ROUNDS {
        latched := true;
        return true;
      }
      for i := 0 to |t|
        invariant forall k :: 0 <= k < i && t[k].status.Agreed? && t[k].reportsMembers ==> Attested(t[k], me.instance)
      {
        if t[i].status.Agreed? && t[i].reportsMembers && !Attested(t[i], me.instance) {
          return false;
        }
      }
      return true;
    }
  }

  lemma KnownAfterSuccess(p: Peer, o: Observation, me: Node, myId: string, driftAfter: int)
    ensures !Succeeded(p, o, me, myId, driftAfter).status.Unknown?
  {}

  lemma MembersNonEmpty(v: View)
    ensures SpreadMembers(v) != []
  {}
}
