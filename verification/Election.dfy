/**
 The election across nodes. Each node decides alone, from its own table; in a
 converged view the local decisions fit together: every quorate node weighs
 exactly the quorate nodes, so each job has one owner.
 */
module Election {
  import opened Options
  import opened Collections
  import opened Ordering
  import opened PeerTable
  import opened Candidates
  import opened Rendezvous

  /** The names a node mutually agrees with. */
  ghost function Agrees(v: View): set<string> {
    set n | n in Names(v)
  }

  ghost function EligibleSet(v: View): set<string> {
    set n | n in Eligible(v)
  }

  /** Peer entry `p` of node `i` is an up-to-date observation of node `j`, which agrees back. */
  ghost predicate Gossips(c: seq<View>, i: int, j: int, p: Peer)
    requires 0 <= i < |c|
  {
    && 0 <= j < |c| && j != i
    && p.nodeName == Some(c[j].me.name)
    && p.instanceId == Some(c[j].me.instance)
    && p.mutualAgreeing == Some(Agrees(c[j]))
    && p.quorateVouched == Some(EligibleSet(c[j]))
    && c[i].me.name in Agrees(c[j])
  }

  ghost predicate UniqueNodes(c: seq<View>) {
    && (forall i :: 0 <= i < |c| ==> c[i].me.name != "")
    && forall i, j :: 0 <= i < j < |c| ==> c[i].me.name != c[j].me.name && c[i].me.instance != c[j].me.instance
  }

  ghost predicate Observed(c: seq<View>, i: int)
    requires 0 <= i < |c|
  {
    forall p :: p in Agreeing(c[i]) ==> exists j :: Gossips(c, i, j, p)
  }

  /**
   One shared size, unique names and instances, symmetric mutual agreement,
   gossip equal to what its sender derives, candidates under the cap.
   */
  ghost predicate Converged(c: seq<View>, n: int) {
    && |c| <= n
    && UniqueNodes(c)
    && (forall i :: 0 <= i < |c| ==> ClusterSize(c[i].table) == n)
    && (forall i :: 0 <= i < |c| ==> Observed(c, i))
    && (forall i :: 0 <= i < |c| ==> |BridgeNames(c[i])| <= CANDIDATE_CAP)
  }

  // ----- what convergence gives -----

  /** The entry behind an agreed name, and the node it observes. */
  lemma Neighbor(c: seq<View>, n: int, i: int, z: string) returns (j: int, p: Peer)
    requires Converged(c, n) && 0 <= i < |c| && z in Agrees(c[i])
    ensures p in Agreeing(c[i]) && Gossips(c, i, j, p) && 0 <= j < |c| && c[j].me.name == z
  {
    hide AgreeingIn;
    hide Gossips;
    hide BridgeNames;
    hide ClusterSize;
    InNamesOf(Agreeing(c[i]), z);
    p :| p in Agreeing(c[i]) && p.nodeName == Some(z);
    assert Observed(c, i);
    j :| Gossips(c, i, j, p);
    GossipName(c, i, j, p);
  }

  lemma GossipName(c: seq<View>, i: int, j: int, p: Peer)
    requires 0 <= i < |c| && Gossips(c, i, j, p)
    ensures 0 <= j < |c| && p.nodeName == Some(c[j].me.name)
  {}

  /** Every agreeing entry's name is an agreed name. */
  lemma AgreedName(c: seq<View>, n: int, i: int, j: int, p: Peer)
    requires Converged(c, n) && 0 <= i < |c| && p in Agreeing(c[i]) && Gossips(c, i, j, p)
    ensures c[j].me.name in Agrees(c[i])
  {
    hide AgreeingIn;
    hide BridgeNames;
    hide ClusterSize;
    InNamesOf(Agreeing(c[i]), c[j].me.name);
  }

  lemma SameNode(c: seq<View>, i: int, j: int)
    requires UniqueNodes(c) && 0 <= i < |c| && 0 <= j < |c|
    requires c[i].me.name == c[j].me.name || c[i].me.instance == c[j].me.instance
    ensures i == j
  {}

  lemma AgreementIsSymmetric(c: seq<View>, n: int, i: int, j: int)
    requires Converged(c, n) && 0 <= i < |c| && 0 <= j < |c| && c[j].me.name in Agrees(c[i])
    ensures c[i].me.name in Agrees(c[j]) && i != j
  {
    hide AgreeingIn;
    hide BridgeNames;
    hide ClusterSize;
    hide Agrees;
    var k, p := Neighbor(c, n, i, c[j].me.name);
    SameNode(c, k, j);
  }

  // ----- lists without repeats -----

  lemma {:induction false} DistinctCount(s: seq<string>)
    requires forall a, b :: 0 <= a < b < |s| ==> s[a] != s[b]
    ensures |set n | n in s| == |s|
  {
    if s != [] {
      var rest, x := s[..|s| - 1], s[|s| - 1];
      DistinctCount(rest);
      assert (set n | n in s) == (set n | n in rest) + {x};
    }
  }

  /** Names of entries that are pairwise different observations are pairwise different. */
  lemma {:induction false} NamesDistinct(peers: seq<Peer>)
    requires forall a, b :: 0 <= a < b < |peers| ==> peers[a].nodeName.None? || peers[a].nodeName != peers[b].nodeName
    ensures forall a, b :: 0 <= a < b < |NamesOf(peers)| ==> NamesOf(peers)[a] != NamesOf(peers)[b]
  {
    if peers != [] {
      var rest, p := peers[..|peers| - 1], peers[|peers| - 1];
      NamesDistinct(rest);
      assert forall a :: 0 <= a < |NamesOf(rest)| ==> NamesOf(rest)[a] in NamesOf(rest);
      forall m | m in NamesOf(rest) && p.nodeName.Some? ensures m != p.nodeName.value {
        InNamesOf(rest, m);
        var q :| q in rest && q.nodeName == Some(m);
        var a :| 0 <= a < |rest| && rest[a] == q;
        assert peers[a] == q;
      }
    }
  }

  /** Two entries with one name are one node, hence one instance. */
  lemma EntriesDiffer(c: seq<View>, n: int, i: int, p: Peer, q: Peer)
    requires Converged(c, n) && 0 <= i < |c| && p in Agreeing(c[i]) && q in Agreeing(c[i])
    ensures p.instanceId.Some? && p.nodeName.Some? && (p.nodeName == q.nodeName ==> p.instanceId == q.instanceId)
  {
    hide Agreeing;
    hide Agrees;
    hide EligibleSet;
    hide BridgeNames;
    hide ClusterSize;
    assert Observed(c, i);
    var j :| Gossips(c, i, j, p);
    var k :| Gossips(c, i, k, q);
    if p.nodeName == q.nodeName {
      SameNode(c, j, k);
    }
  }

  /** In a converged view the live list has no repeats, so counting it is counting nodes. */
  lemma LiveCount(c: seq<View>, n: int, i: int)
    requires Converged(c, n) && 0 <= i < |c|
    ensures |Names(c[i])| == |Agrees(c[i])|
  {
    hide AgreeingIn;
    hide NamesOf;
    hide Converged;
    var peers := Agreeing(c[i]);
    OncePerProcess(c[i].me, ClusterSize(c[i].table), c[i].table);
    forall a, b | 0 <= a < b < |peers| ensures peers[a].nodeName.None? || peers[a].nodeName != peers[b].nodeName {
      EntriesDiffer(c, n, i, peers[a], peers[b]);
    }
    NamesDistinct(peers);
    DistinctCount(Names(c[i]));
  }

  // ----- quorate names -----

  ghost function QuorateNames(c: seq<View>): set<string> {
    set i | 0 <= i < |c| && Quorate(c[i]) :: c[i].me.name
  }

  lemma QuorateByCount(c: seq<View>, n: int, i: int)
    requires Converged(c, n) && 0 <= i < |c|
    ensures Quorate(c[i]) <==> |Agrees(c[i])| + 1 >= QuorumSize(n)
  {
    hide Names;
    hide Agrees;
    hide BridgeNames;
    hide ClusterSize;
    LiveCount(c, n, i);
  }

  /** A quorate neighbour is eligible. */
  lemma QuorateNeighborIsEligible(c: seq<View>, n: int, i: int, j: int)
    requires Converged(c, n) && 0 <= i < |c| && 0 <= j < |c|
    requires c[j].me.name in Agrees(c[i]) && Quorate(c[j])
    ensures c[j].me.name in EligibleSet(c[i])
  {
    hide Agreeing;
    hide Agrees;
    hide BridgeNames;
    hide ClusterSize;
    hide Quorate;
    hide Capped;
    var k, p := Neighbor(c, n, i, c[j].me.name);
    SameNode(c, k, j);
    QuorateByCount(c, n, j);
    InDirectEligible(Agreeing(c[i]), Quorum(c[i]), c[j].me.name);
  }

  /** A directly eligible name is a quorate neighbour. */
  lemma DirectIsQuorate(c: seq<View>, n: int, i: int, z: string)
    requires Converged(c, n) && 0 <= i < |c| && z in DirectEligible(Agreeing(c[i]), Quorum(c[i]))
    ensures z in QuorateNames(c)
  {
    hide Agreeing;
    hide Agrees;
    hide BridgeNames;
    hide ClusterSize;
    hide Quorate;
    InDirectEligible(Agreeing(c[i]), Quorum(c[i]), z);
    var p :| p in Agreeing(c[i]) && p.nodeName == Some(z) && |Mutual(p)| + 1 >= Quorum(c[i]);
    assert Observed(c, i);
    var j :| Gossips(c, i, j, p);
    QuorateByCount(c, n, j);
  }

  /** A witness of `c[k]` at node `i` is a node that `c[k]` agrees with. */
  lemma WitnessAgrees(c: seq<View>, n: int, i: int, k: int, p: Peer)
    requires Converged(c, n) && 0 <= i < |c| && 0 <= k < |c|
    requires p in Agreeing(c[i]) && p.nodeName.Some? && c[k].me.name in Mutual(p)
    ensures p.nodeName.value in Agrees(c[k])
  {
    hide Agreeing;
    hide Agrees;
    hide BridgeNames;
    hide ClusterSize;
    assert Observed(c, i);
    var j :| Gossips(c, i, j, p);
    AgreementIsSymmetric(c, n, j, k);
  }

  lemma BridgeIsQuorate(c: seq<View>, n: int, i: int, z: string)
    requires Converged(c, n) && 0 <= i < |c| && z in BridgeNames(c[i])
    ensures z in QuorateNames(c)
  {
    hide Agreeing;
    hide Agrees;
    hide ClusterSize;
    hide Quorate;
    hide Direct;
    hide Mutual;
    var p :| p in Agreeing(c[i]) && z in Mutual(p);
    var k := BridgeNode(c, n, i, p, z);
    var w := Witnesses(Agreeing(c[i]), z);
    forall x | x in w ensures x in Agrees(c[k]) {
      var q :| q in Agreeing(c[i]) && q.nodeName.Some? && z in Mutual(q) && q.nodeName.value == x;
      WitnessAgrees(c, n, i, k, q);
    }
    SubsetCount(w, Agrees(c[k]));
    QuorateByCount(c, n, k);
  }

  lemma BridgeNode(c: seq<View>, n: int, i: int, p: Peer, z: string) returns (k: int)
    requires Converged(c, n) && 0 <= i < |c| && p in Agreeing(c[i]) && z in Mutual(p)
    ensures 0 <= k < |c| && c[k].me.name == z
  {
    hide Agreeing;
    hide Agrees;
    hide BridgeNames;
    hide ClusterSize;
    assert Observed(c, i);
    var j :| Gossips(c, i, j, p);
    var q;
    k, q := Neighbor(c, n, j, z);
  }

  /** A node elects or defers to quorate nodes only. */
  lemma EligibleIsQuorate(c: seq<View>, n: int, i: int, z: string)
    requires Converged(c, n) && 0 <= i < |c| && z in EligibleSet(c[i])
    ensures z in QuorateNames(c)
  {
    hide Agreeing;
    hide BridgeNames;
    hide ClusterSize;
    hide QuorateNames;
    hide Capped;
    hide Gossips;
    hide DirectEligible;
    if z in DirectEligible(Agreeing(c[i]), Quorum(c[i])) {
      DirectIsQuorate(c, n, i, z);
    } else {
      CappedWhole(BridgeNames(c[i]), z);
      BridgeIsQuorate(c, n, i, z);
    }
  }

  // ----- majority intersection -----

  lemma MajoritiesMeet(a: set<string>, b: set<string>, all: set<string>, n: int)
    requires a <= all && b <= all && |all| <= n
    requires |a| >= QuorumSize(n) && |b| >= QuorumSize(n)
    ensures a * b != {}
  {
    if a * b == {} {
      assert |a + b| == |a| + |b|;
      SubsetCount(a + b, all);
    }
  }

  ghost function AllNames(c: seq<View>): set<string> {
    set i | 0 <= i < |c| :: c[i].me.name
  }

  lemma {:induction false} AllNamesCount(c: seq<View>)
    ensures |AllNames(c)| <= |c|
  {
    if c != [] {
      var rest, v := c[..|c| - 1], c[|c| - 1];
      AllNamesCount(rest);
      assert AllNames(c) <= AllNames(rest) + {v.me.name} by {
        forall x | x in AllNames(c) ensures x in AllNames(rest) + {v.me.name} {
          var i :| 0 <= i < |c| && c[i].me.name == x;
          if i < |rest| {
            assert rest[i] == c[i];
          }
        }
      }
      SubsetCount(AllNames(c), AllNames(rest) + {v.me.name});
    }
  }

  lemma AgreesAreNames(c: seq<View>, n: int, i: int)
    requires Converged(c, n) && 0 <= i < |c|
    ensures Agrees(c[i]) <= AllNames(c) && c[i].me.name !in Agrees(c[i])
  {
    hide Agreeing;
    hide BridgeNames;
    hide ClusterSize;
    hide Agrees;
    forall z | z in Agrees(c[i]) ensures z in AllNames(c) && z != c[i].me.name {
      var j, p := Neighbor(c, n, i, z);
      if z == c[i].me.name {
        SameNode(c, i, j);
      }
    }
  }

  /** Two quorate nodes that do not agree share a node that agrees with both. */
  lemma SharedWitness(c: seq<View>, n: int, i: int, k: int) returns (j: int)
    requires Converged(c, n) && 0 <= i < |c| && 0 <= k < |c| && i != k
    requires Quorate(c[i]) && Quorate(c[k]) && c[k].me.name !in Agrees(c[i])
    ensures 0 <= j < |c| && c[j].me.name in Agrees(c[i]) && c[k].me.name in Agrees(c[j])
  {
    hide Agreeing;
    hide BridgeNames;
    hide ClusterSize;
    hide Agrees;
    hide Quorate;
    hide QuorumSize;
    hide Gossips;
    QuorateByCount(c, n, i);
    QuorateByCount(c, n, k);
    AgreesAreNames(c, n, i);
    AgreesAreNames(c, n, k);
    AllNamesCount(c);
    var a, b := Agrees(c[i]) + {c[i].me.name}, Agrees(c[k]) + {c[k].me.name};
    MajoritiesMeet(a, b, AllNames(c), n);
    var w :| w in a * b;
    if w == c[i].me.name {
      if w in Agrees(c[k]) {
        AgreementIsSymmetric(c, n, k, i);
      } else {
        SameNode(c, i, k);
      }
    }
    assert w in Agrees(c[i]) && w in Agrees(c[k]);
    var p;
    j, p := Neighbor(c, n, i, w);
    AgreementIsSymmetric(c, n, k, j);
  }

  // ----- spread mode -----

  /** A quorate node's owner set is exactly the set of quorate nodes. */
  lemma OwnerSetIsQuorate(c: seq<View>, n: int, i: int)
    requires Converged(c, n) && 0 <= i < |c| && Quorate(c[i])
    ensures AsSet(SpreadMembers(c[i])) == QuorateNames(c)
  {
    hide Agreeing;
    hide Agrees;
    hide Eligible;
    hide Unconfirmed;
    hide Converged;
    hide Ascend;
    forall z | z in SpreadMembers(c[i]) ensures z in QuorateNames(c) {
      MembersAreQuorate(c, n, i, z);
    }
    forall z | z in QuorateNames(c) ensures z in SpreadMembers(c[i]) {
      QuorateAreMembers(c, n, i, z);
    }
  }

  lemma MembersAreQuorate(c: seq<View>, n: int, i: int, z: string)
    requires Converged(c, n) && 0 <= i < |c| && Quorate(c[i]) && z in SpreadMembers(c[i])
    ensures z in QuorateNames(c)
  {
    hide Agreeing;
    hide Agrees;
    hide Eligible;
    hide ClusterSize;
    hide BridgeNames;
    hide Quorate;
    hide Ascend;
    if z != c[i].me.name {
      if z in Eligible(c[i]) {
        EligibleIsQuorate(c, n, i, z);
      } else {
        assert z in Unconfirmed(c[i]);
        var p :| p in Agreeing(c[i]) && z in Vouched(p);
        assert Observed(c, i);
        var j :| Gossips(c, i, j, p);
        EligibleIsQuorate(c, n, j, z);
      }
    }
  }

  lemma QuorateAreMembers(c: seq<View>, n: int, i: int, z: string)
    requires Converged(c, n) && 0 <= i < |c| && Quorate(c[i]) && z in QuorateNames(c)
    ensures z in SpreadMembers(c[i])
  {
    hide Agrees;
    hide Eligible;
    hide AgreeingIn;
    hide ClusterSize;
    hide BridgeNames;
    hide Quorate;
    hide Ascend;
    hide Ranked;
    var k :| 0 <= k < |c| && Quorate(c[k]) && c[k].me.name == z;
    if k != i {
      if z in Agrees(c[i]) {
        QuorateNeighborIsEligible(c, n, i, k);
      } else {
        var j := SharedWitness(c, n, i, k);
        QuorateNeighborIsEligible(c, n, j, k);
        VouchReaches(c, n, i, j, z);
      }
    }
  }

  /** What a neighbour vouches is either placed already or becomes a contender. */
  lemma VouchReaches(c: seq<View>, n: int, i: int, j: int, z: string)
    requires Converged(c, n) && 0 <= i < |c| && 0 <= j < |c|
    requires c[j].me.name in Agrees(c[i]) && z in EligibleSet(c[j]) && z in QuorateNames(c)
    requires z !in Agrees(c[i]) && z != c[i].me.name
    ensures z in SpreadMembers(c[i])
  {
    hide Eligible;
    hide AgreeingIn;
    hide ClusterSize;
    hide BridgeNames;
    hide Quorate;
    hide Ascend;
    hide Direct;
    hide Unconfirmed;
    hide Agrees;
    hide Observed;
    var h, p := Neighbor(c, n, i, c[j].me.name);
    SameNode(c, h, j);
    var k :| 0 <= k < |c| && c[k].me.name == z && Quorate(c[k]);
    assert z != "";
    Unplaced(c[i], z);
    assert p.quorateVouched == Some(EligibleSet(c[j]));
    if z !in Eligible(c[i]) {
      Contends(c[i], p, z);
      RankedHas(Unconfirmed(c[i]), z);
    }
  }

  lemma Unplaced(v: View, z: string)
    requires z !in Agrees(v) && z != v.me.name && z != ""
    ensures z !in Direct(v)
  {
    hide AgreeingIn;
    InNamesOf(Agreeing(v), z);
  }

  lemma VouchCounts(peers: seq<Peer>, placed: set<string>, p: Peer, z: string)
    requires p in peers && z in Vouched(p) && z != "" && z !in placed
    ensures z in VouchedOutside(peers, placed)
  {}

  /** A vouched name this node has not placed is a contender. */
  lemma Contends(v: View, p: Peer, z: string)
    requires p in Agreeing(v) && z in Vouched(p) && z != "" && z !in Direct(v) && z !in Eligible(v)
    ensures z in Unconfirmed(v)
  {
    hide Agreeing;
    hide Eligible;
    hide Direct;
    hide Vouched;
    hide VouchedOutside;
    VouchCounts(Agreeing(v), Direct(v) + (set n | n in Eligible(v)), p, z);
  }

  lemma RankedHas(names: set<string>, z: string)
    requires z in names
    ensures z in Ascend(names)
  {
    assert Ranked(Ascend(names), names);
  }

  /** Quorum-gated owner of a job as one node sees it. */
  ghost function JobOwner(hash: Digest, job: string, v: View): Option<string> {
    if !Quorate(v) then None
    else
      assert SpreadMembers(v)[0] in AsSet(SpreadMembers(v));
      Some(OwnerOf(hash, job, AsSet(SpreadMembers(v))))
  }

  ghost predicate OwnsItself(hash: Digest, job: string, v: View) {
    JobOwner(hash, job, v) == Some(v.me.name)
  }

  ghost predicate OnlyOwner(hash: Digest, job: string, c: seq<View>, k: int) {
    forall j :: 0 <= j < |c| && OwnsItself(hash, job, c[j]) ==> j == k
  }

  /** Once any node is quorate, exactly one node owns each job in its own eyes. */
  lemma OneOwnerPerJob(hash: Digest, job: string, c: seq<View>, n: int, i: int)
    requires Converged(c, n) && 0 <= i < |c| && Quorate(c[i])
    ensures exists k :: 0 <= k < |c| && OwnsItself(hash, job, c[k]) && OnlyOwner(hash, job, c, k)
  {
    hide Quorate;
    hide SpreadMembers;
    hide Converged;
    var q := QuorateNames(c);
    assert c[i].me.name in q;
    var owner := OwnerOf(hash, job, q);
    forall j | 0 <= j < |c| && Quorate(c[j]) ensures JobOwner(hash, job, c[j]) == Some(owner) {
      OwnerSetIsQuorate(c, n, j);
    }
    var k :| 0 <= k < |c| && Quorate(c[k]) && c[k].me.name == owner;
    assert OwnsItself(hash, job, c[k]);
    forall j | 0 <= j < |c| && OwnsItself(hash, job, c[j]) ensures j == k {
      ConvergedUnique(c, n);
      SameNode(c, j, k);
    }
  }

  lemma ConvergedUnique(c: seq<View>, n: int)
    requires Converged(c, n)
    ensures UniqueNodes(c)
  {
    hide BridgeNames;
    hide ClusterSize;
    hide Observed;
  }

  // ----- single-leader mode -----

  /** A leader anyone elects is a quorate node. */
  lemma LeaderIsQuorate(c: seq<View>, n: int, i: int)
    requires Converged(c, n) && 0 <= i < |c| && LeaderName(c[i]).Some?
    ensures LeaderName(c[i]).value in QuorateNames(c)
  {
    hide BridgeNames;
    hide ClusterSize;
    hide Eligible;
    hide Names;
    hide Observed;
    var low := LeaderName(c[i]).value;
    if low != c[i].me.name {
      assert low in EligibleSet(c[i]);
      EligibleIsQuorate(c, n, i, low);
    }
  }

  /** The lowest quorate name always elects itself. */
  lemma LowestElectsItself(c: seq<View>, n: int, i: int)
    requires Converged(c, n) && 0 <= i < |c| && IsLeast(c[i].me.name, QuorateNames(c)) && Quorate(c[i])
    ensures LeaderName(c[i]) == Some(c[i].me.name)
  {
    hide BridgeNames;
    hide ClusterSize;
    hide Eligible;
    hide Names;
    hide Observed;
    hide NameBelow;
    var names := {c[i].me.name} + set z | z in Eligible(c[i]);
    forall z | z in names ensures z in QuorateNames(c) {
      if z != c[i].me.name {
        assert z in EligibleSet(c[i]);
        EligibleIsQuorate(c, n, i, z);
      }
    }
    assert IsLeast(c[i].me.name, names);
    LeastUnique(c[i].me.name, LeastOf(names), names);
  }

  /** Two self-elected nodes do not agree with each other and share too few agreers to see one another. */
  lemma TwoLeadersAreThinlyBridged(c: seq<View>, n: int, i: int, k: int)
    requires Converged(c, n) && 0 <= i < |c| && 0 <= k < |c| && i != k
    requires LeaderName(c[i]) == Some(c[i].me.name) && LeaderName(c[k]) == Some(c[k].me.name)
    ensures c[k].me.name !in Agrees(c[i]) && c[i].me.name !in Agrees(c[k])
    ensures |Agrees(c[i]) * Agrees(c[k])| + 1 < QuorumSize(n)
  {
    hide Converged;
    hide LeaderName;
    hide Agrees;
    ConvergedUnique(c, n);
    NamesTotal(c[i].me.name, c[k].me.name);
    if c[i].me.name == c[k].me.name {
      SameNode(c, i, k);
    }
    if NameBelow(c[i].me.name, c[k].me.name) {
      HigherLeaderIsBlind(c, n, i, k);
      assert Agrees(c[i]) * Agrees(c[k]) == Agrees(c[k]) * Agrees(c[i]);
    } else {
      HigherLeaderIsBlind(c, n, k, i);
    }
  }

  lemma HigherLeaderIsBlind(c: seq<View>, n: int, i: int, k: int)
    requires Converged(c, n) && 0 <= i < |c| && 0 <= k < |c| && i != k
    requires LeaderName(c[i]).Some? && LeaderName(c[k]) == Some(c[k].me.name)
    requires NameBelow(c[i].me.name, c[k].me.name)
    ensures c[k].me.name !in Agrees(c[i]) && c[i].me.name !in Agrees(c[k])
    ensures |Agrees(c[k]) * Agrees(c[i])| + 1 < QuorumSize(n)
  {
    hide Agreeing;
    hide ClusterSize;
    hide Agrees;
    hide Eligible;
    hide Names;
    hide BridgeNames;
    hide Capped;
    hide NameBelow;
    hide Observed;
    var low := c[i].me.name;
    NamesTotal(low, c[k].me.name);
    assert Quorate(c[i]);
    assert low !in EligibleSet(c[k]);
    if low in Agrees(c[k]) {
      QuorateNeighborIsEligible(c, n, k, i);
    }
    if c[k].me.name in Agrees(c[i]) {
      AgreementIsSymmetric(c, n, i, k);
    }
    if |Agrees(c[k]) * Agrees(c[i])| + 1 >= QuorumSize(n) {
      ThickBridge(c, n, k, i);
    }
  }

  /** Enough shared agreers make a quorate stranger a bridge candidate. */
  lemma ThickBridge(c: seq<View>, n: int, k: int, i: int)
    requires Converged(c, n) && 0 <= i < |c| && 0 <= k < |c| && i != k && Quorate(c[i]) && Quorate(c[k])
    requires c[i].me.name !in Agrees(c[k]) && |Agrees(c[k]) * Agrees(c[i])| + 1 >= QuorumSize(n)
    ensures c[i].me.name in EligibleSet(c[k])
  {
    hide AgreeingIn;
    hide ClusterSize;
    hide Eligible;
    hide Quorate;
    hide Capped;
    hide Agrees;
    hide Mutual;
    var z, peers := c[i].me.name, Agreeing(c[k]);
    var shared := Agrees(c[k]) * Agrees(c[i]);
    forall w | w in shared ensures w in Witnesses(peers, z) {
      SharedIsWitness(c, n, k, i, w);
    }
    SubsetCount(shared, Witnesses(peers, z));
    NotDirect(c, n, k, i);
    var j := SharedWitness(c, n, k, i);
    SharedIsWitness(c, n, k, i, c[j].me.name) by { AgreementIsSymmetric(c, n, j, i); }
    var p :| p in peers && p.nodeName.Some? && z in Mutual(p);
    assert z in BridgeNames(c[k]);
    CappedWhole(BridgeNames(c[k]), z);
    InEligible(c[k], z);
  }

  lemma InEligible(v: View, z: string)
    requires z in Capped(BridgeNames(v))
    ensures z in EligibleSet(v)
  {}

  lemma NotDirect(c: seq<View>, n: int, k: int, i: int)
    requires Converged(c, n) && 0 <= i < |c| && 0 <= k < |c| && i != k && c[i].me.name !in Agrees(c[k])
    ensures c[i].me.name !in Direct(c[k]) && c[i].me.name != ""
  {
    hide AgreeingIn;
    hide ClusterSize;
    hide BridgeNames;
    hide Observed;
    InNamesOf(Agreeing(c[k]), c[i].me.name);
  }

  lemma SharedIsWitness(c: seq<View>, n: int, k: int, i: int, w: string)
    requires Converged(c, n) && 0 <= i < |c| && 0 <= k < |c|
    requires w in Agrees(c[k]) && w in Agrees(c[i])
    ensures w in Witnesses(Agreeing(c[k]), c[i].me.name)
  {
    hide AgreeingIn;
    hide ClusterSize;
    hide BridgeNames;
    hide Agrees;
    var j, p := Neighbor(c, n, k, w);
    var h, q := Neighbor(c, n, i, w);
    SameNode(c, j, h);
  }

  /** Node `k` can place node `i`: they agree, or enough nodes agree with both. */
  ghost predicate Bridged(c: seq<View>, n: int, k: int, i: int)
    requires 0 <= k < |c| && 0 <= i < |c|
  {
    c[i].me.name in Agrees(c[k]) || |Agrees(c[k]) * Agrees(c[i])| + 1 >= QuorumSize(n)
  }

  /** An eligible name belongs to a quorate node this one can place. */
  lemma EligibleIsBridged(c: seq<View>, n: int, k: int, z: string) returns (i: int)
    requires Converged(c, n) && 0 <= k < |c| && z in EligibleSet(c[k])
    ensures 0 <= i < |c| && c[i].me.name == z && Quorate(c[i]) && Bridged(c, n, k, i)
  {
    hide AgreeingIn;
    hide Agrees;
    hide BridgeNames;
    hide ClusterSize;
    hide Quorate;
    hide Capped;
    EligibleIsQuorate(c, n, k, z);
    i :| 0 <= i < |c| && Quorate(c[i]) && c[i].me.name == z;
    if z in DirectEligible(Agreeing(c[k]), Quorum(c[k])) {
      DirectAgrees(c, n, k, z);
    } else {
      CappedWhole(BridgeNames(c[k]), z);
      BridgeIsThick(c, n, k, i);
    }
  }

  lemma DirectAgrees(c: seq<View>, n: int, k: int, z: string)
    requires Converged(c, n) && 0 <= k < |c| && z in DirectEligible(Agreeing(c[k]), Quorum(c[k]))
    ensures z in Agrees(c[k])
  {
    hide AgreeingIn;
    hide BridgeNames;
    hide ClusterSize;
    InDirectEligible(Agreeing(c[k]), Quorum(c[k]), z);
    InNamesOf(Agreeing(c[k]), z);
  }

  lemma BridgeIsThick(c: seq<View>, n: int, k: int, i: int)
    requires Converged(c, n) && 0 <= k < |c| && 0 <= i < |c| && c[i].me.name in BridgeNames(c[k])
    ensures |Agrees(c[k]) * Agrees(c[i])| + 1 >= QuorumSize(n)
  {
    hide AgreeingIn;
    hide Agrees;
    hide ClusterSize;
    hide Mutual;
    var z := c[i].me.name;
    var w := Witnesses(Agreeing(c[k]), z);
    forall x | x in w ensures x in Agrees(c[k]) * Agrees(c[i]) {
      var q :| q in Agreeing(c[k]) && q.nodeName.Some? && z in Mutual(q) && q.nodeName.value == x;
      WitnessAgrees(c, n, k, i, q);
      WitnessSeen(c, n, k, q);
    }
    SubsetCount(w, Agrees(c[k]) * Agrees(c[i]));
  }

  lemma WitnessSeen(c: seq<View>, n: int, k: int, q: Peer)
    requires Converged(c, n) && 0 <= k < |c| && q in Agreeing(c[k]) && q.nodeName.Some?
    ensures q.nodeName.value in Agrees(c[k])
  {
    hide AgreeingIn;
    hide BridgeNames;
    hide ClusterSize;
    assert Observed(c, k);
    var j :| Gossips(c, k, j, q);
    AgreedName(c, n, k, j, q);
  }

  /** Exactly when a node elects itself: it is quorate, and can place no lower quorate node. */
  lemma SelfElectsIff(c: seq<View>, n: int, k: int)
    requires Converged(c, n) && 0 <= k < |c|
    ensures LeaderName(c[k]) == Some(c[k].me.name)
       <==> Quorate(c[k])
            && forall i :: 0 <= i < |c| && Quorate(c[i]) && NameBelow(c[i].me.name, c[k].me.name) ==>
                 !Bridged(c, n, k, i)
  {
    hide Converged;
    hide Agrees;
    hide NameBelow;
    LeaderNeedsQuorum(c[k]);
    if LeaderName(c[k]) == Some(c[k].me.name) {
      hide LeaderName;
      forall i | 0 <= i < |c| && Quorate(c[i]) && NameBelow(c[i].me.name, c[k].me.name) ensures !Bridged(c, n, k, i) {
        NamesTotal(c[i].me.name, c[k].me.name);
        LeaderNeedsQuorum(c[i]);
        HigherLeaderIsBlind(c, n, i, k);
      }
    } else if Quorate(c[k]) {
      var low := LeaderBelow(c[k]);
      var i := EligibleIsBridged(c, n, k, low);
    }
  }

  lemma LeaderNeedsQuorum(v: View)
    ensures LeaderName(v).Some? <==> Quorate(v)
  {
    hide ClusterSize;
    hide AgreeingIn;
    hide Eligible;
  }

  /** A quorate node that does not elect itself elects a lower eligible name. */
  lemma LeaderBelow(v: View) returns (low: string)
    requires Quorate(v) && LeaderName(v) != Some(v.me.name)
    ensures low in EligibleSet(v) && NameBelow(low, v.me.name)
  {
    hide ClusterSize;
    hide AgreeingIn;
    hide Eligible;
    hide NameBelow;
    low := LeaderName(v).value;
  }

  // ----- one leader -----

  ghost predicate ElectsItself(v: View) {
    LeaderName(v) == Some(v.me.name)
  }

  /** Node `k` can place a lower quorate node. */
  ghost predicate PlacesLower(c: seq<View>, n: int, k: int)
    requires 0 <= k < |c|
  {
    exists i :: 0 <= i < |c| && Quorate(c[i]) && NameBelow(c[i].me.name, c[k].me.name) && Bridged(c, n, k, i)
  }

  ghost predicate OnlyLeader(c: seq<View>, l: int) {
    && 0 <= l < |c| && ElectsItself(c[l])
    && forall k :: 0 <= k < |c| && ElectsItself(c[k]) ==> k == l
  }

  /** The lowest quorate node, which elects itself. */
  lemma LowestNode(c: seq<View>, n: int) returns (l: int)
    requires Converged(c, n) && exists i :: 0 <= i < |c| && Quorate(c[i])
    ensures 0 <= l < |c| && IsLeast(c[l].me.name, QuorateNames(c)) && ElectsItself(c[l])
  {
    hide Converged;
    hide Quorate;
    hide NameBelow;
    hide LeaderName;
    var i :| 0 <= i < |c| && Quorate(c[i]);
    assert c[i].me.name in QuorateNames(c);
    LeastExists(QuorateNames(c));
    var low :| IsLeast(low, QuorateNames(c));
    l :| 0 <= l < |c| && Quorate(c[l]) && c[l].me.name == low;
    LowestElectsItself(c, n, l);
  }

  /**
   Exactly one node elects itself if and only if some node is quorate and every
   quorate node but the lowest can place a lower quorate one.
   */
  lemma OneLeaderIff(c: seq<View>, n: int)
    requires Converged(c, n)
    ensures (exists l :: OnlyLeader(c, l))
       <==> && (exists i :: 0 <= i < |c| && Quorate(c[i]))
            && forall k :: 0 <= k < |c| && Quorate(c[k]) && !IsLeast(c[k].me.name, QuorateNames(c)) ==>
                 PlacesLower(c, n, k)
  {
    hide Converged;
    hide Quorate;
    hide NameBelow;
    hide LeaderName;
    hide IsLeast;
    hide QuorateNames;
    hide Bridged;
    ConvergedUnique(c, n);
    forall k | 0 <= k < |c| ensures ElectsItself(c[k]) <==> Quorate(c[k]) && !PlacesLower(c, n, k) {
      SelfElectsIff(c, n, k);
    }
    if exists i :: 0 <= i < |c| && Quorate(c[i]) {
      var low := LowestNode(c, n);
      forall k | 0 <= k < |c| && IsLeast(c[k].me.name, QuorateNames(c)) ensures k == low {
        LeastUnique(c[k].me.name, c[low].me.name, QuorateNames(c));
        SameNode(c, k, low);
      }
      if forall k :: 0 <= k < |c| && ElectsItself(c[k]) ==> k == low {
        assert OnlyLeader(c, low);
      }
    }
  }
}
