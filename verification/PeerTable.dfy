/**
 One node's table of peers: what it last observed of each configured address,
 and the counts the quorum gate derives from it.
 */
module PeerTable {
  import opened Options
  import opened Collections

  datatype Status = Unknown | Self | Agreed | Syncing | Drifted | Unreachable | Untrusted | Conflict

  /** One line of a peer's reported view: a name, its process instance, and whether the peer sees it agreeing. */
  datatype Member = Member(name: string, instance: string, agreed: bool)

  /** The election-relevant part of the last observation of one configured address. */
  datatype Peer = Peer(
    status: Status,
    jobSetId: Option<string>,
    nodeName: Option<string>,
    instanceId: Option<string>,
    selfConfirmed: bool,
    mismatchStreak: nat,
    failedRounds: nat,
    members: Option<seq<Member>>,
    reportsMembers: bool,
    declaredSize: Option<int>,
    declaredDistribution: Option<string>,
    declaredElectLeader: Option<bool>,
    ranRebootJobs: Option<set<string>>,
    mutualAgreeing: Option<set<string>>,
    quorateVouched: Option<set<string>>)

  /** This node's own identity and declared policy. */
  datatype Node = Node(name: string, instance: string, distribution: string, electLeader: bool)

  // ----- cluster size -----

  function SelfListed(t: seq<Peer>): nat {
    if t == [] then 0
    else SelfListed(t[..|t| - 1]) + if t[|t| - 1].status.Self? then 1 else 0
  }

  /** The distinct process instances behind the entries that are not this node. */
  function Instances(t: seq<Peer>): set<string> {
    if t == [] then {}
    else
      var p := t[|t| - 1];
      Instances(t[..|t| - 1]) + if !p.status.Self? && p.instanceId.Some? then {p.instanceId.value} else {}
  }

  function Duplicates(t: seq<Peer>): nat {
    if t == [] then 0
    else
      var p := t[|t| - 1];
      Duplicates(t[..|t| - 1])
      + if !p.status.Self? && p.instanceId.Some? && p.instanceId.value in Instances(t[..|t| - 1]) then 1 else 0
  }

  /** Entries that are not this node and whose instance is not known yet. */
  function Anonymous(t: seq<Peer>): nat {
    if t == [] then 0
    else
      var p := t[|t| - 1];
      Anonymous(t[..|t| - 1]) + if !p.status.Self? && p.instanceId.None? then 1 else 0
  }

  /** Total cluster members: addresses plus this node, less self-listings and repeated instances. */
  function ClusterSize(t: seq<Peer>): int {
    |t| + 1 - SelfListed(t) - Duplicates(t)
  }

  /** The size is this node plus the distinct processes it lists. */
  lemma {:induction false} SizeCountsProcesses(t: seq<Peer>)
    ensures ClusterSize(t) == 1 + |Instances(t)| + Anonymous(t)
  {
    if t != [] {
      var rest, p := t[..|t| - 1], t[|t| - 1];
      SizeCountsProcesses(rest);
      if !p.status.Self? && p.instanceId.Some? {
        var id := p.instanceId.value;
        assert id in Instances(rest) ==> Instances(t) == Instances(rest);
        assert id !in Instances(rest) ==> |Instances(rest) + {id}| == |Instances(rest)| + 1;
      }
    }
  }

  lemma TakeStep(t: seq<Peer>, i: nat)
    requires i < |t|
    ensures t[..i + 1][..i] == t[..i] && t[..i + 1][i] == t[i]
  {}

  method ComputeSelfListed(t: seq<Peer>) returns (n: nat)
    ensures n == SelfListed(t)
  {
    n := 0;
    for i := 0 to |t|
      invariant n == SelfListed(t[..i])
    {
      TakeStep(t, i);
      if t[i].status.Self? {
        n := n + 1;
      }
    }
    assert t[..|t|] == t;
  }

  method ComputeClusterSize(t: seq<Peer>) returns (n: int)
    ensures n == ClusterSize(t)
  {
    var selfListed := ComputeSelfListed(t);
    var seen: set<string>, duplicates := {}, 0;
    for i := 0 to |t|
      invariant seen == Instances(t[..i]) && duplicates == Duplicates(t[..i])
    {
      TakeStep(t, i);
      if t[i].status.Self? || t[i].instanceId.None? {
        continue;
      }
      if t[i].instanceId.value in seen {
        duplicates := duplicates + 1;
      } else {
        seen := seen + {t[i].instanceId.value};
      }
    }
    assert t[..|t|] == t;
    n := |t| + 1 - selfListed - duplicates;
  }

  // ----- mutual agreement -----

  /** A declared coordination value that is not ours; an absent one never diverges. */
  predicate Diverges<T(==)>(declared: Option<T>, ours: T) {
    declared.Some? && declared.value != ours
  }

  predicate SeesAgreed(members: Option<seq<Member>>, instance: string) {
    members.Some? && exists i :: 0 <= i < |members.value| && members.value[i].agreed
                                 && members.value[i].instance == instance
  }

  /** Both directions confirmed, and no divergent declaration. */
  predicate Counted(me: Node, size: int, p: Peer) {
    && p.status.Agreed?
    && p.nodeName.Some?
    && (SeesAgreed(p.members, me.instance) || !p.reportsMembers)
    && !Diverges(p.declaredSize, size)
    && !Diverges(p.declaredDistribution, me.distribution)
    && !Diverges(p.declaredElectLeader, me.electLeader)
  }

  function CountedInstances(me: Node, size: int, t: seq<Peer>): set<string> {
    if t == [] then {}
    else
      var p := t[|t| - 1];
      CountedInstances(me, size, t[..|t| - 1])
      + if Counted(me, size, p) && p.instanceId.Some? then {p.instanceId.value} else {}
  }

  function AgreeingIn(me: Node, size: int, t: seq<Peer>): seq<Peer> {
    if t == [] then []
    else
      var rest, p := t[..|t| - 1], t[|t| - 1];
      if Counted(me, size, p) && (p.instanceId.None? || p.instanceId.value !in CountedInstances(me, size, rest))
      then AgreeingIn(me, size, rest) + [p]
      else AgreeingIn(me, size, rest)
  }

  /** The peers this node mutually agrees with, one per process. */
  function AgreeingPeers(me: Node, t: seq<Peer>): seq<Peer> {
    AgreeingIn(me, ClusterSize(t), t)
  }

  function NamesOf(peers: seq<Peer>): seq<string> {
    if peers == [] then []
    else
      var p := peers[|peers| - 1];
      NamesOf(peers[..|peers| - 1])
      + if p.nodeName.Some? && p.nodeName.value != "" then [p.nodeName.value] else []
  }

  /** The gossiped `mutual_agreeing` names. */
  function AgreeingNames(me: Node, t: seq<Peer>): seq<string> {
    NamesOf(AgreeingPeers(me, t))
  }

  method ComputeSeesAgreed(members: Option<seq<Member>>, instance: string) returns (b: bool)
    ensures b == SeesAgreed(members, instance)
  {
    if members.None? {
      return false;
    }
    for i := 0 to |members.value|
      invariant forall j :: 0 <= j < i ==> !(members.value[j].agreed && members.value[j].instance == instance)
    {
      if members.value[i].agreed && members.value[i].instance == instance {
        return true;
      }
    }
    return false;
  }

  method ComputeAgreeingPeers(me: Node, t: seq<Peer>) returns (agreeing: seq<Peer>)
    ensures agreeing == AgreeingPeers(me, t)
  {
    var size := ComputeClusterSize(t);
    agreeing := [];
    var seen: set<string> := {};
    for i := 0 to |t|
      invariant agreeing == AgreeingIn(me, size, t[..i]) && seen == CountedInstances(me, size, t[..i])
    {
      TakeStep(t, i);
      var p := t[i];
      var sees := ComputeSeesAgreed(p.members, me.instance);
      if !(&& p.status.Agreed? && p.nodeName.Some? && (sees || !p.reportsMembers)
           && !Diverges(p.declaredSize, size) && !Diverges(p.declaredDistribution, me.distribution)
           && !Diverges(p.declaredElectLeader, me.electLeader)) {
        continue;
      }
      if p.instanceId.Some? {
        if p.instanceId.value in seen {
          continue;
        }
        seen := seen + {p.instanceId.value};
      }
      agreeing := agreeing + [p];
    }
    assert t[..|t|] == t;
  }

  // ----- the live set never outgrows the cluster -----

  function CountedAnonymous(me: Node, size: int, t: seq<Peer>): nat {
    if t == [] then 0
    else
      var p := t[|t| - 1];
      CountedAnonymous(me, size, t[..|t| - 1]) + if Counted(me, size, p) && p.instanceId.None? then 1 else 0
  }

  lemma {:induction false} AgreeingCountsProcesses(me: Node, size: int, t: seq<Peer>)
    ensures |AgreeingIn(me, size, t)| == |CountedInstances(me, size, t)| + CountedAnonymous(me, size, t)
    ensures CountedInstances(me, size, t) <= Instances(t)
    ensures CountedAnonymous(me, size, t) <= Anonymous(t)
  {
    if t != [] {
      AgreeingCountsProcesses(me, size, t[..|t| - 1]);
    }
  }

  /** For every table, self-listed and multi-homed entries included, the live set fits the cluster. */
  lemma LiveFitsCluster(me: Node, t: seq<Peer>)
    ensures 1 + |AgreeingPeers(me, t)| <= ClusterSize(t)
    ensures 1 + |AgreeingNames(me, t)| <= ClusterSize(t)
  {
    AgreeingCountsProcesses(me, ClusterSize(t), t);
    SubsetCount(CountedInstances(me, ClusterSize(t), t), Instances(t));
    SizeCountsProcesses(t);
    NamesFit(AgreeingPeers(me, t));
  }

  lemma {:induction false} NamesFit(peers: seq<Peer>)
    ensures |NamesOf(peers)| <= |peers|
  {
    if peers != [] {
      NamesFit(peers[..|peers| - 1]);
    }
  }

  lemma {:induction false} InNamesOf(peers: seq<Peer>, n: string)
    ensures n in NamesOf(peers) <==> n != "" && exists p :: p in peers && p.nodeName == Some(n)
  {
    if peers != [] {
      var rest, p := peers[..|peers| - 1], peers[|peers| - 1];
      InNamesOf(rest, n);
      assert forall q :: q in peers <==> q in rest || q == p;
    }
  }

  // ----- who is counted, and what the size counts -----

  /**
   A peer is counted only when it reads AGREED, is named, lists this very process
   as agreed (or comes from a build that lists nobody), and declares no other
   size, distribution or election than ours.
   */
  lemma {:induction false} OnlyConfirmed(me: Node, size: int, t: seq<Peer>, p: Peer)
    requires p in AgreeingIn(me, size, t)
    ensures p in t && p.status == Agreed && p.nodeName.Some?
    ensures p.reportsMembers ==>
              && p.members.Some?
              && exists i :: 0 <= i < |p.members.value| && p.members.value[i].agreed
                             && p.members.value[i].instance == me.instance
    ensures p.declaredSize.None? || p.declaredSize.value == size
    ensures p.declaredDistribution.None? || p.declaredDistribution.value == me.distribution
    ensures p.declaredElectLeader.None? || p.declaredElectLeader.value == me.electLeader
  {
    var rest := t[..|t| - 1];
    if p in AgreeingIn(me, size, rest) {
      OnlyConfirmed(me, size, rest, p);
    }
  }

  /** Every entry that meets all of that is counted, itself or as an earlier entry of its process. */
  lemma {:induction false} AllConfirmed(me: Node, size: int, t: seq<Peer>, p: Peer)
    requires p in t && p.status == Agreed && p.nodeName.Some?
    requires !p.reportsMembers
             || (p.members.Some?
                 && exists i :: 0 <= i < |p.members.value| && p.members.value[i].agreed
                                && p.members.value[i].instance == me.instance)
    requires p.declaredSize.None? || p.declaredSize.value == size
    requires p.declaredDistribution.None? || p.declaredDistribution.value == me.distribution
    requires p.declaredElectLeader.None? || p.declaredElectLeader.value == me.electLeader
    ensures p in AgreeingIn(me, size, t)
            || (p.instanceId.Some? && exists q :: q in AgreeingIn(me, size, t) && q.instanceId == p.instanceId)
  {
    var rest, last := t[..|t| - 1], t[|t| - 1];
    if p in rest {
      AllConfirmed(me, size, rest, p);
    } else {
      assert p == last;
      if p.instanceId.Some? && p.instanceId.value in CountedInstances(me, size, rest) {
        InstanceCounted(me, size, rest, p.instanceId.value);
      }
    }
  }

  lemma {:induction false} InstanceCounted(me: Node, size: int, t: seq<Peer>, id: string)
    requires id in CountedInstances(me, size, t)
    ensures exists q :: q in AgreeingIn(me, size, t) && q.instanceId == Some(id)
  {
    var rest, p := t[..|t| - 1], t[|t| - 1];
    if id in CountedInstances(me, size, rest) {
      InstanceCounted(me, size, rest, id);
      var q :| q in AgreeingIn(me, size, rest) && q.instanceId == Some(id);
      assert q in AgreeingIn(me, size, t);
    } else {
      assert p in AgreeingIn(me, size, t);
    }
  }

  /** No process is counted twice. */
  lemma {:induction false} OncePerProcess(me: Node, size: int, t: seq<Peer>)
    ensures forall a, b :: 0 <= a < b < |AgreeingIn(me, size, t)| ==>
              var p, q := AgreeingIn(me, size, t)[a], AgreeingIn(me, size, t)[b];
              p.instanceId.None? || p.instanceId != q.instanceId
    ensures forall p :: p in AgreeingIn(me, size, t) && p.instanceId.Some? ==>
              p.instanceId.value in CountedInstances(me, size, t)
  {
    if t != [] {
      OncePerProcess(me, size, t[..|t| - 1]);
      var rest := AgreeingIn(me, size, t[..|t| - 1]);
      assert forall a :: 0 <= a < |rest| ==> rest[a] in rest;
    }
  }

  /** The size is this node, the processes seen behind other addresses, and the addresses not identified yet. */
  lemma SizeIs(t: seq<Peer>)
    ensures ClusterSize(t)
         == 1 + |set i | 0 <= i < |t| && t[i].status != Self && t[i].instanceId.Some? :: t[i].instanceId.value|
            + |set i | 0 <= i < |t| && t[i].status != Self && t[i].instanceId.None?|
  {
    SizeCountsProcesses(t);
    InstancesAre(t);
    AnonymousAre(t);
    assert Unidentified(t) == set i | 0 <= i < |t| && t[i].status != Self && t[i].instanceId.None?;
  }

  lemma {:induction false} InstancesAre(t: seq<Peer>)
    ensures Instances(t)
         == set i | 0 <= i < |t| && t[i].status != Self && t[i].instanceId.Some? :: t[i].instanceId.value
  {
    if t != [] {
      var rest := t[..|t| - 1];
      InstancesAre(rest);
      assert forall i :: 0 <= i < |rest| ==> rest[i] == t[i];
    }
  }

  ghost function Unidentified(t: seq<Peer>): set<int> {
    set i | 0 <= i < |t| && t[i].status != Self && t[i].instanceId.None?
  }

  lemma OneMoreAddress(t: seq<Peer>)
    requires t != []
    ensures var n := |t| - 1;
            Unidentified(t) == Unidentified(t[..n]) + if t[n].status != Self && t[n].instanceId.None? then {n} else {}
    ensures |t| - 1 !in Unidentified(t[..|t| - 1])
  {
    var rest := t[..|t| - 1];
    assert forall i :: 0 <= i < |rest| ==> rest[i] == t[i];
  }

  lemma {:induction false} AnonymousAre(t: seq<Peer>)
    ensures Anonymous(t) == |Unidentified(t)|
  {
    if t != [] {
      AnonymousAre(t[..|t| - 1]);
      OneMoreAddress(t);
      hide Unidentified;
    }
  }
}
