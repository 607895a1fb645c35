/**
 Whom a node may elect or defer to, derived from its own table and from what
 its agreeing peers gossip: the sets of names they mutually agree with and the
 names they vouch are quorate.
 */
module Candidates {
  import opened Options
  import opened Ordering
  import opened PeerTable

  /** Cap on the candidate names a node derives and re-advertises. */
  const CANDIDATE_CAP := 512

  datatype View = View(me: Node, table: seq<Peer>)

  /** The strict majority of a cluster. */
  function QuorumSize(clusterSize: int): int {
    clusterSize / 2 + 1
  }

  function Quorum(v: View): int {
    QuorumSize(ClusterSize(v.table))
  }

  function Agreeing(v: View): seq<Peer> {
    AgreeingPeers(v.me, v.table)
  }

  function Names(v: View): seq<string> {
    AgreeingNames(v.me, v.table)
  }

  function Mutual(p: Peer): set<string> {
    if p.mutualAgreeing.Some? then p.mutualAgreeing.value else {}
  }

  function Vouched(p: Peer): set<string> {
    if p.quorateVouched.Some? then p.quorateVouched.value else {}
  }

  /** This node sees a quorum, itself included. */
  predicate Quorate(v: View) {
    1 + |Names(v)| >= Quorum(v)
  }

  // ----- bridge candidates -----

  /** The agreeing peers that report a two-way edge to `z`. */
  ghost function Witnesses(peers: seq<Peer>, z: string): set<string> {
    set p | p in peers && p.nodeName.Some? && z in Mutual(p) :: p.nodeName.value
  }

  ghost function Direct(v: View): set<string> {
    {v.me.name} + set p | p in Agreeing(v) && p.nodeName.Some? && p.nodeName.value != "" :: p.nodeName.value
  }

  /** Names reached only transitively whose witnesses alone make a quorum with them. */
  ghost function BridgeNames(v: View): set<string> {
    set p, z | p in Agreeing(v) && z in Mutual(p) && z != "" && z !in Direct(v)
               && |Witnesses(Agreeing(v), z)| + 1 >= Quorum(v) :: z
  }

  ghost function Capped(names: set<string>): seq<string> {
    var all := Ascend(names);
    if |all| > CANDIDATE_CAP then all[..CANDIDATE_CAP] else all
  }

  // ----- eligible candidates -----

  /** Agreeing peers whose own gossip shows them at or above quorum. */
  function DirectEligible(peers: seq<Peer>, quorum: int): seq<string> {
    if peers == [] then []
    else
      var p := peers[|peers| - 1];
      DirectEligible(peers[..|peers| - 1], quorum)
      + if p.nodeName.Some? && p.nodeName.value != "" && |Mutual(p)| + 1 >= quorum then [p.nodeName.value] else []
  }

  ghost function Eligible(v: View): seq<string> {
    DirectEligible(Agreeing(v), Quorum(v)) + Capped(BridgeNames(v))
  }

  /** Vouched names outside `placed`, over a list of peers. */
  ghost function VouchedOutside(peers: seq<Peer>, placed: set<string>): set<string> {
    set p, z | p in peers && z in Vouched(p) && z != "" && z !in placed :: z
  }

  /** Names a peer vouches quorate that this node has not placed itself. */
  ghost function Unconfirmed(v: View): set<string> {
    VouchedOutside(Agreeing(v), Direct(v) + set n | n in Eligible(v))
  }

  /** Everyone this node weighs for a job in spread mode. */
  ghost function SpreadMembers(v: View): seq<string> {
    [v.me.name] + Eligible(v) + Ascend(Unconfirmed(v))
  }

  // ----- membership -----

  lemma {:induction false} InDirectEligible(peers: seq<Peer>, quorum: int, n: string)
    ensures n in DirectEligible(peers, quorum)
       <==> n != "" && exists p :: p in peers && p.nodeName == Some(n) && |Mutual(p)| + 1 >= quorum
  {
    if peers != [] {
      var rest, p := peers[..|peers| - 1], peers[|peers| - 1];
      InDirectEligible(rest, quorum, n);
      assert forall q :: q in peers <==> q in rest || q == p;
    }
  }

  lemma CappedWhole(names: set<string>, n: string)
    requires |names| <= CANDIDATE_CAP
    ensures n in Capped(names) <==> n in names
  {}

  // ----- as the manager computes them -----

  method ComputeNames(peers: seq<Peer>) returns (names: seq<string>)
    ensures names == NamesOf(peers)
  {
    names := [];
    for i := 0 to |peers|
      invariant names == NamesOf(peers[..i])
    {
      TakeStep(peers, i);
      if peers[i].nodeName.Some? && peers[i].nodeName.value != "" {
        names := names + [peers[i].nodeName.value];
      }
    }
    assert peers[..|peers|] == peers;
  }

  method ComputeDirect(v: View, agreeing: seq<Peer>) returns (direct: set<string>)
    requires agreeing == Agreeing(v)
    ensures direct == Direct(v)
  {
    direct := {v.me.name};
    for i := 0 to |agreeing|
      invariant direct == {v.me.name}
        + set p | p in agreeing[..i] && p.nodeName.Some? && p.nodeName.value != "" :: p.nodeName.value
    {
      assert forall q :: q in agreeing[..i + 1] <==> q in agreeing[..i] || q == agreeing[i];
      if agreeing[i].nodeName.Some? && agreeing[i].nodeName.value != "" {
        direct := direct + {agreeing[i].nodeName.value};
      }
    }
    assert agreeing[..|agreeing|] == agreeing;
  }

  function Seen(w: map<string, set<string>>, z: string): set<string> {
    if z in w then w[z] else {}
  }

  /** What the witness dictionary holds once the peers in `done` are tallied. */
  ghost predicate Tallied(done: seq<Peer>, direct: set<string>, w: map<string, set<string>>) {
    && (forall z :: z in w ==> w[z] != {})
    && forall z :: Seen(w, z) == if z != "" && z !in direct then Witnesses(done, z) else {}
  }

  lemma OneMoreWitness(done: seq<Peer>, p: Peer, z: string)
    requires p.nodeName.Some?
    ensures Witnesses(done + [p], z) == Witnesses(done, z) + if z in Mutual(p) then {p.nodeName.value} else {}
  {
    assert forall q :: q in done + [p] <==> q in done || q == p;
  }

  /** `r` is `w` with `teller` added for each of the names `added` outside `direct`. */
  ghost predicate Folded(w: map<string, set<string>>, r: map<string, set<string>>,
                         added: set<string>, direct: set<string>, teller: string)
  {
    && (forall z :: z in r ==> r[z] != {})
    && forall z :: Seen(r, z) == Seen(w, z) + if z in added && z != "" && z !in direct then {teller} else {}
  }

  /** One more witness of a name this node does not see itself. */
  function Told(r: map<string, set<string>>, name: string, direct: set<string>, teller: string)
      : map<string, set<string>>
  {
    if name != "" && name !in direct then r[name := Seen(r, name) + {teller}] else r
  }

  /** Folding one peer's gossiped edges into the tally. */
  method TallyPeer(p: Peer, direct: set<string>, w: map<string, set<string>>)
    returns (r: map<string, set<string>>)
    requires p.nodeName.Some? && forall z :: z in w ==> w[z] != {}
    ensures Folded(w, r, Mutual(p), direct, p.nodeName.value)
  {
    hide Folded;
    hide Told;
    hide Split;
    r := w;
    var left, teller := Mutual(p), p.nodeName.value;
    ghost var names, added: set<string> := left, {};
    hide Mutual;
    FoldNothing(w, direct, teller);
    SplitStart(names);
    while left != {}
      invariant Split(names, added, left) && Folded(w, r, added, direct, teller)
      decreases |left|
    {
      var name :| name in left;
      FoldStep(w, r, added, direct, teller, name);
      SplitStep(names, added, left, name);
      r, left, added := Told(r, name, direct, teller), left - {name}, added + {name};
    }
    SplitEnd(names, added);
  }

  /** The names of a walk over a set: those seen and those left. */
  ghost predicate Split(names: set<string>, seen: set<string>, left: set<string>) {
    names == seen + left
  }

  lemma SplitStart(names: set<string>)
    ensures Split(names, {}, names)
  {}

  lemma SplitStep(names: set<string>, seen: set<string>, left: set<string>, name: string)
    requires Split(names, seen, left) && name in left
    ensures Split(names, seen + {name}, left - {name}) && |left - {name}| < |left|
  {}

  lemma SplitEnd(names: set<string>, seen: set<string>)
    requires Split(names, seen, {})
    ensures seen == names
  {}

  lemma FoldNothing(w: map<string, set<string>>, direct: set<string>, teller: string)
    requires forall z :: z in w ==> w[z] != {}
    ensures Folded(w, w, {}, direct, teller)
  {}

  lemma FoldStep(w: map<string, set<string>>, r: map<string, set<string>>,
                 added: set<string>, direct: set<string>, teller: string, name: string)
    requires Folded(w, r, added, direct, teller)
    ensures Folded(w, Told(r, name, direct, teller), added + {name}, direct, teller)
  {
    var s := Told(r, name, direct, teller);
    forall z
      ensures Seen(s, z) == Seen(w, z) + if z in added + {name} && z != "" && z !in direct then {teller} else {}
    {
      assert Seen(r, z) == Seen(w, z) + if z in added && z != "" && z !in direct then {teller} else {};
    }
  }

  lemma TallyStep(done: seq<Peer>, p: Peer, direct: set<string>, w: map<string, set<string>>,
                  r: map<string, set<string>>)
    requires p.nodeName.Some? && Tallied(done, direct, w) && Folded(w, r, Mutual(p), direct, p.nodeName.value)
    ensures Tallied(done + [p], direct, r)
  {
    hide Witnesses;
    forall z ensures Seen(r, z) == if z != "" && z !in direct then Witnesses(done + [p], z) else {} {
      OneMoreWitness(done, p, z);
      assert Seen(w, z) == if z != "" && z !in direct then Witnesses(done, z) else {};
    }
  }

  lemma {:induction false} AgreeingAreCounted(me: Node, size: int, t: seq<Peer>, p: Peer)
    requires p in AgreeingIn(me, size, t)
    ensures Counted(me, size, p) && p in t
  {
    var rest := t[..|t| - 1];
    if p in AgreeingIn(me, size, rest) {
      AgreeingAreCounted(me, size, rest, p);
      assert p in t[..|t| - 1];
    }
  }

  /** Nodes reached only transitively that the witnesses confirm are quorate, lowest names first. */
  method ComputeBridgeCandidates(v: View) returns (out: seq<string>)
    ensures out == Capped(BridgeNames(v))
  {
    hide Witnesses;
    hide AgreeingIn;
    hide ClusterSize;
    hide Ranked;
    hide Ascend;
    hide Tallied;
    hide Folded;
    hide Mutual;
    var agreeing := ComputeAgreeingPeers(v.me, v.table);
    var direct := ComputeDirect(v, agreeing);
    var size := ComputeClusterSize(v.table);
    var quorum := QuorumSize(size);
    var witnesses: map<string, set<string>> := map[];
    NothingTallied(direct);
    for i := 0 to |agreeing|
      invariant Tallied(agreeing[..i], direct, witnesses)
    {
      AgreeingAreCounted(v.me, size, v.table, agreeing[i]);
      TalliedNonEmpty(agreeing[..i], direct, witnesses);
      var next := TallyPeer(agreeing[i], direct, witnesses);
      TallyStep(agreeing[..i], agreeing[i], direct, witnesses, next);
      witnesses := next;
      assert agreeing[..i + 1] == agreeing[..i] + [agreeing[i]];
    }
    assert agreeing[..|agreeing|] == agreeing;
    var confirmed := set z | z in witnesses && |witnesses[z]| + 1 >= quorum;
    BridgeFromTally(v, direct, witnesses, confirmed);
    var all := Sort(confirmed);
    RankedUnique(all, Ascend(confirmed), confirmed);
    out := if |all| > CANDIDATE_CAP then all[..CANDIDATE_CAP] else all;
  }

  lemma NothingTallied(direct: set<string>)
    ensures Tallied([], direct, map[])
  {}

  lemma TalliedNonEmpty(done: seq<Peer>, direct: set<string>, w: map<string, set<string>>)
    requires Tallied(done, direct, w)
    ensures forall z :: z in w ==> w[z] != {}
  {}

  lemma BridgeFromTally(v: View, direct: set<string>, w: map<string, set<string>>, confirmed: set<string>)
    requires direct == Direct(v) && Tallied(Agreeing(v), direct, w)
    requires confirmed == set z | z in w && |w[z]| + 1 >= Quorum(v)
    ensures confirmed == BridgeNames(v)
  {
    hide Direct;
    hide Agreeing;
    hide Quorum;
    var peers := Agreeing(v);
    forall z ensures z in confirmed <==> z in BridgeNames(v) {
      assert Seen(w, z) == if z != "" && z !in direct then Witnesses(peers, z) else {};
      if z in confirmed {
        var n :| n in Witnesses(peers, z);
      }
      if z in BridgeNames(v) {
        var p :| p in peers && z in Mutual(p);
        AgreeingAreNamed(v, p);
        assert p.nodeName.value in Witnesses(peers, z);
      }
    }
  }

  lemma AgreeingAreNamed(v: View, p: Peer)
    requires p in Agreeing(v)
    ensures p.nodeName.Some?
  {
    AgreeingAreCounted(v.me, ClusterSize(v.table), v.table, p);
  }

  method ComputeEligible(v: View) returns (out: seq<string>)
    ensures out == Eligible(v)
  {
    hide AgreeingIn;
    hide ClusterSize;
    hide Capped;
    hide BridgeNames;
    var agreeing := ComputeAgreeingPeers(v.me, v.table);
    var size := ComputeClusterSize(v.table);
    var quorum := QuorumSize(size);
    var eligible: seq<string> := [];
    for i := 0 to |agreeing|
      invariant eligible == DirectEligible(agreeing[..i], quorum)
    {
      TakeStep(agreeing, i);
      var p := agreeing[i];
      if p.nodeName.Some? && p.nodeName.value != "" && |Mutual(p)| + 1 >= quorum {
        eligible := eligible + [p.nodeName.value];
      }
    }
    assert agreeing[..|agreeing|] == agreeing;
    var bridge := ComputeBridgeCandidates(v);
    out := eligible + bridge;
  }

  method ComputeUnconfirmed(v: View) returns (out: seq<string>)
    ensures out == Ascend(Unconfirmed(v))
  {
    hide AgreeingIn;
    hide ClusterSize;
    hide Eligible;
    hide Direct;
    hide Ascend;
    hide Ranked;
    var agreeing := ComputeAgreeingPeers(v.me, v.table);
    var accounted := ComputeDirect(v, agreeing);
    var eligible := ComputeEligible(v);
    accounted := accounted + set n | n in eligible;
    var possible: set<string> := {};
    for i := 0 to |agreeing|
      invariant possible == VouchedOutside(agreeing[..i], accounted)
    {
      assert agreeing[..i + 1] == agreeing[..i] + [agreeing[i]];
      assert forall q :: q in agreeing[..i + 1] <==> q in agreeing[..i] || q == agreeing[i];
      possible := possible + set z | z in Vouched(agreeing[i]) && z != "" && z !in accounted;
    }
    assert agreeing[..|agreeing|] == agreeing;
    assert possible == Unconfirmed(v);
    out := Sort(possible);
    RankedUnique(out, Ascend(possible), possible);
  }

  /** The job-independent half of spread ownership: quorate or not, and whom to weigh. */
  method ComputeSpreadOwnerSet(v: View) returns (quorate: bool, members: seq<string>)
    ensures quorate == Quorate(v) && members == SpreadMembers(v)
  {
    hide AgreeingIn;
    hide ClusterSize;
    hide Eligible;
    hide Unconfirmed;
    hide Ascend;
    hide NamesOf;
    var agreeing := ComputeAgreeingPeers(v.me, v.table);
    var names := ComputeNames(agreeing);
    var size := ComputeClusterSize(v.table);
    quorate := 1 + |names| >= QuorumSize(size);
    var eligible := ComputeEligible(v);
    var unconfirmed := ComputeUnconfirmed(v);
    members := [v.me.name] + eligible + unconfirmed;
  }

  // ----- single leader -----

  /** The lowest of this node and its candidates, once a quorum is live. */
  ghost function ElectLeader(name: string, live: seq<string>, size: int, candidates: seq<string>): Option<string> {
    if 1 + |live| < QuorumSize(size) then None
    else
      var names := {name} + set n | n in candidates;
      assert name in names;
      Some(LeastOf(names))
  }

  ghost function LeaderName(v: View): Option<string> {
    ElectLeader(v.me.name, Names(v), ClusterSize(v.table), Eligible(v))
  }

  method ComputeLeader(v: View) returns (leader: Option<string>)
    ensures leader == LeaderName(v)
  {
    hide AgreeingIn;
    hide ClusterSize;
    hide Eligible;
    hide NamesOf;
    var agreeing := ComputeAgreeingPeers(v.me, v.table);
    var names := ComputeNames(agreeing);
    var size := ComputeClusterSize(v.table);
    if 1 + |names| < QuorumSize(size) {
      return None;
    }
    var eligible := ComputeEligible(v);
    var all := {v.me.name} + set n | n in eligible;
    assert v.me.name in all;
    var low := Least(all);
    LeastUnique(low, LeastOf(all), all);
    leader := Some(low);
  }

  /** Dropping the tail of the sorted bridge candidates cannot change a single-leader election. */
  lemma CapKeepsLeader(name: string, direct: seq<string>, bridge: set<string>, low: string)
    requires IsLeast(low, {name} + (set n | n in direct) + bridge)
    ensures IsLeast(low, {name} + (set n | n in direct) + set n | n in Capped(bridge))
  {
    var all := Ascend(bridge);
    assert forall n :: n in Capped(bridge) ==> n in all;
    if low in bridge {
      HeadIsLeast(all, bridge);
      if all[0] != low {
        NamesTotal(all[0], low);
      }
      assert low == all[0];
      assert Capped(bridge)[0] == low;
    }
  }

  // ----- the quorum -----

  /** A quorum is the least number that is more than half. */
  lemma QuorumIsMajority(n: int)
    requires n >= 1
    ensures 2 * QuorumSize(n) > n && 2 * (QuorumSize(n) - 1) <= n
  {}

  /** A list over the cap keeps 512 names, none above one it drops. */
  lemma CapKeepsLeast(names: set<string>)
    requires |names| > 512
    ensures |Capped(names)| == 512 && forall i :: 0 <= i < 512 ==> Capped(names)[i] in names
    ensures forall i, d :: 0 <= i < 512 && d in names && d !in Capped(names) ==> NameBelow(Capped(names)[i], d)
  {
    hide Ascend;
    hide NameBelow;
    var all, kept := Ascend(names), Capped(names);
    forall i, d | 0 <= i < 512 && d in names && d !in kept ensures NameBelow(kept[i], d) {
      var j :| 0 <= j < |all| && all[j] == d;
      assert 512 <= j;
    }
    forall i | 0 <= i < 512 ensures kept[i] in names {
      assert kept[i] == all[i] && all[i] in all;
    }
  }
}
