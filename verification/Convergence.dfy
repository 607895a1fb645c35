/**
 Where the polling leads. Each node serves a body made from its own table and
 reads its peers' bodies into that table; once every entry that reads AGREED is a
 reading of what its node serves now, the view is converged: agreement is mutual
 because each side counts only a peer that lists it.
 */
module Convergence {
  import opened Options
  import opened Collections
  import opened PeerTable
  import opened Candidates
  import opened Rendezvous
  import opened ClusterView
  import opened Election

  /** A node with its table, its live job-set id and the one-shots it advertises. */
  datatype Site = Site(view: View, id: string, ran: set<string>)

  // ----- the body a node serves, as a poller reads it -----

  predicate Stale(status: Status) {
    status.Unknown? || status.Unreachable? || status.Untrusted?
  }

  /** A line a poller keeps: fresh, named and identified. */
  predicate Listed(p: Peer) {
    && !Stale(p.status) && p.nodeName.Some? && p.nodeName.value != ""
    && p.instanceId.Some? && p.instanceId.value != ""
  }

  function Lines(t: seq<Peer>): seq<Member> {
    if t == [] then []
    else
      var p := t[|t| - 1];
      Lines(t[..|t| - 1])
      + if Listed(p) then [Member(p.nodeName.value, p.instanceId.value, p.status == Agreed)] else []
  }

  function LocalMembers(v: View): seq<Member> {
    [Member(v.me.name, v.me.instance, true)] + Lines(v.table)
  }

  /** The lines are exactly the fresh entries, each with whether it reads AGREED. */
  lemma {:induction false} LinesSay(t: seq<Peer>, m: Member)
    ensures m in Lines(t)
       <==> exists p :: p in t && p.status !in {Unknown, Unreachable, Untrusted}
                        && m.name != "" && p.nodeName == Some(m.name)
                        && m.instance != "" && p.instanceId == Some(m.instance)
                        && (m.agreed <==> p.status == Agreed)
  {
    if t != [] {
      var rest, p := t[..|t| - 1], t[|t| - 1];
      LinesSay(rest, m);
      assert forall q :: q in t <==> q in rest || q == p;
    }
  }

  method ComputeMembers(v: View) returns (members: seq<Member>)
    ensures members == LocalMembers(v)
  {
    members := [Member(v.me.name, v.me.instance, true)];
    for i := 0 to |v.table|
      invariant members == [Member(v.me.name, v.me.instance, true)] + Lines(v.table[..i])
    {
      TakeStep(v.table, i);
      var p := v.table[i];
      if Stale(p.status) || p.nodeName.None? {
        continue;
      }
      if p.nodeName.value == "" || p.instanceId.None? || p.instanceId.value == "" {
        continue;
      }
      members := members + [Member(p.nodeName.value, p.instanceId.value, p.status == Agreed)];
    }
    assert v.table[..|v.table|] == v.table;
  }

  ghost function Body(s: Site): Observation {
    var v := s.view;
    Observation(Some(v.me.name), Some(s.id), Some(SCHEME_VERSION), Some(v.me.instance), Some(LocalMembers(v)), true,
                Some(s.ran), Some(ClusterSize(v.table)), Some(v.me.distribution), Some(v.me.electLeader),
                Some(Agrees(v)), Some(AsSet(Capped(EligibleSet(v)))))
  }

  // ----- at rest -----

  /** Entry `p` of node `i` is a reading of what node `j` serves now. */
  ghost predicate Reads(s: seq<Site>, driftAfter: int, i: int, j: int, p: Peer)
    requires 0 <= i < |s|
  {
    0 <= j < |s| && exists was :: p == Succeeded(was, Body(s[j]), s[i].view.me, s[i].id, driftAfter)
  }

  /** Every entry that reads AGREED is a reading of what some node serves now. */
  ghost predicate AtRest(s: seq<Site>, driftAfter: int) {
    forall i, k :: 0 <= i < |s| && 0 <= k < |s[i].view.table| && s[i].view.table[k].status == Agreed ==>
      exists j :: Reads(s, driftAfter, i, j, s[i].view.table[k])
  }

  ghost function Views(s: seq<Site>): seq<View> {
    seq(|s|, i requires 0 <= i < |s| => s[i].view)
  }

  /** One size, unique names and instances, and nothing over the caps. */
  ghost predicate Ordinary(s: seq<Site>, n: int) {
    && |s| <= n && UniqueNodes(Views(s))
    && forall i :: 0 <= i < |s| ==>
         && s[i].view.me.instance != "" && ClusterSize(s[i].view.table) == n
         && |BridgeNames(s[i].view)| <= CANDIDATE_CAP && |EligibleSet(s[i].view)| <= CANDIDATE_CAP
  }

  lemma OneSite(s: seq<Site>, n: int, i: int, j: int)
    requires Ordinary(s, n) && 0 <= i < |s| && 0 <= j < |s|
    requires s[i].view.me.name == s[j].view.me.name || s[i].view.me.instance == s[j].view.me.instance
    ensures i == j
  {
    hide ClusterSize;
    hide BridgeNames;
    SameNode(Views(s), i, j);
  }

  /** What an AGREED reading says. */
  lemma ReadingSays(s: seq<Site>, driftAfter: int, i: int, j: int, p: Peer)
    requires 0 <= i < |s| && Reads(s, driftAfter, i, j, p) && p.status == Agreed
    ensures var v, me := s[j].view, s[i].view.me;
            && v.me.name != me.name && s[j].id == s[i].id
            && p.nodeName == Some(v.me.name) && p.instanceId == Some(v.me.instance)
            && p.members == Some(LocalMembers(v)) && p.reportsMembers
            && p.declaredSize == Some(ClusterSize(v.table)) && p.declaredDistribution == Some(v.me.distribution)
            && p.declaredElectLeader == Some(v.me.electLeader)
            && p.mutualAgreeing == Some(Agrees(v)) && p.quorateVouched == Some(AsSet(Capped(EligibleSet(v))))
  {
    hide Succeeded;
    hide Agrees;
    hide LocalMembers;
    hide ClusterSize;
    hide EligibleSet;
    hide Capped;
    hide AsSet;
    var was :| p == Succeeded(was, Body(s[j]), s[i].view.me, s[i].id, driftAfter);
    StatusIs(was, Body(s[j]), s[i].view.me, s[i].id, driftAfter);
  }

  lemma AgreedReads(s: seq<Site>, driftAfter: int, i: int, p: Peer) returns (j: int)
    requires AtRest(s, driftAfter) && 0 <= i < |s| && p in s[i].view.table && p.status == Agreed
    ensures Reads(s, driftAfter, i, j, p) && 0 <= j < |s|
  {
    hide Reads;
    var k :| 0 <= k < |s[i].view.table| && s[i].view.table[k] == p;
    j :| Reads(s, driftAfter, i, j, s[i].view.table[k]);
    ReadsInRange(s, driftAfter, i, j, p);
  }

  lemma ReadsInRange(s: seq<Site>, driftAfter: int, i: int, j: int, p: Peer)
    requires 0 <= i < |s| && Reads(s, driftAfter, i, j, p)
    ensures 0 <= j < |s|
  {}

  /** The line that lists a node as agreed is an AGREED entry that reads it. */
  lemma ListedIsRead(s: seq<Site>, n: int, driftAfter: int, i: int, j: int) returns (q: Peer)
    requires Ordinary(s, n) && AtRest(s, driftAfter) && 0 <= i < |s| && 0 <= j < |s| && i != j
    requires exists m :: 0 <= m < |LocalMembers(s[j].view)| && LocalMembers(s[j].view)[m].agreed
                         && LocalMembers(s[j].view)[m].instance == s[i].view.me.instance
    ensures q in s[j].view.table && q.status == Agreed && Reads(s, driftAfter, j, i, q)
  {
    hide Reads;
    hide ClusterSize;
    hide BridgeNames;
    hide Ordinary;
    hide AtRest;
    var v := s[j].view;
    var m :| 0 <= m < |LocalMembers(v)| && LocalMembers(v)[m].agreed
             && LocalMembers(v)[m].instance == s[i].view.me.instance;
    var line := LocalMembers(v)[m];
    if m == 0 {
      OneSite(s, n, i, j);
    }
    assert line == Lines(v.table)[m - 1];
    assert line in Lines(v.table);
    LinesSay(v.table, line);
    q :| q in v.table && q.instanceId == Some(line.instance) && q.status == Agreed;
    var k := AgreedReads(s, driftAfter, j, q);
    ReadingSays(s, driftAfter, j, k, q);
    OneSite(s, n, k, i);
  }

  /** An AGREED entry is listed as agreed in the body of its node. */
  lemma AgreedIsListed(s: seq<Site>, n: int, driftAfter: int, i: int, j: int, p: Peer)
    requires Ordinary(s, n) && 0 <= i < |s| && p in s[i].view.table && p.status == Agreed
    requires Reads(s, driftAfter, i, j, p)
    ensures 0 <= j < |s|
    ensures exists m :: 0 <= m < |LocalMembers(s[i].view)| && LocalMembers(s[i].view)[m].agreed
                        && LocalMembers(s[i].view)[m].instance == s[j].view.me.instance
  {
    hide Reads;
    hide ClusterSize;
    hide BridgeNames;
    hide Lines;
    hide LocalMembers;
    hide Ordinary;
    ReadsInRange(s, driftAfter, i, j, p);
    ReadingSays(s, driftAfter, i, j, p);
    NamedSite(s, n, j);
    var line := Member(s[j].view.me.name, s[j].view.me.instance, true);
    LinesSay(s[i].view.table, line);
    var m := LineAt(s[i].view, line);
  }

  lemma LineAt(v: View, line: Member) returns (m: nat)
    requires line in Lines(v.table)
    ensures m < |LocalMembers(v)| && LocalMembers(v)[m] == line
  {
    hide Lines;
    var k :| 0 <= k < |Lines(v.table)| && Lines(v.table)[k] == line;
    m := k + 1;
  }

  /** Counting is mutual at rest: the other side counts back. */
  lemma CountsBack(s: seq<Site>, n: int, driftAfter: int, i: int, j: int, p: Peer)
    requires Ordinary(s, n) && AtRest(s, driftAfter) && 0 <= i < |s|
    requires p in Agreeing(s[i].view) && Reads(s, driftAfter, i, j, p)
    ensures 0 <= j < |s| && j != i && p in s[i].view.table && p.status == Agreed
    ensures s[i].view.me.name in Agrees(s[j].view)
  {
    hide Reads;
    hide Ordinary;
    hide AtRest;
    hide AgreeingIn;
    hide ClusterSize;
    hide LocalMembers;
    hide NamesOf;
    var v := s[i].view;
    OnlyConfirmed(v.me, ClusterSize(v.table), v.table, p);
    ReadsInRange(s, driftAfter, i, j, p);
    ReadingSays(s, driftAfter, i, j, p);
    var q := ListedIsRead(s, n, driftAfter, i, j);
    ReadingSays(s, driftAfter, j, i, q);
    AgreedIsListed(s, n, driftAfter, i, j, p);
    var w := s[j].view;
    AllConfirmed(w.me, ClusterSize(w.table), w.table, q);
    var r :| r in Agreeing(w) && r.instanceId == q.instanceId;
    OnlyConfirmed(w.me, ClusterSize(w.table), w.table, r);
    var k := AgreedReads(s, driftAfter, j, r);
    ReadingSays(s, driftAfter, j, k, r);
    OneSite(s, n, k, i);
    NamedSite(s, n, i);
    InNamesOf(Agreeing(w), v.me.name);
  }

  lemma NamedSite(s: seq<Site>, n: int, i: int)
    requires Ordinary(s, n) && 0 <= i < |s|
    ensures s[i].view.me.name != "" && s[i].view.me.instance != "" && ClusterSize(s[i].view.table) == n
    ensures AsSet(Capped(EligibleSet(s[i].view))) == EligibleSet(s[i].view)
  {
    hide ClusterSize;
    hide BridgeNames;
    hide Capped;
    assert Views(s)[i].me.name != "";
    var names := EligibleSet(s[i].view);
    forall z ensures z in AsSet(Capped(names)) <==> z in names {
      CappedWhole(names, z);
    }
  }

  /** A cluster at rest is converged. */
  lemma AtRestConverges(s: seq<Site>, n: int, driftAfter: int)
    requires Ordinary(s, n) && AtRest(s, driftAfter)
    ensures Converged(Views(s), n)
  {
    hide AtRest;
    hide Reads;
    hide AgreeingIn;
    hide ClusterSize;
    hide BridgeNames;
    hide Agrees;
    hide EligibleSet;
    hide UniqueNodes;
    var c := Views(s);
    forall i | 0 <= i < |c| ensures Observed(c, i) {
      forall p | p in Agreeing(c[i]) ensures exists j :: Gossips(c, i, j, p) {
        OnlyConfirmed(c[i].me, ClusterSize(c[i].table), c[i].table, p);
        var j := AgreedReads(s, driftAfter, i, p);
        ReadingSays(s, driftAfter, i, j, p);
        CountsBack(s, n, driftAfter, i, j, p);
        NamedSite(s, n, j);
        assert Gossips(c, i, j, p);
      }
    }
  }

  /** So a cluster at rest runs each job on exactly one node, as soon as any node is quorate. */
  lemma RestHasOneOwner(hash: Digest, job: string, s: seq<Site>, n: int, driftAfter: int, i: int)
    requires Ordinary(s, n) && AtRest(s, driftAfter) && 0 <= i < |s| && Quorate(s[i].view)
    ensures exists k :: 0 <= k < |s| && OwnsItself(hash, job, s[k].view) && OnlyOwner(hash, job, Views(s), k)
  {
    hide Ordinary;
    hide AtRest;
    hide Converged;
    hide Quorate;
    hide OwnsItself;
    hide OnlyOwner;
    AtRestConverges(s, n, driftAfter);
    OneOwnerPerJob(hash, job, Views(s), n, i);
    var k :| 0 <= k < |Views(s)| && OwnsItself(hash, job, Views(s)[k]) && OnlyOwner(hash, job, Views(s), k);
  }

  // ----- two nodes at rest -----

  function NodeOf(name: string): Node {
    Node(name, name, "leader", true)
  }

  /** What `name` serves while it and `other` agree. */
  function PairBody(name: string, other: string): Observation {
    Observation(Some(name), Some("x"), Some("v1"), Some(name),
                Some([Member(name, name, true), Member(other, other, true)]), true, Some({}), Some(2), Some("leader"),
                Some(true), Some({other}), Some({other}))
  }

  function PairView(name: string, other: string): View {
    View(NodeOf(name), [Succeeded(BLANK, PairBody(other, name), NodeOf(name), "x", 1)])
  }

  lemma OneSize(p: Peer)
    requires p.status != Self
    ensures ClusterSize([p]) == 2
  {
    var t := [p];
    assert t[..|t| - 1] == [];
    assert SelfListed([]) == 0 && Duplicates([]) == 0 && Instances([]) == {};
    assert SelfListed(t) == 0;
    assert Duplicates(t) == 0;
  }

  lemma OneAgrees(me: Node, size: int, p: Peer)
    requires Counted(me, size, p)
    ensures AgreeingIn(me, size, [p]) == [p]
  {
    hide Counted;
    assert [p][..|[p]| - 1] == [];
  }

  lemma OneName(p: Peer, name: string, instance: string)
    requires p.status == Agreed && p.nodeName == Some(name) && name != ""
    requires p.instanceId == Some(instance) && instance != ""
    ensures NamesOf([p]) == [name] && Lines([p]) == [Member(name, instance, true)]
  {
    assert [p][..|[p]| - 1] == [];
  }

  lemma PairAgrees(name: string, other: string)
    requires name != other && name != "" && other != ""
    ensures var v := PairView(name, other);
            && ClusterSize(v.table) == 2 && Agreeing(v) == v.table && Names(v) == [other]
            && v.table[0].status == Agreed && v.table[0].nodeName == Some(other) && Mutual(v.table[0]) == {name}
            && LocalMembers(v) == [Member(name, name, true), Member(other, other, true)]
  {
    hide Succeeded;
    hide ClusterSize;
    hide AgreeingIn;
    hide NamesOf;
    hide Lines;
    var v := PairView(name, other);
    var p := v.table[0];
    StatusIs(BLANK, PairBody(other, name), v.me, "x", 1);
    OneSize(p);
    assert p.members.value[1].agreed && p.members.value[1].instance == v.me.instance;
    OneAgrees(v.me, 2, p);
    OneName(p, other, other);
  }

  lemma PairEligible(name: string, other: string)
    requires name != other && name != "" && other != ""
    ensures var v := PairView(name, other);
            BridgeNames(v) == {} && Agrees(v) == {other} && EligibleSet(v) == {other}
  {
    hide ClusterSize;
    hide AgreeingIn;
    hide NamesOf;
    hide LocalMembers;
    hide Succeeded;
    PairAgrees(name, other);
    var v := PairView(name, other);
    var p := v.table[0];
    assert forall q :: q in Agreeing(v) <==> q == p;
    assert BridgeNames(v) == {};
    forall z ensures z in Eligible(v) <==> z == other {
      CappedWhole({}, z);
      InDirectEligible(Agreeing(v), Quorum(v), z);
      assert z == other ==> p in Agreeing(v) && p.nodeName == Some(z);
    }
  }

  function PairSite(name: string, other: string): Site {
    Site(PairView(name, other), "x", {})
  }

  lemma PairServes(name: string, other: string)
    requires name != other && name != "" && other != ""
    ensures Body(PairSite(name, other)) == PairBody(name, other)
  {
    hide ClusterSize;
    hide AgreeingIn;
    hide LocalMembers;
    hide Capped;
    hide EligibleSet;
    hide Agrees;
    PairAgrees(name, other);
    PairEligible(name, other);
    forall z ensures z in AsSet(Capped({other})) <==> z in {other} {
      CappedWhole({other}, z);
    }
    assert AsSet(Capped({other})) == {other};
  }

  /** Two agreeing nodes are at rest, and both are quorate. */
  lemma PairAtRest()
    ensures var s := [PairSite("a", "b"), PairSite("b", "a")];
            Ordinary(s, 2) && AtRest(s, 1) && Quorate(s[0].view) && Quorate(s[1].view)
  {
    hide ClusterSize;
    hide AgreeingIn;
    hide BridgeNames;
    hide EligibleSet;
    hide Body;
    hide Succeeded;
    var s := [PairSite("a", "b"), PairSite("b", "a")];
    PairAgrees("a", "b");
    PairAgrees("b", "a");
    PairEligible("a", "b");
    PairEligible("b", "a");
    PairServes("a", "b");
    PairServes("b", "a");
    assert Views(s) == [s[0].view, s[1].view];
    assert Reads(s, 1, 0, 1, s[0].view.table[0]);
    assert Reads(s, 1, 1, 0, s[1].view.table[0]);
  }
}
