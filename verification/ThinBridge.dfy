/**
 Five nodes in which two elect themselves: they do not agree with each other, and
 one node alone agrees with both. The single-leader election promises no more
 than its exact condition.
 */
module ThinBridge {
  import opened Options
  import opened Collections
  import opened Ordering
  import opened PeerTable
  import opened Candidates
  import opened Election

  function Identity(name: string): Node {
    Node(name, name, "leader", true)
  }

  const DOWN := Peer(Unreachable, None, None, None, false, 0, 1, None, false, None, None, None, None, None, None)

  /** An agreeing entry for `name` as `me` holds it. */
  function Seen(me: string, name: string, mutual: set<string>, vouched: set<string>): Peer {
    Peer(Agreed, None, Some(name), Some(name), false, 0, 0, Some([Member(me, me, true)]), true, None, None, None, None,
         Some(mutual), Some(vouched))
  }

  lemma Append<T>(t: seq<T>, p: T)
    ensures (t + [p])[..|t + [p]| - 1] == t && (t + [p])[|t + [p]| - 1] == p
  {}

  lemma NamesAppend(peers: seq<Peer>, p: Peer, name: string)
    requires p.nodeName == Some(name) && name != ""
    ensures NamesOf(peers + [p]) == NamesOf(peers) + [name]
  {
    Append(peers, p);
  }

  lemma AddDown(me: Node, size: int, t: seq<Peer>)
    ensures AgreeingIn(me, size, t + [DOWN]) == AgreeingIn(me, size, t)
    ensures CountedInstances(me, size, t + [DOWN]) == CountedInstances(me, size, t)
    ensures ClusterSize(t + [DOWN]) == ClusterSize(t) + 1
  {
    Append(t, DOWN);
  }

  lemma AddSeen(me: Node, size: int, t: seq<Peer>, p: Peer)
    requires Counted(me, size, p) && p.instanceId.Some?
    requires p.instanceId.value !in CountedInstances(me, size, t) && p.instanceId.value !in Instances(t)
    ensures AgreeingIn(me, size, t + [p]) == AgreeingIn(me, size, t) + [p]
    ensures CountedInstances(me, size, t + [p]) == CountedInstances(me, size, t) + {p.instanceId.value}
    ensures Instances(t + [p]) == Instances(t) + {p.instanceId.value}
    ensures ClusterSize(t + [p]) == ClusterSize(t) + 1
  {
    Append(t, p);
  }

  lemma SeenIsCounted(me: string, name: string, mutual: set<string>, vouched: set<string>)
    ensures Counted(Identity(me), 5, Seen(me, name, mutual, vouched))
  {
    var p := Seen(me, name, mutual, vouched);
    assert p.members.value[0].instance == me;
  }

  /** A node that agrees with two peers, two more being down. */
  function Two(me: string, p: Peer, q: Peer): View {
    View(Identity(me), [] + [p] + [q] + [DOWN] + [DOWN])
  }

  /** A node that agrees with one peer, three more being down. */
  function One(me: string, p: Peer): View {
    View(Identity(me), [] + [p] + [DOWN] + [DOWN] + [DOWN])
  }

  lemma TwoAgree(me: string, a: string, am: set<string>, av: set<string>, b: string, bm: set<string>, bv: set<string>)
    requires a != b && a != "" && b != ""
    ensures var v := Two(me, Seen(me, a, am, av), Seen(me, b, bm, bv));
            && ClusterSize(v.table) == 5
            && Agreeing(v) == [Seen(me, a, am, av), Seen(me, b, bm, bv)]
            && Names(v) == [a, b] && Agrees(v) == {a, b} && Quorate(v)
  {
    var p, q, n := Seen(me, a, am, av), Seen(me, b, bm, bv), Identity(me);
    SeenIsCounted(me, a, am, av);
    SeenIsCounted(me, b, bm, bv);
    AddSeen(n, 5, [], p);
    AddSeen(n, 5, [] + [p], q);
    AddDown(n, 5, [] + [p] + [q]);
    AddDown(n, 5, [] + [p] + [q] + [DOWN]);
    var v := Two(me, p, q);
    assert Agreeing(v) == [] + [p] + [q];
    NamesAppend([], p, a);
    NamesAppend([] + [p], q, b);
  }

  lemma OneAgrees(me: string, a: string, am: set<string>, av: set<string>)
    requires a != ""
    ensures var v := One(me, Seen(me, a, am, av));
            && ClusterSize(v.table) == 5
            && Agreeing(v) == [Seen(me, a, am, av)] && Names(v) == [a] && Agrees(v) == {a} && !Quorate(v)
  {
    var p, n := Seen(me, a, am, av), Identity(me);
    SeenIsCounted(me, a, am, av);
    AddSeen(n, 5, [], p);
    AddDown(n, 5, [] + [p]);
    AddDown(n, 5, [] + [p] + [DOWN]);
    AddDown(n, 5, [] + [p] + [DOWN] + [DOWN]);
    var v := One(me, p);
    assert Agreeing(v) == [] + [p];
    NamesAppend([], p, a);
  }

  // ----- candidates -----

  lemma NoBridgeTwo(v: View, p: Peer, q: Peer)
    requires Agreeing(v) == [p, q] && Quorum(v) == 3 && Mutual(p) * Mutual(q) <= {v.me.name}
    ensures BridgeNames(v) == {}
  {
    forall z | z in BridgeNames(v) ensures false {
      var w := Witnesses([p, q], z);
      if z !in Mutual(q) {
        assert forall x :: x in w ==> p.nodeName.Some? && x == p.nodeName.value;
        assert w <= if p.nodeName.Some? then {p.nodeName.value} else {};
        SubsetCount(w, if p.nodeName.Some? then {p.nodeName.value} else {});
      } else {
        assert z !in Mutual(p);
        assert forall x :: x in w ==> q.nodeName.Some? && x == q.nodeName.value;
        assert w <= if q.nodeName.Some? then {q.nodeName.value} else {};
        SubsetCount(w, if q.nodeName.Some? then {q.nodeName.value} else {});
      }
    }
  }

  lemma NoBridgeOne(v: View, p: Peer)
    requires Agreeing(v) == [p] && Quorum(v) == 3
    ensures BridgeNames(v) == {}
  {
    forall z | z in BridgeNames(v) ensures false {
      var w := Witnesses([p], z);
      assert w <= if p.nodeName.Some? then {p.nodeName.value} else {};
      SubsetCount(w, if p.nodeName.Some? then {p.nodeName.value} else {});
    }
  }

  lemma EligibleWithoutBridge(v: View, z: string)
    requires BridgeNames(v) == {} && Quorum(v) == 3
    ensures z in EligibleSet(v)
       <==> z != "" && exists p :: p in Agreeing(v) && p.nodeName == Some(z) && |Mutual(p)| >= 2
  {
    CappedWhole({}, z);
    InDirectEligible(Agreeing(v), 3, z);
  }

  // ----- the five nodes -----

  const A := Two("a", Seen("a", "m", {"a", "b"}, {"a", "b"}), Seen("a", "x", {"a"}, {"a"}))
  const B := Two("b", Seen("b", "m", {"a", "b"}, {"a", "b"}), Seen("b", "y", {"b"}, {"b"}))
  const M := Two("m", Seen("m", "a", {"m", "x"}, {"m"}), Seen("m", "b", {"m", "y"}, {"m"}))
  const X := One("x", Seen("x", "a", {"m", "x"}, {"m"}))
  const Y := One("y", Seen("y", "b", {"m", "y"}, {"m"}))

  const FIVE := [A, B, M, X, Y]

  lemma EligibleTwo(v: View, p: Peer, q: Peer)
    requires Agreeing(v) == [p, q] && Quorum(v) == 3 && Mutual(p) * Mutual(q) <= {v.me.name}
    requires p.nodeName.Some? && q.nodeName.Some? && p.nodeName.value != "" && q.nodeName.value != ""
    requires p.nodeName != q.nodeName
    ensures EligibleSet(v) == (if |Mutual(p)| >= 2 then {p.nodeName.value} else {})
                              + (if |Mutual(q)| >= 2 then {q.nodeName.value} else {})
    ensures BridgeNames(v) == {}
  {
    hide Eligible;
    hide AgreeingIn;
    hide Quorum;
    hide Mutual;
    NoBridgeTwo(v, p, q);
    forall z ensures z in EligibleSet(v)
       <==> z in (if |Mutual(p)| >= 2 then {p.nodeName.value} else {})
                 + (if |Mutual(q)| >= 2 then {q.nodeName.value} else {})
    {
      EligibleWithoutBridge(v, z);
      assert p in Agreeing(v) && q in Agreeing(v);
    }
  }

  lemma EligibleOne(v: View, p: Peer)
    requires Agreeing(v) == [p] && Quorum(v) == 3 && p.nodeName.Some? && p.nodeName.value != "" && |Mutual(p)| >= 2
    ensures EligibleSet(v) == {p.nodeName.value} && BridgeNames(v) == {}
  {
    hide Eligible;
    hide AgreeingIn;
    hide Quorum;
    hide Mutual;
    NoBridgeOne(v, p);
    forall z ensures z in EligibleSet(v) <==> z == p.nodeName.value {
      EligibleWithoutBridge(v, z);
      assert p in Agreeing(v);
    }
  }

  /** What each of the five derives. */
  ghost predicate Derives(v: View, agrees: set<string>, eligible: set<string>, quorate: bool) {
    && Agrees(v) == agrees && EligibleSet(v) == eligible && Quorate(v) == quorate
    && ClusterSize(v.table) == 5 && BridgeNames(v) == {}
  }

  lemma DerivesA()
    ensures Derives(A, {"m", "x"}, {"m"}, true)
    ensures Agreeing(A) == [Seen("a", "m", {"a", "b"}, {"a", "b"}), Seen("a", "x", {"a"}, {"a"})]
  {
    hide AgreeingIn;
    hide ClusterSize;
    hide Eligible;
    hide NamesOf;
    hide BridgeNames;
    TwoAgree("a", "m", {"a", "b"}, {"a", "b"}, "x", {"a"}, {"a"});
    EligibleTwo(A, Seen("a", "m", {"a", "b"}, {"a", "b"}), Seen("a", "x", {"a"}, {"a"}));
  }

  lemma DerivesB()
    ensures Derives(B, {"m", "y"}, {"m"}, true)
    ensures Agreeing(B) == [Seen("b", "m", {"a", "b"}, {"a", "b"}), Seen("b", "y", {"b"}, {"b"})]
  {
    hide AgreeingIn;
    hide ClusterSize;
    hide Eligible;
    hide NamesOf;
    hide BridgeNames;
    TwoAgree("b", "m", {"a", "b"}, {"a", "b"}, "y", {"b"}, {"b"});
    EligibleTwo(B, Seen("b", "m", {"a", "b"}, {"a", "b"}), Seen("b", "y", {"b"}, {"b"}));
  }

  lemma DerivesM()
    ensures Derives(M, {"a", "b"}, {"a", "b"}, true)
    ensures Agreeing(M) == [Seen("m", "a", {"m", "x"}, {"m"}), Seen("m", "b", {"m", "y"}, {"m"})]
  {
    hide AgreeingIn;
    hide ClusterSize;
    hide Eligible;
    hide NamesOf;
    hide BridgeNames;
    TwoAgree("m", "a", {"m", "x"}, {"m"}, "b", {"m", "y"}, {"m"});
    EligibleTwo(M, Seen("m", "a", {"m", "x"}, {"m"}), Seen("m", "b", {"m", "y"}, {"m"}));
  }

  lemma DerivesX()
    ensures Derives(X, {"a"}, {"a"}, false) && Agreeing(X) == [Seen("x", "a", {"m", "x"}, {"m"})]
  {
    hide AgreeingIn;
    hide ClusterSize;
    hide Eligible;
    hide NamesOf;
    hide BridgeNames;
    OneAgrees("x", "a", {"m", "x"}, {"m"});
    EligibleOne(X, Seen("x", "a", {"m", "x"}, {"m"}));
  }

  lemma DerivesY()
    ensures Derives(Y, {"b"}, {"b"}, false) && Agreeing(Y) == [Seen("y", "b", {"m", "y"}, {"m"})]
  {
    hide AgreeingIn;
    hide ClusterSize;
    hide Eligible;
    hide NamesOf;
    hide BridgeNames;
    OneAgrees("y", "b", {"m", "y"}, {"m"});
    EligibleOne(Y, Seen("y", "b", {"m", "y"}, {"m"}));
  }

  /** The five views are converged. */
  lemma FiveConverge()
    ensures Converged(FIVE, 5)
  {
    hide AgreeingIn;
    hide Agrees;
    hide ClusterSize;
    hide Eligible;
    hide EligibleSet;
    hide BridgeNames;
    hide Quorate;
    DerivesA();
    DerivesB();
    DerivesM();
    DerivesX();
    DerivesY();
    assert Gossips(FIVE, 0, 2, Agreeing(A)[0]) && Gossips(FIVE, 0, 3, Agreeing(A)[1]);
    assert Gossips(FIVE, 1, 2, Agreeing(B)[0]) && Gossips(FIVE, 1, 4, Agreeing(B)[1]);
    assert Gossips(FIVE, 2, 0, Agreeing(M)[0]) && Gossips(FIVE, 2, 1, Agreeing(M)[1]);
    assert Gossips(FIVE, 3, 0, Agreeing(X)[0]) && Gossips(FIVE, 4, 1, Agreeing(Y)[0]);
  }

  lemma LetterOrder()
    ensures NameBelow("a", "b") && NameBelow("b", "m") && NameBelow("a", "m")
  {}

  /** Both `a` and `b` elect themselves: no theorem gives single-leader mode one leader. */
  lemma TwoLeaders()
    ensures Converged(FIVE, 5)
    ensures LeaderName(FIVE[0]) == Some("a") && LeaderName(FIVE[1]) == Some("b")
  {
    hide AgreeingIn;
    hide Agrees;
    hide ClusterSize;
    hide Eligible;
    hide EligibleSet;
    hide BridgeNames;
    hide Quorate;
    hide LeaderName;
    hide Converged;
    hide NameBelow;
    FiveConverge();
    DerivesA();
    DerivesB();
    DerivesM();
    DerivesX();
    DerivesY();
    LetterOrder();
    NamesTotal("a", "b");
    NamesTotal("b", "m");
    NamesTotal("a", "m");
    assert Agrees(B) * Agrees(A) == {"m"};
    SelfElectsIff(FIVE, 5, 0);
    SelfElectsIff(FIVE, 5, 1);
  }
}
