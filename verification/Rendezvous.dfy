/**
 Rendezvous ownership: the member with the highest (score, name) pair owns a
 job, the score being the job's digest for that member as a big-endian integer.
 */
module Rendezvous {
  import opened Collections
  import opened Ordering

  /** Bytes of a digest that enter the score. */
  const SCORE_BYTES := 8

  /** The digest prefix of a (job, node) pair; SHA-256 in the engine. */
  type Digest = (string, string) -> seq<Byte>

  ghost predicate ValidDigest(hash: Digest) {
    forall job, node :: |hash(job, node)| == SCORE_BYTES
  }

  function Score(hash: Digest, job: string, node: string): nat {
    BigEndian(hash(job, node))
  }

  /** `a` outranks `b` for the job. */
  ghost predicate Outranks(hash: Digest, job: string, a: string, b: string) {
    || Score(hash, job, b) < Score(hash, job, a)
    || (Score(hash, job, b) == Score(hash, job, a) && NameBelow(b, a))
  }

  /** `owner` is the maximum by (score, name). */
  ghost predicate IsOwner(hash: Digest, job: string, members: set<string>, owner: string) {
    owner in members && forall n :: n in members && n != owner ==> Outranks(hash, job, owner, n)
  }

  lemma OutranksTotal(hash: Digest, job: string, a: string, b: string)
    ensures a == b || Outranks(hash, job, a, b) || Outranks(hash, job, b, a)
    ensures !(Outranks(hash, job, a, b) && Outranks(hash, job, b, a))
  {
    NamesTotal(a, b);
  }

  lemma OutranksTransitive(hash: Digest, job: string, a: string, b: string, c: string)
    requires Outranks(hash, job, a, b) && Outranks(hash, job, b, c)
    ensures Outranks(hash, job, a, c)
  {
    if NameBelow(b, a) && NameBelow(c, b) {
      NamesTransitive(c, b, a);
    }
  }

  /** The owner depends on the member set alone. */
  lemma OwnerUnique(hash: Digest, job: string, members: set<string>, a: string, b: string)
    requires IsOwner(hash, job, members, a) && IsOwner(hash, job, members, b)
    ensures a == b
  {
    hide Outranks;
    OutranksTotal(hash, job, a, b);
  }

  /** No member scores higher, and none that scores as high has a higher name. */
  lemma OwnerIsMaximum(hash: Digest, job: string, members: set<string>, owner: string, n: string)
    requires IsOwner(hash, job, members, owner) && n in members
    ensures BigEndian(hash(job, n)) <= BigEndian(hash(job, owner))
    ensures BigEndian(hash(job, n)) == BigEndian(hash(job, owner)) ==> !NameBelow(owner, n)
  {
    hide NameBelow;
    NamesTotal(n, owner);
  }

  lemma {:induction false} OwnerExists(hash: Digest, job: string, members: set<string>)
    requires members != {}
    ensures exists o :: IsOwner(hash, job, members, o)
  {
    hide Outranks;
    var n :| n in members;
    var rest := members - {n};
    assert forall m :: m in members ==> m == n || m in rest;
    if rest == {} {
      assert IsOwner(hash, job, members, n);
    } else {
      OwnerExists(hash, job, rest);
      var o :| IsOwner(hash, job, rest, o);
      OutranksTotal(hash, job, o, n);
      if Outranks(hash, job, o, n) {
        assert IsOwner(hash, job, members, o);
      } else {
        forall m | m in members && m != n ensures Outranks(hash, job, n, m) {
          if m != o {
            OutranksTransitive(hash, job, n, o, m);
          }
        }
        assert IsOwner(hash, job, members, n);
      }
    }
  }

  ghost function OwnerOf(hash: Digest, job: string, members: set<string>): (o: string)
    requires members != {}
    ensures IsOwner(hash, job, members, o)
  {
    OwnerExists(hash, job, members);
    var o :| IsOwner(hash, job, members, o);
    o
  }

  /** Adding or removing another member moves only that member's own jobs. */
  lemma OwnerIsStable(hash: Digest, job: string, members: set<string>, other: string)
    requires members != {}
    ensures OwnerOf(hash, job, members + {other}) in {OwnerOf(hash, job, members), other}
  {
    hide Outranks;
    var o := OwnerOf(hash, job, members + {other});
    if o != other {
      assert IsOwner(hash, job, members, o);
      OwnerUnique(hash, job, members, o, OwnerOf(hash, job, members));
    }
  }

  /** The scan over raw 8-byte prefixes finds the maximum by integer score and name. */
  method HrwOwner(hash: Digest, job: string, members: seq<string>) returns (best: string)
    requires ValidDigest(hash) && members != []
    ensures IsOwner(hash, job, AsSet(members), best)
  {
    best := members[0];
    var bestScore := hash(job, best);
    for i := 1 to |members|
      invariant bestScore == hash(job, best)
      invariant IsOwner(hash, job, AsSet(members[..i]), best)
    {
      var name := members[i];
      var score := hash(job, name);
      ByteOrderIsNumeric(bestScore, score);
      assert AsSet(members[..i + 1]) == AsSet(members[..i]) + {name};
      RawCompare(hash, job, best, name);
      if Below(bestScore, score) || (score == bestScore && NameBelow(best, name)) {
        NewBest(hash, job, AsSet(members[..i]), best, name);
        bestScore, best := score, name;
      } else if name != best {
        OutranksTotal(hash, job, best, name);
      }
    }
    assert members[..|members|] == members;
  }

  /** Comparing raw digests and names is comparing (score, name) pairs. */
  lemma RawCompare(hash: Digest, job: string, best: string, name: string)
    requires ValidDigest(hash)
    ensures Below(hash(job, best), hash(job, name)) || (hash(job, name) == hash(job, best) && NameBelow(best, name))
       <==> Outranks(hash, job, name, best)
  {
    var a, b := hash(job, best), hash(job, name);
    ByteOrderIsNumeric(a, b);
    ByteOrderIsNumeric(b, a);
    BelowTrichotomy(a, b);
  }

  lemma NewBest(hash: Digest, job: string, members: set<string>, best: string, name: string)
    requires IsOwner(hash, job, members, best) && Outranks(hash, job, name, best)
    ensures IsOwner(hash, job, members + {name}, name)
  {
    hide Outranks;
    forall m | m in members && m != name ensures Outranks(hash, job, name, m) {
      if m != best {
        OutranksTransitive(hash, job, name, best, m);
      }
    }
  }
}
