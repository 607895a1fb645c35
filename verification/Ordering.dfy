/**
 Orders the election relies on: node names compare lexicographically, digests
 compare as raw bytes, which is their order as big-endian integers.
 */
module Ordering {

  type Byte = b: int | 0 <= b < 256

  function Codes(s: string): seq<int> {
    seq(|s|, i requires 0 <= i < |s| => s[i] as int)
  }

  /** Lexicographic order. */
  predicate Below(a: seq<int>, b: seq<int>) {
    b != [] && (a == [] || a[0] < b[0] || (a[0] == b[0] && Below(a[1..], b[1..])))
  }

  predicate NameBelow(a: string, b: string) {
    Below(Codes(a), Codes(b))
  }

  lemma {:induction false} BelowTrichotomy(a: seq<int>, b: seq<int>)
    ensures a == b || Below(a, b) || Below(b, a)
    ensures !(Below(a, b) && Below(b, a)) && !(a == b && Below(a, b))
  {
    if a != [] && b != [] && a[0] == b[0] {
      BelowTrichotomy(a[1..], b[1..]);
      assert a == [a[0]] + a[1..] && b == [b[0]] + b[1..];
    }
  }

  lemma {:induction false} BelowTransitive(a: seq<int>, b: seq<int>, c: seq<int>)
    requires Below(a, b) && Below(b, c)
    ensures Below(a, c)
  {
    if a != [] && a[0] == b[0] && b[0] == c[0] {
      BelowTransitive(a[1..], b[1..], c[1..]);
    }
  }

  lemma CodesInjective(a: string, b: string)
    requires Codes(a) == Codes(b)
    ensures a == b
  {
    assert |Codes(a)| == |a| && |Codes(b)| == |b|;
    forall i | 0 <= i < |a| ensures a[i] == b[i] {
      assert Codes(a)[i] == Codes(b)[i];
    }
  }

  /** Names are totally ordered. */
  lemma NamesTotal(a: string, b: string)
    ensures a == b || NameBelow(a, b) || NameBelow(b, a)
    ensures !(NameBelow(a, b) && NameBelow(b, a)) && !NameBelow(a, a)
  {
    BelowTrichotomy(Codes(a), Codes(b));
    BelowTrichotomy(Codes(a), Codes(a));
    if Codes(a) == Codes(b) {
      CodesInjective(a, b);
    }
  }

  lemma NamesTransitive(a: string, b: string, c: string)
    requires NameBelow(a, b) && NameBelow(b, c)
    ensures NameBelow(a, c)
  {
    BelowTransitive(Codes(a), Codes(b), Codes(c));
  }

  // ----- digests -----

  function Power(n: nat): (p: nat)
    ensures p > 0
  {
    if n == 0 then 1 else 256 * Power(n - 1)
  }

  /** Bytes read as a big-endian integer. */
  function BigEndian(b: seq<Byte>): nat {
    if b == [] then 0 else b[0] * Power(|b| - 1) + BigEndian(b[1..])
  }

  lemma {:induction false} Scaled(x: int, y: int, p: int)
    requires x < y && p > 0
    ensures x * p + p <= y * p
    decreases y - x
  {
    assert y * p == (y - 1) * p + p;
    if x + 1 < y {
      Scaled(x, y - 1, p);
    }
  }

  lemma {:induction false} BigEndianBound(b: seq<Byte>)
    ensures BigEndian(b) < Power(|b|)
  {
    if b != [] {
      BigEndianBound(b[1..]);
      Scaled(b[0], 256, Power(|b| - 1));
    }
  }

  /** One leading byte decides, or the rest does. */
  lemma LeadingByte(x: Byte, y: Byte, p: int, r: int, s: int)
    requires 0 <= r < p && 0 <= s < p
    ensures x * p + r < y * p + s <==> x < y || (x == y && r < s)
  {
    if x < y {
      Scaled(x, y, p);
    } else if y < x {
      Scaled(y, x, p);
    }
  }

  /** On digests of one length, raw byte order is big-endian integer order. */
  lemma {:induction false} ByteOrderIsNumeric(a: seq<Byte>, b: seq<Byte>)
    requires |a| == |b|
    ensures Below(a, b) <==> BigEndian(a) < BigEndian(b)
  {
    if a != [] {
      hide Power;
      ByteOrderIsNumeric(a[1..], b[1..]);
      BigEndianBound(a[1..]);
      BigEndianBound(b[1..]);
      LeadingByte(a[0], b[0], Power(|a| - 1), BigEndian(a[1..]), BigEndian(b[1..]));
    }
  }

  // ----- least and greatest -----

  /** `low` is the least of a set of names. */
  ghost predicate IsLeast(low: string, names: set<string>) {
    low in names && forall n :: n in names && n != low ==> NameBelow(low, n)
  }

  lemma LeastUnique(a: string, b: string, names: set<string>)
    requires IsLeast(a, names) && IsLeast(b, names)
    ensures a == b
  {
    NamesTotal(a, b);
  }

  /** The names in ascending order. */
  ghost predicate Ranked(out: seq<string>, names: set<string>) {
    && (forall i, j :: 0 <= i < j < |out| ==> NameBelow(out[i], out[j]))
    && (forall n :: n in names <==> n in out)
  }

  /** Sorting, by repeated selection of the least name. */
  method Sort(names: set<string>) returns (out: seq<string>)
    ensures Ranked(out, names)
    ensures |out| == |names|
  {
    out := [];
    var left := names;
    while left != {}
      invariant left <= names && |out| + |left| == |names|
      invariant forall i, j :: 0 <= i < j < |out| ==> NameBelow(out[i], out[j])
      invariant forall n :: n in names <==> n in out || n in left
      invariant forall i, n :: 0 <= i < |out| && n in left ==> NameBelow(out[i], n)
      decreases |left|
    {
      var low := Least(left);
      out := out + [low];
      left := left - {low};
    }
  }

  method Least(names: set<string>) returns (low: string)
    requires names != {}
    ensures IsLeast(low, names)
  {
    low :| low in names;
    var left := names - {low};
    while left != {}
      invariant left <= names && low in names && low !in left
      invariant forall n :: n in names && n !in left && n != low ==> NameBelow(low, n)
      decreases |left|
    {
      var n :| n in left;
      left := left - {n};
      NamesTotal(low, n);
      if NameBelow(n, low) {
        forall m | m in names && m !in left && m != n && m != low ensures NameBelow(n, m) {
          NamesTransitive(n, low, m);
        }
        low := n;
      }
    }
  }

  lemma {:induction false} LeastExists(names: set<string>)
    requires names != {}
    ensures exists low :: IsLeast(low, names)
  {
    var n :| n in names;
    var rest := names - {n};
    assert forall m :: m in names ==> m == n || m in rest;
    if rest == {} {
      assert IsLeast(n, names);
    } else {
      LeastExists(rest);
      var low :| IsLeast(low, rest);
      NamesTotal(low, n);
      if NameBelow(low, n) {
        assert IsLeast(low, names);
      } else {
        forall m | m in names && m != n ensures NameBelow(n, m) {
          if m != low {
            NamesTransitive(n, low, m);
          }
        }
        assert IsLeast(n, names);
      }
    }
  }

  ghost function LeastOf(names: set<string>): (low: string)
    requires names != {}
    ensures IsLeast(low, names)
  {
    LeastExists(names);
    var low :| IsLeast(low, names);
    low
  }

  /** The names of a set in ascending order. */
  ghost function Ascend(names: set<string>): (out: seq<string>)
    ensures Ranked(out, names) && |out| == |names|
  {
    if names == {} then []
    else
      var low := LeastOf(names);
      var rest := Ascend(names - {low});
      assert forall i :: 0 <= i < |rest| ==> rest[i] in names - {low};
      [low] + rest
  }

  lemma {:induction false} RankedUnique(a: seq<string>, b: seq<string>, names: set<string>)
    requires Ranked(a, names) && Ranked(b, names)
    ensures a == b
  {
    RankedEmpty(a, names);
    RankedEmpty(b, names);
    if a != [] {
      HeadIsLeast(a, names);
      HeadIsLeast(b, names);
      LeastUnique(a[0], b[0], names);
      TailRanked(a, names);
      TailRanked(b, names);
      RankedUnique(a[1..], b[1..], names - {a[0]});
      assert a == [a[0]] + a[1..] && b == [b[0]] + b[1..];
    }
  }

  lemma RankedEmpty(a: seq<string>, names: set<string>)
    requires Ranked(a, names)
    ensures a == [] <==> names == {}
  {
    assert a != [] ==> a[0] in a;
  }

  lemma HeadIsLeast(a: seq<string>, names: set<string>)
    requires Ranked(a, names) && a != []
    ensures IsLeast(a[0], names)
  {
    assert a[0] in a;
  }

  lemma TailRanked(a: seq<string>, names: set<string>)
    requires Ranked(a, names) && a != []
    ensures Ranked(a[1..], names - {a[0]})
  {
    forall n ensures n in names - {a[0]} <==> n in a[1..] {
      if n in a[1..] {
        var i :| 0 <= i < |a| - 1 && a[1..][i] == n;
        assert NameBelow(a[0], a[i + 1]);
        NamesTotal(a[0], n);
        assert n in a;
      }
    }
  }

  // ----- what the order of names means -----

  /** `k` is where `a` first falls short of `b`: its end, or a smaller character. */
  ghost predicate FallsShort(a: string, b: string, k: nat) {
    k <= |a| && k < |b| && a[..k] == b[..k] && (k == |a| || a[k] < b[k])
  }

  /** Names compare by the first character they differ in, a prefix before its extensions. */
  lemma {:induction false} NameBelowIs(a: string, b: string)
    ensures NameBelow(a, b) <==> exists k :: FallsShort(a, b, k)
  {
    if b != [] && a != [] && a[0] == b[0] {
      var x, y := a[1..], b[1..];
      NameBelowIs(x, y);
      assert Codes(a)[1..] == Codes(x) && Codes(b)[1..] == Codes(y);
      if k: nat :| FallsShort(x, y, k) {
        assert a[..k + 1] == [a[0]] + x[..k] && b[..k + 1] == [b[0]] + y[..k];
        assert FallsShort(a, b, k + 1);
      }
      if k: nat :| FallsShort(a, b, k) {
        assert k > 0;
        assert x[..k - 1] == a[..k][1..] && y[..k - 1] == b[..k][1..];
        assert FallsShort(x, y, k - 1);
      }
    } else if NameBelow(a, b) {
      assert FallsShort(a, b, 0);
    } else if k: nat :| FallsShort(a, b, k) {
      SharedHead(a, b, k);
    }
  }

  lemma SharedHead(a: string, b: string, k: nat)
    requires FallsShort(a, b, k)
    ensures k > 0 ==> a != [] && b != [] && a[0] == b[0]
  {
    if k > 0 {
      assert a[..k][0] == a[0] && b[..k][0] == b[0];
    }
  }
}
