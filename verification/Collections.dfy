/** Facts about finite collections that several components share. */
module Collections {
  function AsSet<T(==)>(s: seq<T>): set<T> {
    set t | t in s
  }

  lemma {:induction false} SubsetCount<T>(a: set<T>, b: set<T>)
    requires a <= b
    ensures |a| <= |b|
  {
    if x :| x in a {
      SubsetCount(a - {x}, b - {x});
    }
  }
}
