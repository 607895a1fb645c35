/**
 The canonical text can be read back: with a writer whose tokens delimit
 themselves, two documents have one text only if they are one document, so two
 jobs have one canonical text exactly when they are the same job.
 */
module CanonicalText {
  import opened Ordering
  import opened Fingerprint

  /** What may follow a value inside a document, or nothing. */
  predicate Ends(u: string) {
    u == [] || u[0] == ',' || u[0] == ':' || u[0] == ']' || u[0] == '}'
  }

  predicate Opens(c: char) {
    c != '[' && c != '{' && c != ']' && c != '}'
  }

  /** On these leaves the writer's tokens are told apart by what they are, wherever a value may end. */
  ghost predicate Delimited(text: Writer, leaves: iset<Leaf>) {
    && (forall l :: l in leaves ==> text(l) != [] && Opens(text(l)[0]))
    && (forall a, b, u, v :: a in leaves && b in leaves && Ends(u) && Ends(v) && text(a) + u == text(b) + v ==> a == b)
  }

  /** Every scalar and every key of the document is among the leaves. */
  ghost predicate Within(j: Json, leaves: iset<Leaf>) {
    match j
    case Scalar(l) => l in leaves
    case Arr(items) => forall i :: 0 <= i < |items| ==> Within(items[i], leaves)
    case Obj(fields) => forall k :: k in fields ==> Text(k) in leaves && Within(fields[k], leaves)
  }

  lemma Token(text: Writer, leaves: iset<Leaf>, a: Leaf, b: Leaf, u: string, v: string)
    requires Delimited(text, leaves) && a in leaves && b in leaves && Ends(u) && Ends(v)
    requires text(a) + u == text(b) + v
    ensures a == b && u == v
  {
    assert (text(a) + u)[|text(a)|..] == u;
    assert a == b;
    assert (text(b) + v)[|text(b)|..] == v;
  }

  // ----- lists of parts -----

  /** The parts from `i` on, with commas between them and the closing bracket after. */
  function Rest(parts: seq<string>, i: nat, close: string): string
    decreases |parts| - i
  {
    if i >= |parts| then close
    else parts[i] + if i + 1 == |parts| then close else "," + Rest(parts, i + 1, close)
  }

  lemma {:induction false} RestIsJoin(parts: seq<string>, i: nat, close: string)
    requires i <= |parts|
    ensures Rest(parts, i, close) == Join(parts[i..]) + close
    decreases |parts| - i
  {
    if i < |parts| {
      if i + 1 == |parts| {
        assert parts[i..] == [parts[i]];
      } else {
        RestIsJoin(parts, i + 1, close);
        assert parts[i..] == [parts[i]] + parts[i + 1..];
        JoinAppend([parts[i]], parts[i + 1..]);
      }
    }
  }

  /** What follows part `i`. */
  function AfterPart(parts: seq<string>, i: nat, close: string): string {
    if i + 1 >= |parts| then close else "," + Rest(parts, i + 1, close)
  }

  lemma RestStep(parts: seq<string>, i: nat, close: string, u: string)
    requires i < |parts|
    ensures Rest(parts, i, close) + u == parts[i] + (AfterPart(parts, i, close) + u)
  {}

  /** How what follows a part starts, and how it goes on. */
  lemma AfterHead(p: seq<string>, i: nat, close: char, u: string)
    requires i < |p|
    ensures var x := AfterPart(p, i, [close]) + u;
            && x != [] && x[0] == (if i + 1 == |p| then close else ',')
            && x[1..] == if i + 1 == |p| then u else Rest(p, i + 1, [close]) + u
  {
    hide Rest;
    if i + 1 == |p| {
      assert ([close] + u)[1..] == u;
    } else {
      var r := Rest(p, i + 1, [close]);
      assert ("," + r + u)[1..] == r + u;
    }
  }

  /** Equal remainders both end here or both go on. */
  lemma AfterParts(p: seq<string>, q: seq<string>, i: nat, close: char, u: string, v: string)
    requires i < |p| && i < |q| && close != ','
    requires AfterPart(p, i, [close]) + u == AfterPart(q, i, [close]) + v
    ensures i + 1 == |p| <==> i + 1 == |q|
    ensures i + 1 == |p| ==> u == v
    ensures i + 1 < |p| ==> Rest(p, i + 1, [close]) + u == Rest(q, i + 1, [close]) + v
  {
    hide Rest;
    hide AfterPart;
    AfterHead(p, i, close, u);
    AfterHead(q, i, close, v);
  }

  lemma AfterEnds(p: seq<string>, i: nat, close: char, u: string)
    requires close == ']' || close == '}'
    ensures Ends(AfterPart(p, i, [close]) + u)
  {
    hide Rest;
  }

  /** Two lists that agree at `i` and after it agree from `i` on. */
  lemma Suffixes<T>(x: seq<T>, y: seq<T>, i: nat)
    requires i < |x| && i < |y| && x[i] == y[i] && x[i + 1..] == y[i + 1..]
    ensures x[i..] == y[i..]
  {
    assert x[i..] == [x[i]] + x[i + 1..] && y[i..] == [y[i]] + y[i + 1..];
  }

  // ----- the text of a value -----

  ghost function Items(text: Writer, items: seq<Json>): seq<string> {
    seq(|items|, i requires 0 <= i < |items| => Encode(text, items[i]))
  }

  lemma ArrText(text: Writer, items: seq<Json>)
    ensures Encode(text, Arr(items)) == "[" + Rest(Items(text, items), 0, "]")
  {
    var parts := Items(text, items);
    RestIsJoin(parts, 0, "]");
    assert parts[0..] == parts;
    assert parts == seq(|items|, i requires 0 <= i < |items| => Encode(text, items[i]));
  }

  lemma ObjText(text: Writer, fields: map<string, Json>)
    ensures Encode(text, Obj(fields)) == "{" + Rest(Parts(text, Obj(fields)), 0, "}")
  {
    var parts := Parts(text, Obj(fields));
    RestIsJoin(parts, 0, "}");
    assert parts[0..] == parts;
  }

  /** The first character tells the three kinds of value apart, and is no closing bracket. */
  lemma FirstChar(text: Writer, leaves: iset<Leaf>, j: Json)
    requires Delimited(text, leaves) && Within(j, leaves)
    ensures Encode(text, j) != []
    ensures match j
            case Scalar(_) => Opens(Encode(text, j)[0])
            case Arr(_) => Encode(text, j)[0] == '['
            case Obj(_) => Encode(text, j)[0] == '{'
  {}

  lemma SameStart(a: string, b: string, u: string, v: string)
    requires a != [] && b != [] && a + u == b + v
    ensures a[0] == b[0] && a[1..] + u == b[1..] + v
  {
    assert a[0] == (a + u)[0] && b[0] == (b + v)[0];
    assert (a + u)[1..] == a[1..] + u && (b + v)[1..] == b[1..] + v;
  }

  /** A text followed by something that may follow a value has one reading. */
  lemma {:induction false} ReadBack(text: Writer, leaves: iset<Leaf>, j: Json, k: Json, u: string, v: string)
    requires Delimited(text, leaves) && Within(j, leaves) && Within(k, leaves) && Ends(u) && Ends(v)
    requires Encode(text, j) + u == Encode(text, k) + v
    ensures j == k && u == v
    decreases j
  {
    FirstChar(text, leaves, j);
    FirstChar(text, leaves, k);
    SameStart(Encode(text, j), Encode(text, k), u, v);
    match j
    case Scalar(a) => Token(text, leaves, a, k.leaf, u, v);
    case Arr(x) =>
      hide Encode;
      hide Delimited;
      ArrText(text, x);
      ArrText(text, k.items);
      assert Encode(text, j)[1..] == Rest(Items(text, x), 0, "]");
      assert Encode(text, k)[1..] == Rest(Items(text, k.items), 0, "]");
      ReadItems(text, leaves, j, k, 0, u, v);
      assert x[0..] == x && k.items[0..] == k.items;
    case Obj(x) =>
      hide Encode;
      hide Delimited;
      ObjText(text, x);
      ObjText(text, k.fields);
      assert Encode(text, j)[1..] == Rest(Parts(text, j), 0, "}");
      assert Encode(text, k)[1..] == Rest(Parts(text, k), 0, "}");
      ReadPairs(text, leaves, j, k, 0, u, v);
      assert Keys(j)[0..] == Keys(j) && Keys(k)[0..] == Keys(k);
      SameFields(j, k);
  }

  /** The same, for the items of two arrays from `i` on. */
  lemma {:induction false} ReadItems(text: Writer, leaves: iset<Leaf>, j: Json, k: Json, i: nat, u: string, v: string)
    requires j.Arr? && k.Arr? && Delimited(text, leaves) && Within(j, leaves) && Within(k, leaves) && Ends(u) && Ends(v)
    requires i <= |j.items| && i <= |k.items| && (i > 0 ==> i < |j.items| && i < |k.items|)
    requires Rest(Items(text, j.items), i, "]") + u == Rest(Items(text, k.items), i, "]") + v
    ensures j.items[i..] == k.items[i..] && u == v
    decreases j, |j.items| - i
  {
    hide Encode;
    hide Delimited;
    hide Rest;
    hide AfterPart;
    hide Ends;
    var p, q := Items(text, j.items), Items(text, k.items);
    BothEnd(text, leaves, j.items, k.items, i, u, v);
    if i < |p| {
      RestStep(p, i, "]", u);
      RestStep(q, i, "]", v);
      AfterEnds(p, i, ']', u);
      AfterEnds(q, i, ']', v);
      ReadBack(text, leaves, j.items[i], k.items[i], AfterPart(p, i, "]") + u, AfterPart(q, i, "]") + v);
      AfterParts(p, q, i, ']', u, v);
      if i + 1 < |p| {
        ReadItems(text, leaves, j, k, i + 1, u, v);
      }
      Suffixes(j.items, k.items, i);
    }
  }

  /** No value starts like the end of a list. */
  lemma BothEnd(text: Writer, leaves: iset<Leaf>, x: seq<Json>, y: seq<Json>, i: nat, u: string, v: string)
    requires Delimited(text, leaves) && Within(Arr(x), leaves) && Within(Arr(y), leaves) && i <= |x| && i <= |y|
    requires Rest(Items(text, x), i, "]") + u == Rest(Items(text, y), i, "]") + v
    ensures i == |x| <==> i == |y|
    ensures i == |x| ==> u == v
  {
    hide Encode;
    ItemsStart(text, leaves, x, i, u);
    ItemsStart(text, leaves, y, i, v);
  }

  lemma ItemsStart(text: Writer, leaves: iset<Leaf>, x: seq<Json>, i: nat, u: string)
    requires Delimited(text, leaves) && Within(Arr(x), leaves) && i <= |x|
    ensures var t := Rest(Items(text, x), i, "]") + u;
            t != [] && (t[0] == ']' <==> i == |x|) && (i == |x| ==> t[1..] == u)
  {
    hide Encode;
    if i < |x| {
      FirstChar(text, leaves, x[i]);
    }
  }

  // ----- objects -----

  ghost function Keys(j: Json): (keys: seq<string>)
    requires j.Obj?
    ensures Ranked(keys, j.fields.Keys)
  {
    Ascend(j.fields.Keys)
  }

  /** The parts of an object's text. */
  ghost function Parts(text: Writer, j: Json): (p: seq<string>)
    requires j.Obj?
    ensures |p| == |Keys(j)|
  {
    Pairs(text, j, Keys(j))
  }

  lemma PartAt(text: Writer, leaves: iset<Leaf>, j: Json, i: nat)
    requires j.Obj? && Within(j, leaves) && i < |Keys(j)|
    ensures Keys(j)[i] in j.fields && Text(Keys(j)[i]) in leaves && Within(j.fields[Keys(j)[i]], leaves)
    ensures j.fields[Keys(j)[i]] < j
    ensures Parts(text, j)[i] == text(Text(Keys(j)[i])) + (":" + Encode(text, j.fields[Keys(j)[i]]))
  {
    hide Encode;
    hide Pairs;
    RankedMember(Keys(j), j.fields.Keys, i);
    PairAt(text, j.fields, Keys(j), i);
  }

  lemma PartsStart(text: Writer, leaves: iset<Leaf>, j: Json, i: nat, u: string)
    requires j.Obj? && Delimited(text, leaves) && Within(j, leaves) && i <= |Keys(j)|
    ensures var t := Rest(Parts(text, j), i, "}") + u;
            t != [] && (t[0] == '}' <==> i == |Keys(j)|) && (i == |Keys(j)| ==> t[1..] == u)
  {
    hide Encode;
    hide Parts;
    if i < |Keys(j)| {
      PartAt(text, leaves, j, i);
      assert text(Text(Keys(j)[i])) != [];
    }
  }

  /** One pair read: its key, its value and what follows. */
  lemma ReadPair(text: Writer, leaves: iset<Leaf>, a: string, b: string, x: string, y: string)
    requires Delimited(text, leaves) && Text(a) in leaves && Text(b) in leaves
    requires text(Text(a)) + (":" + x) == text(Text(b)) + (":" + y)
    ensures a == b && x == y
  {
    Token(text, leaves, Text(a), Text(b), ":" + x, ":" + y);
    assert (":" + x)[1..] == x && (":" + y)[1..] == y;
  }

  /** The pairs of two objects from `i` on have one reading. */
  lemma {:induction false} ReadPairs(text: Writer, leaves: iset<Leaf>, j: Json, k: Json, i: nat, u: string, v: string)
    requires j.Obj? && k.Obj? && Delimited(text, leaves) && Within(j, leaves) && Within(k, leaves) && Ends(u) && Ends(v)
    requires i <= |Keys(j)| && i <= |Keys(k)| && (i > 0 ==> i < |Keys(j)| && i < |Keys(k)|)
    requires Rest(Parts(text, j), i, "}") + u == Rest(Parts(text, k), i, "}") + v
    ensures Keys(j)[i..] == Keys(k)[i..] && u == v
    ensures forall n :: n in Keys(j)[i..] ==> n in j.fields && n in k.fields && j.fields[n] == k.fields[n]
    decreases j, |Keys(j)| - i
  {
    hide Encode;
    hide Delimited;
    hide Within;
    hide Parts;
    hide Keys;
    hide Rest;
    hide AfterPart;
    hide Ends;
    hide Ranked;
    var p, q := Parts(text, j), Parts(text, k);
    PartsStart(text, leaves, j, i, u);
    PartsStart(text, leaves, k, i, v);
    if i < |p| {
      var a, b := Keys(j)[i], Keys(k)[i];
      RestStep(p, i, "}", u);
      RestStep(q, i, "}", v);
      PartAt(text, leaves, j, i);
      PartAt(text, leaves, k, i);
      AfterEnds(p, i, '}', u);
      AfterEnds(q, i, '}', v);
      var r, s := AfterPart(p, i, "}") + u, AfterPart(q, i, "}") + v;
      var x, y := Encode(text, j.fields[a]), Encode(text, k.fields[b]);
      assert p[i] + r == text(Text(a)) + (":" + (x + r));
      assert q[i] + s == text(Text(b)) + (":" + (y + s));
      ReadPair(text, leaves, a, b, x + r, y + s);
      ReadBack(text, leaves, j.fields[a], k.fields[b], r, s);
      AfterParts(p, q, i, '}', u, v);
      if i + 1 < |p| {
        ReadPairs(text, leaves, j, k, i + 1, u, v);
      }
      Suffixes(Keys(j), Keys(k), i);
      assert Keys(j)[i..] == [a] + Keys(j)[i + 1..];
    }
  }

  lemma SameFields(j: Json, k: Json)
    requires j.Obj? && k.Obj? && Keys(j) == Keys(k)
    requires forall n :: n in Keys(j) ==> n in j.fields && n in k.fields && j.fields[n] == k.fields[n]
    ensures j == k
  {
    RankedKeys(Keys(j), j.fields.Keys);
    RankedKeys(Keys(k), k.fields.Keys);
    assert j.fields.Keys == k.fields.Keys;
    assert j.fields == k.fields;
  }

  // ----- the result -----

  /** Two documents have one text only if they are one document. */
  lemma EncodeInjective(text: Writer, leaves: iset<Leaf>, j: Json, k: Json)
    requires Delimited(text, leaves) && Within(j, leaves) && Within(k, leaves)
    ensures Encode(text, j) == Encode(text, k) <==> j == k
  {
    hide Encode;
    hide Delimited;
    hide Within;
    if Encode(text, j) == Encode(text, k) {
      ReadBack(text, leaves, j, k, "", "");
    }
  }

  /** A job's redacted document. */
  ghost function Redacted(redact: Redact, job: Job): Json {
    Obj(job.fields + map k | k in job.hooks :: Obj(redact(job.hooks[k].doc)))
  }

  /**
   Two jobs have one canonical text exactly when their redacted documents differ
   in nothing but how numbers are spelled; shared blocks and copies are alike.
   */
  lemma SameTextIsSameJob(text: Writer, redact: Redact, leaves: iset<Leaf>, a: Job, b: Job)
    requires Delimited(text, leaves)
    requires Within(Normalize(Redacted(redact, a)), leaves) && Within(Normalize(Redacted(redact, b)), leaves)
    ensures CanonicalText(text, redact, a.fields, a.hooks) == CanonicalText(text, redact, b.fields, b.hooks)
       <==> Same(Redacted(redact, a), Redacted(redact, b))
  {
    hide Encode;
    hide Normalize;
    hide Delimited;
    hide Within;
    hide Same;
    NormalizeIsSameness(Redacted(redact, a), Redacted(redact, b));
    EncodeInjective(text, leaves, Normalize(Redacted(redact, a)), Normalize(Redacted(redact, b)));
  }
}
