/**
 The job-set fingerprint: one canonical text per job, a digest of each, and an
 id over the sorted digests. The memoised and spliced path gives the text the
 plain path gives, whatever was hashed before.
 */
module Fingerprint {
  import opened Options
  import opened Collections
  import opened Ordering

  datatype Leaf = Null | Bool(b: bool) | Int(n: int) | Float(r: real) | Text(s: string)
  datatype Json = Scalar(leaf: Leaf) | Arr(items: seq<Json>) | Obj(fields: map<string, Json>)

  /** How a scalar, and so a key, is written. */
  type Writer = Leaf -> string

  // ----- the canonical text -----

  function JoinWith(sep: string, parts: seq<string>): string {
    if |parts| == 0 then ""
    else if |parts| == 1 then parts[0]
    else JoinWith(sep, parts[..|parts| - 1]) + sep + parts[|parts| - 1]
  }

  function Join(parts: seq<string>): string {
    JoinWith(",", parts)
  }

  /** Key and value of each listed key. */
  ghost function Pairs(text: Writer, j: Json, keys: seq<string>): (r: seq<string>)
    requires j.Obj?
    ensures |r| == |keys|
    decreases j, 0
  {
    seq(|keys|, i requires 0 <= i < |keys| =>
      if keys[i] in j.fields then text(Text(keys[i])) + ":" + Encode(text, j.fields[keys[i]]) else "")
  }

  /** The whole-object text: compact separators, keys sorted. */
  ghost function Encode(text: Writer, j: Json): string
    decreases j, 1
  {
    match j
    case Scalar(leaf) => text(leaf)
    case Arr(items) => "[" + Join(seq(|items|, i requires 0 <= i < |items| => Encode(text, items[i]))) + "]"
    case Obj(fields) => "{" + Join(Pairs(text, j, Ascend(fields.Keys))) + "}"
  }

  lemma {:induction false} JoinAppend(a: seq<string>, b: seq<string>)
    requires a != [] && b != []
    ensures Join(a + b) == Join(a) + "," + Join(b)
  {
    var n := |a + b|;
    assert (a + b)[n - 1] == b[|b| - 1];
    if |b| == 1 {
      assert (a + b)[..n - 1] == a;
    } else {
      var c := b[..|b| - 1];
      assert (a + b)[..n - 1] == a + c;
      JoinAppend(a, c);
      assert Join(a + b) == (Join(a) + "," + Join(c)) + "," + b[|b| - 1];
      assert Join(b) == Join(c) + "," + b[|b| - 1];
    }
  }

  /** The encoder. */
  method Serialize(text: Writer, j: Json) returns (out: string)
    ensures out == Encode(text, j)
    decreases j, 1
  {
    hide Ranked;
    hide Pairs;
    match j
    case Scalar(leaf) => out := text(leaf);
    case Arr(items) =>
      var parts := SerializeItems(text, j);
      out := "[" + Join(parts) + "]";
    case Obj(fields) =>
      var keys := Sort(fields.Keys);
      RankedUnique(keys, Ascend(fields.Keys), fields.Keys);
      RankedKeys(keys, fields.Keys);
      var parts := SerializePairs(text, j, keys);
      out := "{" + Join(parts) + "}";
  }

  method SerializeItems(text: Writer, j: Json) returns (parts: seq<string>)
    requires j.Arr?
    ensures parts == seq(|j.items|, i requires 0 <= i < |j.items| => Encode(text, j.items[i]))
    decreases j, 0
  {
    hide Encode;
    parts := [];
    for i := 0 to |j.items|
      invariant |parts| == i && forall k :: 0 <= k < i ==> parts[k] == Encode(text, j.items[k])
    {
      var part := Serialize(text, j.items[i]);
      parts := parts + [part];
    }
  }

  method SerializePairs(text: Writer, j: Json, keys: seq<string>) returns (parts: seq<string>)
    requires j.Obj? && forall k :: k in keys ==> k in j.fields
    ensures parts == Pairs(text, j, keys)
    decreases j, 0
  {
    hide Encode;
    parts := [];
    for i := 0 to |keys|
      invariant |parts| == i && forall k :: 0 <= k < i ==> parts[k] == Pairs(text, j, keys)[k]
    {
      assert keys[i] in keys;
      var part := Serialize(text, j.fields[keys[i]]);
      parts := parts + [text(Text(keys[i])) + ":" + part];
    }
  }

  // ----- numbers -----

  predicate Whole(r: real) {
    r == r.Floor as real
  }

  function NormalizeLeaf(l: Leaf): Leaf {
    if l.Float? && Whole(l.r) then Int(l.r.Floor) else l
  }

  /** A whole-number float becomes the int of the same value, everywhere. */
  function Normalize(j: Json): Json {
    match j
    case Scalar(leaf) => Scalar(NormalizeLeaf(leaf))
    case Arr(items) => Arr(seq(|items|, i requires 0 <= i < |items| => Normalize(items[i])))
    case Obj(fields) => Obj(map k | k in fields :: Normalize(fields[k]))
  }

  predicate Number(l: Leaf) {
    l.Int? || l.Float?
  }

  function Value(l: Leaf): real
    requires Number(l)
  {
    if l.Int? then l.n as real else l.r
  }

  predicate SameLeaf(a: Leaf, b: Leaf) {
    a == b || (Number(a) && Number(b) && Value(a) == Value(b))
  }

  /** Equal but for how a number is spelled. */
  ghost predicate Same(a: Json, b: Json) {
    match (a, b)
    case (Scalar(x), Scalar(y)) => SameLeaf(x, y)
    case (Arr(x), Arr(y)) => |x| == |y| && forall i :: 0 <= i < |x| ==> Same(x[i], y[i])
    case (Obj(x), Obj(y)) => x.Keys == y.Keys && forall k :: k in x ==> Same(x[k], y[k])
    case _ => false
  }

  lemma NormalizeLeafIsSameness(a: Leaf, b: Leaf)
    ensures SameLeaf(a, b) <==> NormalizeLeaf(a) == NormalizeLeaf(b)
  {
    if a.Int? {
      assert (a.n as real).Floor == a.n;
    }
    if b.Int? {
      assert (b.n as real).Floor == b.n;
    }
  }

  /** Normalising forgets exactly the spelling of numbers. */
  lemma {:induction false} NormalizeIsSameness(a: Json, b: Json)
    ensures Same(a, b) <==> Normalize(a) == Normalize(b)
  {
    match (a, b)
    case (Scalar(x), Scalar(y)) => NormalizeLeafIsSameness(x, y);
    case (Arr(x), Arr(y)) =>
      if |x| == |y| {
        forall i | 0 <= i < |x| ensures Same(x[i], y[i]) <==> Normalize(x[i]) == Normalize(y[i]) {
          NormalizeIsSameness(x[i], y[i]);
        }
      }
      var p, q := Normalize(a).items, Normalize(b).items;
      assert forall i :: 0 <= i < |x| ==> p[i] == Normalize(x[i]);
      assert forall i :: 0 <= i < |y| ==> q[i] == Normalize(y[i]);
      assert p == q <==> |p| == |q| && forall i :: 0 <= i < |p| ==> p[i] == q[i];
    case (Obj(x), Obj(y)) =>
      forall k | k in x && k in y ensures Same(x[k], y[k]) <==> Normalize(x[k]) == Normalize(y[k]) {
        NormalizeIsSameness(x[k], y[k]);
      }
      var p, q := Normalize(a).fields, Normalize(b).fields;
      assert p.Keys == x.Keys && q.Keys == y.Keys;
      assert p == q <==> p.Keys == q.Keys && forall k :: k in p ==> p[k] == q[k];
    case _ =>
  }

  /** No float is left that an int could spell. */
  ghost predicate Normal(j: Json) {
    match j
    case Scalar(leaf) => leaf.Float? ==> leaf.r.Floor as real != leaf.r
    case Arr(items) => forall i :: 0 <= i < |items| ==> Normal(items[i])
    case Obj(fields) => forall k :: k in fields ==> Normal(fields[k])
  }

  /** The normal form spells every whole number as an int, and changes nothing else. */
  lemma {:induction false} NormalizeIsNormal(j: Json)
    ensures Normal(Normalize(j)) && Same(j, Normalize(j))
  {
    match j
    case Scalar(leaf) =>
    case Arr(items) =>
      forall i | 0 <= i < |items| ensures Normal(Normalize(items[i])) && Same(items[i], Normalize(items[i])) {
        NormalizeIsNormal(items[i]);
      }
    case Obj(fields) =>
      forall k | k in fields ensures Normal(Normalize(fields[k])) && Same(fields[k], Normalize(fields[k])) {
        NormalizeIsNormal(fields[k]);
      }
  }

  // ----- shared hook blocks -----

  /** A config subtree that jobs may share; nothing writes to it. */
  class Block {
    const doc: map<string, Json>

    constructor (doc: map<string, Json>)
      ensures this.doc == doc
    {
      this.doc := doc;
    }
  }

  predicate IsHook(key: string) {
    key in {"onFailure", "onPermanentFailure", "onSuccess"}
  }

  /** The document a job's own fields and its hook blocks make up. */
  function Document(fields: map<string, Json>, hooks: map<string, Block>): map<string, Json> {
    fields + map k | k in hooks :: Obj(hooks[k].doc)
  }

  lemma DocumentParts(fields: map<string, Json>, hooks: map<string, Block>)
    ensures Document(fields, hooks).Keys == fields.Keys + hooks.Keys
    ensures forall k :: k in fields && k !in hooks ==> Document(fields, hooks)[k] == fields[k]
    ensures forall k :: k in hooks ==> Document(fields, hooks)[k] == Obj(hooks[k].doc)
  {}

  lemma DocumentAt(fields: map<string, Json>, hooks: map<string, Block>, key: string)
    requires key in Document(fields, hooks)
    requires (forall k :: k in fields ==> !IsHook(k)) && forall k :: k in hooks ==> IsHook(k)
    ensures IsHook(key) ==> key in hooks && Document(fields, hooks)[key] == Obj(hooks[key].doc)
    ensures !IsHook(key) ==> key in fields && Document(fields, hooks)[key] == fields[key]
  {
    hide IsHook;
  }

  /** Redacting one hook block, whatever the rule. */
  type Redact = map<string, Json> -> map<string, Json>

  /** The plain path: redact, assemble, normalise, write. */
  ghost function CanonicalText(text: Writer, redact: Redact, fields: map<string, Json>,
                               hooks: map<string, Block>)
      : string
  {
    Encode(text, Normalize(Obj(fields + map k | k in hooks :: Obj(redact(hooks[k].doc)))))
  }

  // ----- runs of keys -----

  /** A contiguous run of sorted keys, written as an object of its own, is that stretch of the whole object. */
  lemma RunText(text: Writer, doc: map<string, Json>, keys: seq<string>, a: nat, b: nat, run: map<string, Json>)
    requires Ranked(keys, doc.Keys) && a <= b <= |keys|
    requires IsRun(doc, keys, a, b, run)
    ensures Encode(text, Obj(run)) == "{" + Join(Pairs(text, Obj(doc), keys)[a..b]) + "}"
  {
    hide Pairs;
    var part := keys[a..b];
    RankedSlice(keys, doc.Keys, a, b, run.Keys);
    RankedUnique(part, Ascend(run.Keys), run.Keys);
    PairsSlice(text, doc, keys, a, b, run);
  }

  lemma RankedSlice(keys: seq<string>, names: set<string>, a: nat, b: nat, part: set<string>)
    requires Ranked(keys, names) && a <= b <= |keys| && part == set k | k in keys[a..b]
    ensures Ranked(keys[a..b], part)
  {
    hide NameBelow;
  }

  lemma PairsSlice(text: Writer, doc: map<string, Json>, keys: seq<string>, a: nat, b: nat, run: map<string, Json>)
    requires a <= b <= |keys| && IsRun(doc, keys, a, b, run)
    ensures Pairs(text, Obj(run), keys[a..b]) == Pairs(text, Obj(doc), keys)[a..b]
  {
    hide Encode;
    hide Pairs;
    hide IsRun;
    var part := keys[a..b];
    var p, q := Pairs(text, Obj(run), part), Pairs(text, Obj(doc), keys)[a..b];
    forall i | 0 <= i < b - a ensures p[i] == q[i] {
      RunMember(doc, keys, a, b, run, i);
      PairAt(text, run, part, i);
      PairAt(text, doc, keys, a + i);
    }
  }

  lemma RunMember(doc: map<string, Json>, keys: seq<string>, a: nat, b: nat, run: map<string, Json>, i: nat)
    requires a <= b <= |keys| && IsRun(doc, keys, a, b, run) && i < b - a
    ensures keys[a..b][i] == keys[a + i] && keys[a + i] in run && keys[a + i] in doc
    ensures run[keys[a + i]] == doc[keys[a + i]]
  {
    assert keys[a..b][i] in keys[a..b];
  }

  /** `run` holds the keys from `a` to `b`. */
  ghost predicate IsRun(doc: map<string, Json>, keys: seq<string>, a: nat, b: nat, run: map<string, Json>)
    requires a <= b <= |keys|
  {
    run.Keys == (set k | k in keys[a..b]) && forall k :: k in run ==> k in doc && run[k] == doc[k]
  }

  lemma RunGrows(doc: map<string, Json>, keys: seq<string>, a: nat, b: nat, run: map<string, Json>)
    requires a <= b < |keys| && IsRun(doc, keys, a, b, run) && keys[b] in doc
    ensures IsRun(doc, keys, a, b + 1, run[keys[b] := doc[keys[b]]])
  {
    assert keys[a..b + 1] == keys[a..b] + [keys[b]];
  }

  lemma EmptyRun(doc: map<string, Json>, keys: seq<string>, a: nat)
    requires a <= |keys|
    ensures IsRun(doc, keys, a, a, map[])
  {
    assert keys[a..a] == [];
  }

  lemma RunNonEmpty(doc: map<string, Json>, keys: seq<string>, a: nat, b: nat, run: map<string, Json>)
    requires a <= b <= |keys| && IsRun(doc, keys, a, b, run)
    ensures run == map[] <==> a == b
  {
    if a < b {
      assert keys[a] in keys[a..b];
      assert keys[a] in run;
    } else {
      assert keys[a..b] == [];
      assert run.Keys == {};
    }
  }

  lemma RankedKeys(keys: seq<string>, names: set<string>)
    requires Ranked(keys, names)
    ensures forall k :: k in keys <==> k in names
  {}

  lemma RankedMember(keys: seq<string>, names: set<string>, i: nat)
    requires Ranked(keys, names) && i < |keys|
    ensures keys[i] in names
  {
    assert keys[i] in keys;
  }

  lemma PairAt(text: Writer, doc: map<string, Json>, keys: seq<string>, i: nat)
    requires i < |keys| && keys[i] in doc
    ensures Pairs(text, Obj(doc), keys)[i] == text(Text(keys[i])) + ":" + Encode(text, doc[keys[i]])
  {}

  lemma NothingWritten(pairs: seq<string>)
    ensures Written([], pairs, 0)
  {}

  lemma WholeText(text: Writer, doc: map<string, Json>, keys: seq<string>, parts: seq<string>)
    requires Ranked(keys, doc.Keys)
    requires Written(parts, Pairs(text, Obj(doc), keys), |keys|)
    ensures Encode(text, Obj(doc)) == "{" + Join(parts) + "}"
  {
    hide Pairs;
    RankedUnique(keys, Ascend(doc.Keys), doc.Keys);
    assert Pairs(text, Obj(doc), keys)[..|keys|] == Pairs(text, Obj(doc), keys);
  }

  /** `parts` joined is the first `a` pairs joined. */
  ghost predicate Written(parts: seq<string>, pairs: seq<string>, a: nat)
    requires a <= |pairs|
  {
    (parts == [] <==> a == 0) && Join(parts) == Join(pairs[..a])
  }

  lemma WriteMore(parts: seq<string>, pairs: seq<string>, a: nat, b: nat, part: string)
    requires a < b <= |pairs| && Written(parts, pairs, a) && part == Join(pairs[a..b])
    ensures Written(parts + [part], pairs, b)
  {
    assert pairs[..b] == pairs[..a] + pairs[a..b];
    if a == 0 {
      assert parts + [part] == [part];
    } else {
      JoinAppend(pairs[..a], pairs[a..b]);
      JoinAppend(parts, [part]);
    }
  }

  // ----- the memo -----

  /** Tables keyed by the identity of a block; the table itself keeps each block alive. */
  class Memo {
    const text: Writer
    const redact: Redact
    var redacted: map<Block, Block>
    var normalized: map<Block, Block>
    var fragments: map<Block, Option<string>>

    ghost predicate Valid()
      reads this
    {
      && (forall b :: b in redacted ==> redacted[b].doc == redact(b.doc) && redacted[b] in normalized)
      && (forall b :: b in normalized ==> Obj(normalized[b].doc) == Normalize(Obj(b.doc)))
      && forall b :: b in fragments && fragments[b].Some? ==> fragments[b].value == Encode(text, Obj(b.doc))
    }

    constructor (text: Writer, redact: Redact)
      ensures Valid() && this.text == text && this.redact == redact
    {
      this.text, this.redact := text, redact;
      redacted, normalized, fragments := map[], map[], map[];
    }

    /** The redacted copy of a hook block, made once per block, with its normal form. */
    method RedactAction(action: Block) returns (out: Block)
      requires Valid()
      modifies this`redacted, this`normalized
      ensures Valid() && out.doc == redact(action.doc) && out in normalized
    {
      if action in redacted {
        return redacted[action];
      }
      out := new Block(redact(action.doc));
      var norm := new Block(Normalize(Obj(out.doc)).fields);
      redacted := redacted[action := out];
      normalized := normalized[out := norm];
    }

    /** The text of a block, kept from its second sighting on. */
    method HookFragment(block: Block) returns (fragment: string)
      requires Valid()
      modifies this`fragments
      ensures Valid() && fragment == Encode(text, Obj(block.doc))
    {
      hide Encode;
      hide Normalize;
      if block in fragments && fragments[block].Some? {
        return fragments[block].value;
      }
      fragment := Serialize(text, Obj(block.doc));
      fragments := fragments[block := if block in fragments then Some(fragment) else None];
    }

    /** Splicing cached fragments between encoded runs gives the whole object's text. */
    method SplicedText(fields: map<string, Json>, hooks: map<string, Block>) returns (out: string)
      requires Valid()
      requires (forall k :: k in fields ==> !IsHook(k)) && forall k :: k in hooks ==> IsHook(k)
      modifies this`fragments
      ensures Valid() && out == Encode(text, Obj(Document(fields, hooks)))
    {
      hide Encode;
      hide Ranked;
      hide Pairs;
      hide Valid;
      hide Written;
      hide Document;
      hide JoinWith;
      ghost var doc := Document(fields, hooks);
      DocumentParts(fields, hooks);
      var keys := Sort(fields.Keys + hooks.Keys);
      RankedKeys(keys, doc.Keys);
      var parts := Splice(fields, hooks, keys);
      out := "{" + Join(parts) + "}";
      WholeText(text, doc, keys, parts);
    }

    method Splice(fields: map<string, Json>, hooks: map<string, Block>, keys: seq<string>) returns (parts: seq<string>)
      requires Valid() && Ranked(keys, Document(fields, hooks).Keys)
      requires (forall k :: k in fields ==> !IsHook(k)) && forall k :: k in hooks ==> IsHook(k)
      modifies this`fragments
      ensures Valid() && Written(parts, Pairs(text, Obj(Document(fields, hooks)), keys), |keys|)
    {
      hide Encode;
      hide Ranked;
      hide Pairs;
      hide Valid;
      hide Written;
      hide IsRun;
      hide IsHook;
      hide Document;
      ghost var doc := Document(fields, hooks);
      NothingWritten(Pairs(text, Obj(doc), keys));
      EmptyRun(doc, keys, 0);
      parts := [];
      var run: map<string, Json> := map[];
      ghost var a: nat := 0;
      for i := 0 to |keys|
        invariant Valid() && a <= i && Written(parts, Pairs(text, Obj(doc), keys), a)
        invariant IsRun(doc, keys, a, i, run)
      {
        RankedMember(keys, doc.Keys, i);
        DocumentAt(fields, hooks, keys[i]);
        if !IsHook(keys[i]) {
          RunGrows(doc, keys, a, i, run);
          run := run[keys[i] := fields[keys[i]]];
        } else {
          parts := SpliceHook(doc, keys, a, i, keys[i], hooks[keys[i]], run, parts);
          EmptyRun(doc, keys, i + 1);
          run, a := map[], i + 1;
        }
      }
      parts := Flush(doc, keys, a, |keys|, run, parts);
    }

    /** Appends one hook pair after the run before it. */
    method SpliceHook(ghost doc: map<string, Json>, ghost keys: seq<string>, ghost a: nat, ghost i: nat,
                      key: string, block: Block, run: map<string, Json>, parts: seq<string>)
        returns (more: seq<string>)
      requires Valid() && Ranked(keys, doc.Keys) && a <= i < |keys| && IsRun(doc, keys, a, i, run)
      requires Written(parts, Pairs(text, Obj(doc), keys), a)
      requires key == keys[i] && key in doc && doc[key] == Obj(block.doc)
      modifies this`fragments
      ensures Valid() && Written(more, Pairs(text, Obj(doc), keys), i + 1)
    {
      hide Encode;
      hide Pairs;
      hide Ranked;
      hide Written;
      hide IsRun;
      hide Valid;
      ghost var pairs := Pairs(text, Obj(doc), keys);
      more := Flush(doc, keys, a, i, run, parts);
      var fragment := HookFragment(block);
      var part := text(Text(key)) + ":" + fragment;
      PairAt(text, doc, keys, i);
      assert pairs[i..i + 1] == [part];
      WriteMore(more, pairs, i, i + 1, part);
      more := more + [part];
    }

    /** Ends the current run of keys, if there is one. */
    method Flush(ghost doc: map<string, Json>, ghost keys: seq<string>, ghost a: nat, ghost b: nat,
                 run: map<string, Json>, parts: seq<string>) returns (more: seq<string>)
      requires Ranked(keys, doc.Keys) && a <= b <= |keys| && IsRun(doc, keys, a, b, run)
      requires Written(parts, Pairs(text, Obj(doc), keys), a)
      ensures Written(more, Pairs(text, Obj(doc), keys), b)
    {
      hide Encode;
      hide Pairs;
      hide Ranked;
      hide Written;
      more := parts;
      if run != map[] {
        var body := Serialize(text, Obj(run));
        RunText(text, doc, keys, a, b, run);
        RunNonEmpty(doc, keys, a, b, run);
        WriteMore(parts, Pairs(text, Obj(doc), keys), a, b, body[1..|body| - 1]);
        more := parts + [body[1..|body| - 1]];
      } else {
        RunNonEmpty(doc, keys, a, b, run);
      }
    }

    /** With the memo: the same text as without it. */
    method CanonicalBytes(fields: map<string, Json>, hooks: map<string, Block>) returns (out: string)
      requires Valid()
      requires (forall k :: k in fields ==> !IsHook(k)) && forall k :: k in hooks ==> IsHook(k)
      modifies this
      ensures Valid() && out == CanonicalText(text, redact, fields, hooks)
    {
      hide Encode;
      hide Normalize;
      var norm := NormalHooks(hooks);
      NormalizeObj(fields);
      var plain := Normalize(Obj(fields)).fields;
      out := SplicedText(plain, norm);
      NormalDocument(fields, hooks, norm, redact);
    }

    method NormalHook(action: Block) returns (norm: Block)
      requires Valid()
      modifies this`redacted, this`normalized
      ensures Valid() && Obj(norm.doc) == Normalize(Obj(redact(action.doc)))
    {
      hide Encode;
      hide Normalize;
      var out := RedactAction(action);
      norm := normalized[out];
    }

    method NormalHooks(hooks: map<string, Block>) returns (norm: map<string, Block>)
      requires Valid()
      modifies this`redacted, this`normalized
      ensures Valid() && norm.Keys == hooks.Keys
      ensures forall k :: k in norm ==> Obj(norm[k].doc) == Normalize(Obj(redact(hooks[k].doc)))
    {
      hide Encode;
      hide Valid;
      hide Normalize;
      norm := map[];
      var left := hooks.Keys;
      while left != {}
        invariant Valid() && left <= hooks.Keys && norm.Keys == hooks.Keys - left
        invariant forall k :: k in norm ==> Obj(norm[k].doc) == Normalize(Obj(redact(hooks[k].doc)))
        decreases |left|
      {
        var k :| k in left;
        left := left - {k};
        var block := NormalHook(hooks[k]);
        norm := norm[k := block];
      }
    }
  }

  lemma NormalizeObj(fields: map<string, Json>)
    ensures Normalize(Obj(fields)).Obj? && Normalize(Obj(fields)).fields.Keys == fields.Keys
    ensures forall k :: k in fields ==> Normalize(Obj(fields)).fields[k] == Normalize(fields[k])
  {}

  /** Normalising hook by hook and the rest apart is normalising the whole. */
  lemma NormalDocument(fields: map<string, Json>, hooks: map<string, Block>, norm: map<string, Block>, redact: Redact)
    requires norm.Keys == hooks.Keys && Normalize(Obj(fields)).Obj?
    requires forall k :: k in norm ==> Obj(norm[k].doc) == Normalize(Obj(redact(hooks[k].doc)))
    ensures Obj(Document(Normalize(Obj(fields)).fields, norm))
         == Normalize(Obj(fields + map k | k in hooks :: Obj(redact(hooks[k].doc))))
  {
    hide Normalize;
    var whole := fields + map k | k in hooks :: Obj(redact(hooks[k].doc));
    NormalizeObj(fields);
    NormalizeObj(whole);
    var p, q := Document(Normalize(Obj(fields)).fields, norm), Normalize(Obj(whole)).fields;
    assert p.Keys == q.Keys;
    assert forall k :: k in p ==> p[k] == q[k];
    assert p == q;
  }

  // ----- the job-set id -----

  const SCHEME := "v1"
  const DIGEST_LENGTH := 64

  /** SHA-256 in hexadecimal. */
  type Sha = string -> string

  /** Digests have one length. */
  ghost predicate FixedLength(sha: Sha) {
    forall a :: |sha(a)| == DIGEST_LENGTH
  }

  /** No two of these strings share a digest. */
  ghost predicate TellsApart(sha: Sha, strings: set<string>) {
    forall a, b :: a in strings && b in strings && sha(a) == sha(b) ==> a == b
  }

  predicate Ascending(s: seq<string>) {
    forall i, j :: 0 <= i < j < |s| ==> !NameBelow(s[j], s[i])
  }

  function Insert(s: seq<string>, x: string): (r: seq<string>)
    ensures multiset(r) == multiset(s) + multiset{x}
  {
    if s == [] || !NameBelow(s[0], x) then [x] + s
    else
      assert s == [s[0]] + s[1..];
      [s[0]] + Insert(s[1..], x)
  }

  lemma {:induction false} InsertAscends(s: seq<string>, x: string)
    requires Ascending(s)
    ensures Ascending(Insert(s, x))
  {
    if s == [] || !NameBelow(s[0], x) {
      HeadFirst(x, s);
    } else {
      InsertAscends(s[1..], x);
      var r := Insert(s[1..], x);
      forall j | 0 <= j < |r| ensures !NameBelow(r[j], s[0]) {
        assert r[j] in multiset(r);
        assert r[j] == x || r[j] in s[1..];
        NamesTotal(s[0], x);
      }
    }
  }

  /** A name at or below the head of an ascending list is at or below all of it. */
  lemma HeadFirst(x: string, s: seq<string>)
    requires Ascending(s) && (s == [] || !NameBelow(s[0], x))
    ensures Ascending([x] + s)
  {
    var r := [x] + s;
    forall i, j | 0 <= i < j < |r| ensures !NameBelow(r[j], r[i]) {
      if i == 0 && j > 1 && NameBelow(s[j - 1], x) {
        NamesTotal(s[0], s[j - 1]);
        NamesTotal(s[0], x);
        if NameBelow(s[0], s[j - 1]) {
          NamesTransitive(s[0], s[j - 1], x);
        }
      }
    }
  }

  function Sorted(s: seq<string>): (r: seq<string>)
    ensures multiset(r) == multiset(s)
  {
    if s == [] then []
    else
      assert s == s[..|s| - 1] + [s[|s| - 1]];
      Insert(Sorted(s[..|s| - 1]), s[|s| - 1])
  }

  lemma {:induction false} SortedAscends(s: seq<string>)
    ensures Ascending(Sorted(s))
  {
    if s != [] {
      SortedAscends(s[..|s| - 1]);
      InsertAscends(Sorted(s[..|s| - 1]), s[|s| - 1]);
    }
  }

  lemma SameElement(a: seq<string>, b: seq<string>)
    requires multiset(a) == multiset(b) && a != []
    ensures a[0] in b
  {
    assert a[0] in multiset(a);
  }

  lemma TailElements(a: seq<string>)
    requires a != []
    ensures multiset(a[1..]) == multiset(a) - multiset{a[0]}
  {
    assert a == [a[0]] + a[1..];
  }

  lemma SameSize(a: seq<string>, b: seq<string>)
    requires multiset(a) == multiset(b)
    ensures |a| == |b|
  {
    assert |multiset(a)| == |a| && |multiset(b)| == |b|;
  }

  /** An ascending list is determined by its elements. */
  lemma {:induction false} AscendingUnique(a: seq<string>, b: seq<string>)
    requires Ascending(a) && Ascending(b) && multiset(a) == multiset(b)
    ensures a == b
  {
    SameSize(a, b);
    if a != [] {
      SameElement(a, b);
      SameElement(b, a);
      HeadsMeet(a, b);
      TailElements(a);
      TailElements(b);
      AscendingUnique(a[1..], b[1..]);
      assert a == [a[0]] + a[1..] && b == [b[0]] + b[1..];
    }
  }

  lemma HeadsMeet(a: seq<string>, b: seq<string>)
    requires Ascending(a) && Ascending(b) && a != [] && b != [] && a[0] in b && b[0] in a
    ensures a[0] == b[0]
  {
    NamesTotal(a[0], b[0]);
    var i :| 0 <= i < |b| && b[i] == a[0];
    var j :| 0 <= j < |a| && a[j] == b[0];
    assert i > 0 ==> !NameBelow(b[i], b[0]);
    assert j > 0 ==> !NameBelow(a[j], a[0]);
  }

  function Digests(sha: Sha, texts: seq<string>): seq<string> {
    seq(|texts|, i requires 0 <= i < |texts| => sha(texts[i]))
  }

  /** What the id is the digest of. */
  function Combined(digests: seq<string>): string {
    SCHEME + "\n" + JoinWith("\n", Sorted(digests))
  }

  function SetId(sha: Sha, digests: seq<string>): string {
    SCHEME + ":" + sha(Combined(digests))
  }

  lemma DigestsStep(sha: Sha, texts: seq<string>, t: string)
    ensures multiset(Digests(sha, texts + [t])) == multiset(Digests(sha, texts)) + multiset{sha(t)}
    ensures multiset(Digests(sha, [t] + texts)) == multiset(Digests(sha, texts)) + multiset{sha(t)}
  {
    assert Digests(sha, texts + [t]) == Digests(sha, texts) + [sha(t)];
    assert Digests(sha, [t] + texts) == [sha(t)] + Digests(sha, texts);
  }

  lemma {:induction false} DigestsOfInsert(sha: Sha, s: seq<string>, x: string)
    ensures multiset(Digests(sha, Insert(s, x))) == multiset(Digests(sha, s)) + multiset{sha(x)}
  {
    hide Digests;
    hide NameBelow;
    if s == [] || !NameBelow(s[0], x) {
      DigestsStep(sha, s, x);
    } else {
      DigestsOfInsert(sha, s[1..], x);
      DigestsStep(sha, Insert(s[1..], x), s[0]);
      DigestsStep(sha, s[1..], s[0]);
      assert s == [s[0]] + s[1..];
    }
  }

  lemma {:induction false} DigestsOfSorted(sha: Sha, s: seq<string>)
    ensures multiset(Digests(sha, Sorted(s))) == multiset(Digests(sha, s))
  {
    if s == [] {
      assert Digests(sha, Sorted(s)) == Digests(sha, s);
    } else {
      var rest, last := s[..|s| - 1], s[|s| - 1];
      DigestsOfSorted(sha, rest);
      DigestsOfInsert(sha, Sorted(rest), last);
      DigestsStep(sha, rest, last);
      assert s == rest + [last];
    }
  }

  /** The id does not see the order of the jobs, whatever the digest function. */
  lemma OrderIsInvisible(sha: Sha, a: seq<string>, b: seq<string>)
    requires multiset(a) == multiset(b)
    ensures SetId(sha, Digests(sha, a)) == SetId(sha, Digests(sha, b))
  {
    SortedAscends(a);
    SortedAscends(b);
    AscendingUnique(Sorted(a), Sorted(b));
    DigestsOfSorted(sha, a);
    DigestsOfSorted(sha, b);
    var p, q := Digests(sha, a), Digests(sha, b);
    SortedAscends(p);
    SortedAscends(q);
    AscendingUnique(Sorted(p), Sorted(q));
  }

  /** A digest occurs as often as its text. */
  lemma {:induction false} DigestCount(sha: Sha, texts: seq<string>, t: string)
    requires TellsApart(sha, AsSet(texts) + {t})
    ensures multiset(Digests(sha, texts))[sha(t)] == multiset(texts)[t]
  {
    if texts == [] {
      assert Digests(sha, texts) == [];
    } else {
      var rest, last := texts[..|texts| - 1], texts[|texts| - 1];
      assert texts == rest + [last];
      assert last in AsSet(texts) && AsSet(rest) <= AsSet(texts);
      DigestCount(sha, rest, t);
      DigestsStep(sha, rest, last);
    }
  }

  lemma DigestsDecide(sha: Sha, a: seq<string>, b: seq<string>)
    requires TellsApart(sha, AsSet(a) + AsSet(b))
    requires multiset(Digests(sha, a)) == multiset(Digests(sha, b))
    ensures multiset(a) == multiset(b)
  {
    forall t ensures multiset(a)[t] == multiset(b)[t] {
      if t in a || t in b {
        DigestCount(sha, a, t);
        DigestCount(sha, b, t);
      }
    }
  }

  lemma {:induction false} JoinLength(parts: seq<string>)
    requires parts != [] && forall p :: p in parts ==> |p| == DIGEST_LENGTH
    ensures |JoinWith("\n", parts)| == |parts| * (DIGEST_LENGTH + 1) - 1
  {
    if |parts| > 1 {
      var rest := parts[..|parts| - 1];
      assert parts[|parts| - 1] in parts;
      JoinLength(rest);
    } else {
      assert parts[0] in parts;
    }
  }

  /** The last line and the lines before it. */
  lemma JoinSplits(parts: seq<string>)
    requires |parts| > 1 && |parts[|parts| - 1]| == DIGEST_LENGTH
    ensures var j, n := JoinWith("\n", parts), |parts| - 1;
            |j| > DIGEST_LENGTH && j[|j| - DIGEST_LENGTH..] == parts[n]
            && j[..|j| - DIGEST_LENGTH - 1] == JoinWith("\n", parts[..n])
  {}

  lemma SameCount(a: seq<string>, b: seq<string>)
    requires forall p :: p in a ==> |p| == DIGEST_LENGTH
    requires forall p :: p in b ==> |p| == DIGEST_LENGTH
    requires |JoinWith("\n", a)| == |JoinWith("\n", b)|
    ensures |a| == |b|
  {
    if a != [] {
      JoinLength(a);
    }
    if b != [] {
      JoinLength(b);
    }
  }

  /** Lines of one length can be read back. */
  lemma {:induction false} JoinInjective(a: seq<string>, b: seq<string>)
    requires forall p :: p in a ==> |p| == DIGEST_LENGTH
    requires forall p :: p in b ==> |p| == DIGEST_LENGTH
    requires JoinWith("\n", a) == JoinWith("\n", b)
    ensures a == b
  {
    SameCount(a, b);
    var n := |a| - 1;
    if n > 0 {
      hide JoinWith;
      assert a[n] in a && b[n] in b;
      JoinSplits(a);
      JoinSplits(b);
      JoinInjective(a[..n], b[..n]);
      assert a == a[..n] + [a[n]] && b == b[..n] + [b[n]];
    }
  }

  lemma SortedLengths(sha: Sha, texts: seq<string>)
    requires FixedLength(sha)
    ensures forall d :: d in Sorted(Digests(sha, texts)) ==> |d| == DIGEST_LENGTH
  {
    var p := Digests(sha, texts);
    forall d | d in Sorted(p) ensures |d| == DIGEST_LENGTH {
      assert d in multiset(Sorted(p)) && d in multiset(p);
    }
  }

  lemma SameCombined(p: seq<string>, q: seq<string>)
    requires Combined(p) == Combined(q)
    ensures JoinWith("\n", Sorted(p)) == JoinWith("\n", Sorted(q))
  {
    assert Combined(p)[3..] == JoinWith("\n", Sorted(p)) && Combined(q)[3..] == JoinWith("\n", Sorted(q));
  }

  /**
   Two job sets share an id exactly when they hold the same canonical texts, in
   any order, each as often, for a digest that tells the strings at hand apart.
   */
  lemma SetIdIsMultiset(sha: Sha, a: seq<string>, b: seq<string>)
    requires FixedLength(sha) && TellsApart(sha, AsSet(a) + AsSet(b))
    requires TellsApart(sha, {Combined(Digests(sha, a)), Combined(Digests(sha, b))})
    ensures SetId(sha, Digests(sha, a)) == SetId(sha, Digests(sha, b)) <==> multiset(a) == multiset(b)
  {
    hide Combined;
    var p, q := Digests(sha, a), Digests(sha, b);
    if multiset(a) == multiset(b) {
      OrderIsInvisible(sha, a, b);
    }
    if SetId(sha, p) == SetId(sha, q) {
      assert SetId(sha, p)[3..] == sha(Combined(p)) && SetId(sha, q)[3..] == sha(Combined(q));
      SameCombined(p, q);
      SortedLengths(sha, a);
      SortedLengths(sha, b);
      JoinInjective(Sorted(p), Sorted(q));
      assert multiset(p) == multiset(Sorted(p)) == multiset(q);
      DigestsDecide(sha, a, b);
    }
  }

  /** A digest for example's sake: the last character, 64 times over. */
  function LastChar(x: string): string {
    seq(DIGEST_LENGTH, i => if x == [] then '0' else x[|x| - 1])
  }

  lemma LastCharTells(x: string, y: string)
    requires x != [] && y != [] && LastChar(x) == LastChar(y)
    ensures x[|x| - 1] == y[|y| - 1]
  {
    assert LastChar(x)[0] == LastChar(y)[0];
  }

  lemma CombinedLast(sha: Sha, texts: seq<string>)
    requires FixedLength(sha) && |texts| == 1
    ensures Combined(Digests(sha, texts)) == SCHEME + "\n" + sha(texts[0])
  {
    var p := Digests(sha, texts);
    assert p == [sha(texts[0])] && p[..0] == [];
    assert Sorted(p) == [sha(texts[0])];
  }

  /** The premise can be met: two one-job sets, told apart. */
  lemma TwoSetsApart()
    ensures FixedLength(LastChar) && TellsApart(LastChar, AsSet(["p"]) + AsSet(["q"]))
    ensures TellsApart(LastChar, {Combined(Digests(LastChar, ["p"])), Combined(Digests(LastChar, ["q"]))})
    ensures SetId(LastChar, Digests(LastChar, ["p"])) != SetId(LastChar, Digests(LastChar, ["q"]))
  {
    hide Combined;
    CombinedLast(LastChar, ["p"]);
    CombinedLast(LastChar, ["q"]);
    var x, y := Combined(Digests(LastChar, ["p"])), Combined(Digests(LastChar, ["q"]));
    assert x[|x| - 1] == 'p' && y[|y| - 1] == 'q';
    assert LastChar(x) != LastChar(y) by {
      if LastChar(x) == LastChar(y) {
        LastCharTells(x, y);
      }
    }
    assert LastChar("p") != LastChar("q") by {
      if LastChar("p") == LastChar("q") {
        LastCharTells("p", "q");
      }
    }
    SetIdIsMultiset(LastChar, ["p"], ["q"]);
    assert multiset(["p"])["p"] == 1 && multiset(["q"])["p"] == 0;
  }

  /** A job: its own canonical fields and its shared hook blocks. */
  datatype Job = Job(fields: map<string, Json>, hooks: map<string, Block>)

  ghost predicate WellFormed(job: Job) {
    (forall k :: k in job.fields ==> !IsHook(k)) && forall k :: k in job.hooks ==> IsHook(k)
  }

  ghost function Texts(text: Writer, redact: Redact, jobs: seq<Job>): seq<string> {
    seq(|jobs|, i requires 0 <= i < |jobs| => CanonicalText(text, redact, jobs[i].fields, jobs[i].hooks))
  }

  /** A job's text does not tell a shared block from an equal copy, nor one spelling of a number from another. */
  lemma SharingIsInvisible(text: Writer, redact: Redact, a: Job, b: Job)
    requires Same(Obj(a.fields + map k | k in a.hooks :: Obj(redact(a.hooks[k].doc))),
                  Obj(b.fields + map k | k in b.hooks :: Obj(redact(b.hooks[k].doc))))
    ensures CanonicalText(text, redact, a.fields, a.hooks) == CanonicalText(text, redact, b.fields, b.hooks)
  {
    hide Same;
    hide Normalize;
    hide Encode;
    NormalizeIsSameness(Obj(a.fields + map k | k in a.hooks :: Obj(redact(a.hooks[k].doc))),
                        Obj(b.fields + map k | k in b.hooks :: Obj(redact(b.hooks[k].doc))));
  }

  /** One memo for the whole set; the id is that of the plain texts. */
  method JobSetId(sha: Sha, text: Writer, redact: Redact, jobs: seq<Job>) returns (id: string)
    requires forall i :: 0 <= i < |jobs| ==> WellFormed(jobs[i])
    ensures id == SetId(sha, Digests(sha, Texts(text, redact, jobs)))
  {
    hide CanonicalText;
    hide Encode;
    var memo := new Memo(text, redact);
    var digests: seq<string> := [];
    for i := 0 to |jobs|
      invariant memo.Valid() && fresh(memo) && memo.text == text && memo.redact == redact
      invariant |digests| == i
      invariant forall k :: 0 <= k < i ==> digests[k] == sha(CanonicalText(text, redact, jobs[k].fields, jobs[k].hooks))
    {
      hide memo.Valid;
      var body := memo.CanonicalBytes(jobs[i].fields, jobs[i].hooks);
      digests := digests + [sha(body)];
    }
    assert digests == Digests(sha, Texts(text, redact, jobs));
    id := SetId(sha, digests);
  }
}
