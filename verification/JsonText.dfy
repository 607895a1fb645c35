/**
 The tokens of the standard JSON encoder with ASCII output: quoted strings with
 their escapes, decimal integers, the three words. They delimit themselves, so
 what the canonical text says of jobs holds of the text the encoder writes.
 */
module JsonText {
  import opened Ordering
  import opened Fingerprint
  import opened CanonicalText

  // ----- strings -----

  const HEX := "0123456789abcdef"

  function Unhex(c: char): int {
    if '0' <= c <= '9' then c as int - '0' as int else c as int - 'a' as int + 10
  }

  lemma HexDigit(d: int)
    requires 0 <= d < 16
    ensures Unhex(HEX[d]) == d && ' ' <= HEX[d] <= '~'
  {}

  /** A code unit in four digits. */
  function Unit(n: int): (t: string)
    requires 0 <= n < 0x10000
    ensures |t| == 6
  {
    "\\u" + [HEX[n / 0x1000], HEX[n / 0x100 % 16], HEX[n / 16 % 16], HEX[n % 16]]
  }

  /** The code unit whose digits start at `i`. */
  function UnitAt(t: string, i: nat): int
    requires i + 4 <= |t|
  {
    Unhex(t[i]) * 0x1000 + Unhex(t[i + 1]) * 0x100 + Unhex(t[i + 2]) * 16 + Unhex(t[i + 3])
  }

  lemma UnitReads(n: int, x: string)
    requires 0 <= n < 0x10000
    ensures UnitAt(Unit(n) + x, 2) == n
  {
    HexDigit(n / 0x1000);
    HexDigit(n / 0x100 % 16);
    HexDigit(n / 16 % 16);
    HexDigit(n % 16);
    var t := Unit(n) + x;
    assert t[2] == Unit(n)[2] && t[3] == Unit(n)[3] && t[4] == Unit(n)[4] && t[5] == Unit(n)[5];
    FourDigits(n);
  }

  lemma FourDigits(n: int)
    requires 0 <= n < 0x10000
    ensures n == n / 0x1000 * 0x1000 + n / 0x100 % 16 * 0x100 + n / 16 % 16 * 16 + n % 16
  {
    assert n / 0x1000 == n / 0x100 / 16 && n / 0x100 == n / 16 / 16;
  }

  const SHORT: map<char, char> :=
    map['"' := '"', '\\' := '\\', '\n' := 'n', '\r' := 'r', '\t' := 't', '\U{8}' := 'b', '\U{c}' := 'f']

  const LONG: map<char, int> :=
    map['"' := 0x22, '\\' := 0x5c, 'n' := 0xa, 'r' := 0xd, 't' := 9, 'b' := 8, 'f' := 0xc]

  /** One character of a string, as the encoder writes it. */
  function Escape(c: char): (t: string)
    ensures t != [] && t[0] != '"'
  {
    var n := c as int;
    if c in SHORT then ['\\', SHORT[c]]
    else if ' ' <= c <= '~' then [c]
    else if n < 0x10000 then Unit(n)
    else Unit(0xd800 + (n - 0x10000) / 0x400) + Unit(0xdc00 + (n - 0x10000) % 0x400)
  }

  /** The code of the first character written in a text. */
  function FirstCode(t: string): int {
    if t == [] then 0
    else if t[0] != '\\' then t[0] as int
    else if |t| < 2 then 0
    else if t[1] in LONG then LONG[t[1]]
    else if |t| < 6 then 0
    else
      var high := UnitAt(t, 2);
      if high < 0xd800 || 0xdc00 <= high || |t| < 12 then high
      else 0x10000 + (high - 0xd800) * 0x400 + (UnitAt(t, 8) - 0xdc00)
  }

  /** Reading undoes escaping, whatever follows. */
  lemma EscapeReads(c: char, x: string)
    ensures FirstCode(Escape(c) + x) == c as int
  {
    hide Unit;
    hide UnitAt;
    var n := c as int;
    var t := Escape(c) + x;
    assert t[0] == Escape(c)[0];
    if c in SHORT {
      assert t[1] == SHORT[c];
    } else if !(' ' <= c <= '~') {
      if n < 0x10000 {
        UnitStarts(n, x);
        UnitReads(n, x);
      } else {
        PairReads(n, x);
      }
    }
  }

  lemma UnitStarts(n: int, x: string)
    requires 0 <= n < 0x10000
    ensures var t := Unit(n) + x; t[0] == '\\' && t[1] == 'u'
  {}

  lemma PairReads(n: int, x: string)
    requires 0x10000 <= n < 0x110000
    ensures FirstCode(Unit(0xd800 + (n - 0x10000) / 0x400) + Unit(0xdc00 + (n - 0x10000) % 0x400) + x) == n
  {
    hide FirstCode;
    hide Unit;
    UnitsRead(0xd800 + (n - 0x10000) / 0x400, 0xdc00 + (n - 0x10000) % 0x400, x);
  }

  lemma UnitsRead(a: int, b: int, x: string)
    requires 0xd800 <= a < 0xdc00 <= b < 0xe000
    ensures FirstCode(Unit(a) + Unit(b) + x) == 0x10000 + (a - 0xd800) * 0x400 + (b - 0xdc00)
  {
    hide Unit;
    hide UnitAt;
    var t := Unit(a) + Unit(b) + x;
    assert t == Unit(a) + (Unit(b) + x);
    UnitStarts(a, Unit(b) + x);
    UnitReads(a, Unit(b) + x);
    UnitReads(b, x);
    SecondUnit(Unit(a), Unit(b) + x);
  }

  lemma SecondUnit(a: string, rest: string)
    requires |a| == 6 && |rest| >= 6
    ensures UnitAt(a + rest, 8) == UnitAt(rest, 2)
  {
    assert forall i :: 0 <= i < 6 ==> (a + rest)[6 + i] == rest[i];
  }

  function Escaped(s: string): string {
    if s == [] then [] else Escape(s[0]) + Escaped(s[1..])
  }

  /** A quoted string ends at its closing quote and nowhere else. */
  lemma {:induction false} QuotedReads(s: string, t: string, u: string, v: string)
    requires Escaped(s) + ("\"" + u) == Escaped(t) + ("\"" + v)
    ensures s == t
  {
    hide Escape;
    var x, y := "\"" + u, "\"" + v;
    QuoteOrMore(s, u);
    QuoteOrMore(t, v);
    if s != [] {
      var p, q := Escaped(s[1..]) + x, Escaped(t[1..]) + y;
      EscapeReads(s[0], p);
      EscapeReads(t[0], q);
      SameRest(Escape(s[0]), p, q);
      QuotedReads(s[1..], t[1..], u, v);
      assert s == [s[0]] + s[1..] && t == [t[0]] + t[1..];
    }
  }

  lemma QuoteOrMore(s: string, u: string)
    ensures var t := Escaped(s) + ("\"" + u);
            && t != [] && (t[0] == '"' <==> s == [])
            && (s != [] ==> t == Escape(s[0]) + (Escaped(s[1..]) + ("\"" + u)))
  {
    hide Escape;
  }

  lemma SameRest(a: string, p: string, q: string)
    requires a + p == a + q
    ensures p == q
  {
    assert (a + p)[|a|..] == p && (a + q)[|a|..] == q;
  }

  // ----- numbers -----

  function Digits(n: nat): string {
    if n < 10 then [HEX[n]] else Digits(n / 10) + [HEX[n % 10]]
  }

  function Decimal(n: int): string {
    if n < 0 then "-" + Digits(-n) else Digits(n)
  }

  function Value(t: string): int {
    if t == [] then 0 else Value(t[..|t| - 1]) * 10 + Unhex(t[|t| - 1])
  }

  predicate Digit(c: char) {
    '0' <= c <= '9'
  }

  lemma {:induction false} DigitsRead(n: nat)
    ensures Value(Digits(n)) == n && Digits(n) != [] && forall i :: 0 <= i < |Digits(n)| ==> Digit(Digits(n)[i])
  {
    HexDigit(n % 10);
    if n < 10 {
      assert Digits(n)[..0] == [];
    } else {
      DigitsRead(n / 10);
      assert Digits(n)[..|Digits(n)| - 1] == Digits(n / 10);
    }
  }

  lemma DecimalReads(a: int, b: int)
    requires Decimal(a) == Decimal(b)
    ensures a == b
  {
    hide Digits;
    hide Value;
    hide Decimal;
    DecimalSign(a);
    DecimalSign(b);
    DigitsRead(if a < 0 then -a else a);
    DigitsRead(if b < 0 then -b else b);
  }

  lemma DecimalSign(n: int)
    ensures Decimal(n) != [] && (Decimal(n)[0] == '-' <==> n < 0)
    ensures if n < 0 then Decimal(n)[1..] == Digits(-n) else Decimal(n) == Digits(n)
  {
    hide Digits;
    DigitsRead(if n < 0 then -n else n);
  }

  /** What a number is written with. */
  predicate NumberChar(c: char) {
    Digit(c) || c == '-' || c == '+' || c == '.' || c == 'e'
  }

  predicate NumberText(t: string) {
    t != [] && (t[0] == '-' || Digit(t[0])) && forall i :: 0 <= i < |t| ==> NumberChar(t[i])
  }

  /** A fraction shows a point or an exponent, so it is no integer's text. */
  predicate FractionText(t: string) {
    NumberText(t) && exists i :: 0 <= i < |t| && (t[i] == '.' || t[i] == 'e')
  }

  lemma DecimalIsNumber(n: int)
    ensures NumberText(Decimal(n)) && !FractionText(Decimal(n))
  {
    DigitsRead(if n < 0 then -n else n);
  }

  /** Two numbers before something that may follow a value are one text. */
  lemma NumberEnds(p: string, q: string, u: string, v: string)
    requires NumberText(p) && NumberText(q) && Ends(u) && Ends(v) && p + u == q + v
    ensures p == q
  {
    NoLonger(p, q, u, v);
    NoLonger(q, p, v, u);
    assert (p + u)[..|p|] == p && (q + v)[..|q|] == q;
  }

  lemma NoLonger(p: string, q: string, u: string, v: string)
    requires NumberText(q) && Ends(u) && p + u == q + v
    ensures |q| <= |p|
  {
    if |p| < |q| {
      GoesOn(p, q, u, v);
    }
  }

  lemma GoesOn(p: string, q: string, u: string, v: string)
    requires p + u == q + v && |p| < |q|
    ensures u != [] && u[0] == q[|p|]
  {
    assert (p + u)[|p|] == (q + v)[|p|] == q[|p|];
  }

  // ----- the writer -----

  /** How the encoder spells a fraction. */
  type Spelling = real -> string

  function LeafText(num: Spelling, l: Leaf): string {
    match l
    case Null => "null"
    case Bool(b) => if b then "true" else "false"
    case Int(n) => Decimal(n)
    case Float(r) => num(r)
    case Text(s) => "\"" + (Escaped(s) + "\"")
  }

  function JsonWriter(num: Spelling): Writer {
    (l: Leaf) => LeafText(num, l)
  }

  /** These fractions are told apart, and written as fractions. */
  ghost predicate Spelled(num: Spelling, floats: set<real>) {
    && (forall r :: r in floats ==> FractionText(num(r)))
    && (forall r, s :: r in floats && s in floats && num(r) == num(s) ==> r == s)
  }

  /** Every leaf that is no fraction, and these fractions. */
  ghost function Spellable(floats: set<real>): iset<Leaf> {
    iset l: Leaf | l.Float? ==> l.r in floats
  }

  lemma NumberLeaf(num: Spelling, floats: set<real>, l: Leaf)
    requires Spelled(num, floats) && l in Spellable(floats) && (l.Int? || l.Float?)
    ensures NumberText(LeafText(num, l)) && (l.Int? <==> !FractionText(LeafText(num, l)))
  {
    if l.Int? {
      DecimalIsNumber(l.n);
    }
  }

  /** Each kind of leaf starts in its own way. */
  lemma LeafStart(num: Spelling, floats: set<real>, l: Leaf)
    requires Spelled(num, floats) && l in Spellable(floats)
    ensures var t := LeafText(num, l);
            && t != [] && Opens(t[0])
            && (t[0] == 'n' <==> l.Null?) && (t[0] == '"' <==> l.Text?)
            && (t[0] == 't' <==> l == Bool(true)) && (t[0] == 'f' <==> l == Bool(false))
  {
    if l.Int? || l.Float? {
      NumberLeaf(num, floats, l);
    }
  }

  lemma LeafEnds(num: Spelling, floats: set<real>, a: Leaf, b: Leaf, u: string, v: string)
    requires Spelled(num, floats) && a in Spellable(floats) && b in Spellable(floats) && Ends(u) && Ends(v)
    requires LeafText(num, a) + u == LeafText(num, b) + v
    ensures a == b
  {
    hide Escaped;
    hide Decimal;
    var x, y := LeafText(num, a), LeafText(num, b);
    LeafStart(num, floats, a);
    LeafStart(num, floats, b);
    assert (x + u)[0] == x[0] && (y + v)[0] == y[0];
    if a.Text? {
      assert (x + u)[1..] == Escaped(a.s) + ("\"" + u);
      assert (y + v)[1..] == Escaped(b.s) + ("\"" + v);
      QuotedReads(a.s, b.s, u, v);
    } else if a.Int? || a.Float? {
      NumberLeaf(num, floats, a);
      NumberLeaf(num, floats, b);
      NumberEnds(x, y, u, v);
      if a.Int? {
        DecimalReads(a.n, b.n);
      }
    }
  }

  /** The encoder's tokens delimit themselves, on all strings, integers and words, and the fractions told apart. */
  lemma JsonDelimits(num: Spelling, floats: set<real>)
    requires Spelled(num, floats)
    ensures Delimited(JsonWriter(num), Spellable(floats))
  {
    hide LeafText;
    hide Spelled;
    hide Spellable;
    hide Ends;
    hide Opens;
    var text, leaves := JsonWriter(num), Spellable(floats);
    forall l | l in leaves ensures text(l) != [] && Opens(text(l)[0]) {
      LeafStart(num, floats, l);
    }
    forall a, b, u, v | a in leaves && b in leaves && Ends(u) && Ends(v) && text(a) + u == text(b) + v ensures a == b {
      LeafEnds(num, floats, a, b, u, v);
    }
  }

  /** Two jobs are written as one JSON text exactly when they are the same job. */
  lemma SameJsonIsSameJob(num: Spelling, floats: set<real>, redact: Redact, a: Job, b: Job)
    requires Spelled(num, floats) && Within(Normalize(Redacted(redact, a)), Spellable(floats))
    requires Within(Normalize(Redacted(redact, b)), Spellable(floats))
    ensures var text := JsonWriter(num);
            Fingerprint.CanonicalText(text, redact, a.fields, a.hooks)
            == Fingerprint.CanonicalText(text, redact, b.fields, b.hooks)
            <==> Same(Redacted(redact, a), Redacted(redact, b))
  {
    hide Encode;
    hide Normalize;
    hide Delimited;
    hide Within;
    hide Same;
    hide Spelled;
    JsonDelimits(num, floats);
    SameTextIsSameJob(JsonWriter(num), redact, Spellable(floats), a, b);
  }

  /** Whatever a string holds, its text is printable ASCII. */
  lemma {:induction false} EscapedIsAscii(s: string, i: nat)
    requires i < |Escaped(s)|
    ensures ' ' <= Escaped(s)[i] <= '~'
    decreases |s|
  {
    var t := Escape(s[0]);
    if i < |t| {
      EscapeIsAscii(s[0], i);
    } else {
      EscapedIsAscii(s[1..], i - |t|);
    }
  }

  lemma EscapeIsAscii(c: char, i: nat)
    requires i < |Escape(c)|
    ensures ' ' <= Escape(c)[i] <= '~'
  {
    hide Unit;
    var n := c as int;
    if c !in SHORT && !(' ' <= c <= '~') {
      if n < 0x10000 {
        UnitIsAscii(n, i);
      } else if i < 6 {
        UnitIsAscii(0xd800 + (n - 0x10000) / 0x400, i);
      } else {
        UnitIsAscii(0xdc00 + (n - 0x10000) % 0x400, i - 6);
      }
    }
  }

  lemma UnitIsAscii(n: int, i: nat)
    requires 0 <= n < 0x10000 && i < 6
    ensures ' ' <= Unit(n)[i] <= '~'
  {
    HexDigit(n / 0x1000);
    HexDigit(n / 0x100 % 16);
    HexDigit(n / 16 % 16);
    HexDigit(n % 16);
  }

  /** A spelling that tells its one fraction apart. */
  lemma HalfIsSpelled()
    ensures Spelled(_ => "0.5", {0.5})
  {
    assert "0.5"[1] == '.';
  }

  // ----- texts written out -----

  lemma JoinTwo(a: string, b: string)
    ensures Join([a, b]) == a + "," + b
  {
    assert Join([a]) == a;
    assert [a, b][..|[a, b]| - 1] == [a];
  }

  lemma TwoItems(text: Writer, x: Json, y: Json)
    ensures Encode(text, Arr([x, y])) == "[" + (Encode(text, x) + "," + Encode(text, y)) + "]"
  {
    hide Join;
    var items := [x, y];
    JoinTwo(Encode(text, x), Encode(text, y));
    assert seq(|items|, i requires 0 <= i < |items| => Encode(text, items[i])) == [Encode(text, x), Encode(text, y)];
  }

  lemma TwoPairs(text: Writer, j: Json, a: string, x: Json, b: string, y: Json)
    requires a != b && j == Obj(map[b := y, a := x])
    ensures Pairs(text, j, [a, b]) == [text(Text(a)) + ":" + Encode(text, x), text(Text(b)) + ":" + Encode(text, y)]
  {
    hide Encode;
  }

  lemma TwoKeys(a: string, b: string)
    requires NameBelow(a, b)
    ensures a != b && Ascend({a, b}) == [a, b]
  {
    hide NameBelow;
    hide Ascend;
    NamesTotal(a, b);
    RankedUnique([a, b], Ascend({a, b}), {a, b});
  }

  /** The lower key first, whatever the order of the fields. */
  lemma TwoFields(text: Writer, a: string, x: Json, b: string, y: Json)
    requires NameBelow(a, b)
    ensures Encode(text, Obj(map[b := y, a := x]))
         == "{" + (text(Text(a)) + ":" + Encode(text, x) + "," + (text(Text(b)) + ":" + Encode(text, y))) + "}"
  {
    hide NameBelow;
    hide Ascend;
    hide Pairs;
    hide Join;
    var j := Obj(map[b := y, a := x]);
    assert j.fields.Keys == {a, b};
    TwoKeys(a, b);
    TwoPairs(text, j, a, x, b, y);
    JoinTwo(text(Text(a)) + ":" + Encode(text, x), text(Text(b)) + ":" + Encode(text, y));
  }

  lemma ShortTexts(num: Spelling)
    ensures LeafText(num, Text("a")) == "\"a\"" && LeafText(num, Text("x\n")) == "\"x\\n\""
    ensures LeafText(num, Int(-10)) == "-10"
  {
    assert "a"[1..] == "" && "\n"[1..] == "" && "x\n"[1..] == "\n";
    assert Escaped("\n") == "\\n";
    assert Digits(1) == "1";
  }

  /** The seven short escapes, by code. */
  lemma ShortEscapes()
    ensures Escape(34 as char) == ['\\', '"'] && Escape(92 as char) == ['\\', '\\']
    ensures Escape(8 as char) == "\\b" && Escape(9 as char) == "\\t" && Escape(10 as char) == "\\n"
    ensures Escape(12 as char) == "\\f" && Escape(13 as char) == "\\r"
  {}
}
