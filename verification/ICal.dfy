/**
 The text layer of the calendar feed: TEXT escaping (section 3.3.11 of RFC 5545)
 and line folding (section 3.1), each with the reader that undoes it.
 */
module ICal {
  // ----- escaping -----

  /** Left-to-right replacement of one character. */
  function Replace(s: string, c: char, to: string): string {
    if s == [] then [] else (if s[0] == c then to else [s[0]]) + Replace(s[1..], c, to)
  }

  predicate StartsCrLf(s: string) {
    |s| >= 2 && s[0] == '\r' && s[1] == '\n'
  }

  /** Left-to-right replacement of CR LF pairs. */
  function ReplaceCrLf(s: string, to: string): string {
    if s == [] then []
    else if StartsCrLf(s) then to + ReplaceCrLf(s[2..], to)
    else [s[0]] + ReplaceCrLf(s[1..], to)
  }

  function Specials(s: string): string {
    Replace(Replace(Replace(s, '\\', "\\\\"), ';', "\\;"), ',', "\\,")
  }

  /** Backslash first, then the specials, then the line breaks. */
  function Escape(s: string): string {
    Lone(ReplaceCrLf(Specials(s), "\\n"))
  }

  /** The last two passes, once CR LF pairs are gone. */
  function Lone(s: string): string {
    Replace(Replace(s, '\n', "\\n"), '\r', "\\n")
  }

  /** What a reader makes of escaped TEXT. */
  function Unescape(s: string): string {
    if s == [] then []
    else if s[0] == '\\' && |s| >= 2 then
      [if s[1] == 'n' || s[1] == 'N' then '\n' else s[1]] + Unescape(s[2..])
    else [s[0]] + Unescape(s[1..])
  }

  /** Every line break read as LF. */
  function Breaks(s: string): string {
    if s == [] then []
    else if StartsCrLf(s) then ['\n'] + Breaks(s[2..])
    else [if s[0] == '\r' then '\n' else s[0]] + Breaks(s[1..])
  }

  /** One character's escape. */
  function EscapeChar(c: char): string {
    if c == '\\' then "\\\\"
    else if c == ';' then "\\;"
    else if c == ',' then "\\,"
    else if c == '\n' || c == '\r' then "\\n"
    else [c]
  }

  lemma {:induction false} ReplaceConcat(a: string, b: string, c: char, to: string)
    ensures Replace(a + b, c, to) == Replace(a, c, to) + Replace(b, c, to)
  {
    if a == [] {
      assert a + b == b;
    } else {
      assert (a + b)[1..] == a[1..] + b;
      ReplaceConcat(a[1..], b, c, to);
    }
  }

  lemma SpecialsConcat(a: string, b: string)
    ensures Specials(a + b) == Specials(a) + Specials(b)
  {
    ReplaceConcat(a, b, '\\', "\\\\");
    ReplaceConcat(Replace(a, '\\', "\\\\"), Replace(b, '\\', "\\\\"), ';', "\\;");
    ReplaceConcat(Replace(Replace(a, '\\', "\\\\"), ';', "\\;"),
                  Replace(Replace(b, '\\', "\\\\"), ';', "\\;"), ',', "\\,");
  }

  lemma One(c: char, d: char, to: string)
    ensures Replace([c], d, to) == if c == d then to else [c]
  {
    assert Replace([c][1..], d, to) == [];
  }

  lemma Two(c: char, e: char, d: char, to: string)
    ensures Replace([c, e], d, to) == (if c == d then to else [c]) + (if e == d then to else [e])
  {
    assert [c, e] == [c] + [e];
    ReplaceConcat([c], [e], d, to);
    One(c, d, to);
    One(e, d, to);
  }

  /** The first three passes escape the specials and leave line breaks alone. */
  lemma SpecialsChar(c: char)
    ensures Specials([c]) == if c == '\n' || c == '\r' then [c] else EscapeChar(c)
  {
    One(c, '\\', "\\\\");
    if c == '\\' {
      Two('\\', '\\', ';', "\\;");
      Two('\\', '\\', ',', "\\,");
    } else {
      One(c, ';', "\\;");
      if c == ';' {
        Two('\\', ';', ',', "\\,");
      } else {
        One(c, ',', "\\,");
      }
    }
  }

  /** No pass invents a line break or hides the first character's being one. */
  lemma {:induction false} SpecialsStart(s: string)
    ensures (Specials(s) == []) == (s == [])
    ensures s != [] ==> (Specials(s)[0] == '\n') == (s[0] == '\n')
  {
    if s != [] {
      assert s == [s[0]] + s[1..];
      SpecialsConcat([s[0]], s[1..]);
      SpecialsChar(s[0]);
    }
  }

  lemma LoneConcat(a: string, b: string)
    ensures Lone(a + b) == Lone(a) + Lone(b)
  {
    ReplaceConcat(a, b, '\n', "\\n");
    ReplaceConcat(Replace(a, '\n', "\\n"), Replace(b, '\n', "\\n"), '\r', "\\n");
  }

  lemma LoneChar(c: char)
    ensures Lone([c]) == if c == '\n' || c == '\r' then "\\n" else [c]
  {
    One(c, '\n', "\\n");
    if c == '\n' {
      Two('\\', 'n', '\r', "\\n");
    } else {
      One(c, '\r', "\\n");
    }
  }

  lemma LonePair(c: char, d: char)
    requires c != '\n' && c != '\r' && d != '\n' && d != '\r'
    ensures Lone([c, d]) == [c, d]
  {
    assert [c, d] == [c] + [d];
    LoneConcat([c], [d]);
    LoneChar(c);
    LoneChar(d);
  }

  /** Splitting off a prefix that holds no CR, or a CR not before LF. */
  lemma {:induction false} CrLfPrefix(a: string, b: string, to: string)
    requires forall i :: 0 <= i < |a| - 1 ==> a[i] != '\r'
    requires a != [] && a[|a| - 1] == '\r' ==> b == [] || b[0] != '\n'
    ensures ReplaceCrLf(a + b, to) == a + ReplaceCrLf(b, to)
  {
    hide ReplaceCrLf;
    if a == [] {
      assert a + b == b;
    } else {
      assert (a + b)[1..] == a[1..] + b;
      CrLfPrefix(a[1..], b, to);
      NotSplit(a, b);
      NoCrLf(a + b, to);
      var rest := ReplaceCrLf(b, to);
      assert a + rest == [a[0]] + (a[1..] + rest);
    }
  }

  lemma NotSplit(a: string, b: string)
    requires a != [] && (|a| > 1 ==> a[0] != '\r') && (a[|a| - 1] == '\r' ==> b == [] || b[0] != '\n')
    ensures !StartsCrLf(a + b)
  {}

  lemma NoCrLf(s: string, to: string)
    requires s != [] && !StartsCrLf(s)
    ensures ReplaceCrLf(s, to) == [s[0]] + ReplaceCrLf(s[1..], to)
  {}

  lemma EscapedChar(c: char)
    ensures Lone(Specials([c])) == EscapeChar(c)
  {
    hide Lone;
    hide Specials;
    SpecialsChar(c);
    if |Specials([c])| == 1 {
      LoneChar(Specials([c])[0]);
      assert Specials([c]) == [Specials([c])[0]];
    } else {
      LonePair(Specials([c])[0], Specials([c])[1]);
      assert Specials([c]) == [Specials([c])[0], Specials([c])[1]];
    }
  }

  lemma EscapeOther(s: string)
    requires s != [] && !StartsCrLf(s)
    ensures Escape(s) == EscapeChar(s[0]) + Escape(s[1..])
  {
    hide Lone;
    hide Specials;
    hide ReplaceCrLf;
    var c, u := s[0], s[1..];
    assert s == [c] + u;
    SpecialsConcat([c], u);
    SpecialsChar(c);
    SpecialsStart(u);
    CrLfPrefix(Specials([c]), Specials(u), "\\n");
    LoneConcat(Specials([c]), ReplaceCrLf(Specials(u), "\\n"));
    EscapedChar(c);
  }

  /** The chain of passes escapes character by character, a CR LF pair counting as one. */
  lemma EscapeStep(s: string)
    requires s != []
    ensures StartsCrLf(s) ==> Escape(s) == "\\n" + Escape(s[2..])
    ensures !StartsCrLf(s) ==> Escape(s) == EscapeChar(s[0]) + Escape(s[1..])
  {
    hide Escape;
    if StartsCrLf(s) {
      EscapeCrLf(s);
    } else {
      EscapeOther(s);
    }
  }

  lemma EscapeCrLf(s: string)
    requires StartsCrLf(s)
    ensures Escape(s) == "\\n" + Escape(s[2..])
  {
    var u := s[2..];
    assert s == ['\r'] + (['\n'] + u);
    SpecialsConcat(['\r'], ['\n'] + u);
    SpecialsConcat(['\n'], u);
    SpecialsChar('\r');
    SpecialsChar('\n');
    var p := Specials(s);
    assert p == ['\r', '\n'] + Specials(u);
    assert p[2..] == Specials(u);
    LoneConcat("\\n", ReplaceCrLf(Specials(u), "\\n"));
    LonePair('\\', 'n');
    assert "\\n" == ['\\', 'n'];
  }

  /** The reader undoes one escape. */
  lemma UnescapeHead(head: string, rest: string, c: char)
    requires head == EscapeChar(c)
    ensures Unescape(head + rest) == [if c == '\r' then '\n' else c] + Unescape(rest)
  {
    assert (head + rest)[|head|..] == rest;
  }

  /** Unescaping gives the text back, with every line break as LF. */
  lemma {:induction false} UnescapeUndoes(s: string)
    ensures Unescape(Escape(s)) == Breaks(s)
  {
    if s != [] {
      hide Escape;
      hide Unescape;
      EscapeStep(s);
      var rest := if StartsCrLf(s) then s[2..] else s[1..];
      UnescapeUndoes(rest);
      UnescapeHead(if StartsCrLf(s) then "\\n" else EscapeChar(s[0]), Escape(rest),
                   if StartsCrLf(s) then '\n' else s[0]);
    } else {
      assert Escape(s) == [];
    }
  }

  /** TEXT as section 3.3.11 has it: escapes, and characters that need none. */
  predicate IsText(s: string) {
    if s == [] then true
    else if s[0] == '\\' then |s| >= 2 && s[1] in {'\\', ';', ',', 'n'} && IsText(s[2..])
    else s[0] !in {';', ',', '\n', '\r'} && IsText(s[1..])
  }

  lemma TextHead(head: string, rest: string, c: char)
    requires head == EscapeChar(c) && IsText(rest)
    ensures IsText(head + rest)
  {
    assert (head + rest)[|head|..] == rest;
  }

  lemma {:induction false} EscapeIsText(s: string)
    ensures IsText(Escape(s))
  {
    if s != [] {
      hide Escape;
      hide IsText;
      EscapeStep(s);
      var rest := if StartsCrLf(s) then s[2..] else s[1..];
      EscapeIsText(rest);
      TextHead(if StartsCrLf(s) then "\\n" else EscapeChar(s[0]), Escape(rest), if StartsCrLf(s) then '\n' else s[0]);
    } else {
      assert Escape(s) == [];
    }
  }

  /** Escaped text has no raw line break. */
  lemma {:induction false} NoRawBreak(s: string)
    ensures '\n' !in Escape(s) && '\r' !in Escape(s)
  {
    if s != [] {
      hide Escape;
      EscapeStep(s);
      NoRawBreak(if StartsCrLf(s) then s[2..] else s[1..]);
    }
  }

  // ----- octets -----

  type Octet = b: int | 0 <= b < 256
  type Point = p: int | 0 <= p < 0x110000 && !(0xD800 <= p < 0xE000)

  const CR: Octet := 13
  const LF: Octet := 10
  const SP: Octet := 32
  const LINE_LIMIT := 75

  /** A UTF-8 continuation octet: top bits 10. */
  predicate Continues(b: Octet) {
    0x80 <= b < 0xC0
  }

  function Utf8(p: Point): (r: seq<Octet>)
    ensures 1 <= |r| <= 4 && !Continues(r[0]) && forall i :: 1 <= i < |r| ==> Continues(r[i])
    ensures |r| == 1 <==> p < 0x80
    ensures (|r| == 1 ==> r[0] == p) && (|r| > 1 ==> r[0] >= 0x80)
  {
    if p < 0x80 then [p]
    else if p < 0x800 then [0xC0 + p / 64, 0x80 + p % 64]
    else if p < 0x10000 then [0xE0 + p / 4096, 0x80 + p / 64 % 64, 0x80 + p % 64]
    else [0xF0 + p / 262144, 0x80 + p / 4096 % 64, 0x80 + p / 64 % 64, 0x80 + p % 64]
  }

  function Encode(line: seq<Point>): seq<Octet> {
    if line == [] then [] else Utf8(line[0]) + Encode(line[1..])
  }

  lemma {:induction false} EncodeConcat(a: seq<Point>, b: seq<Point>)
    ensures Encode(a + b) == Encode(a) + Encode(b)
  {
    if a == [] {
      assert a + b == b;
    } else {
      assert (a + b)[1..] == a[1..] + b;
      EncodeConcat(a[1..], b);
    }
  }

  lemma {:induction false} AsciiLength(line: seq<Point>)
    requires forall i :: 0 <= i < |line| ==> line[i] < 0x80
    ensures |Encode(line)| == |line|
  {
    if line != [] {
      AsciiLength(line[1..]);
    }
  }

  /** Where character `k` starts. */
  function Start(line: seq<Point>, k: nat): nat
    requires k <= |line|
  {
    |Encode(line[..k])|
  }

  /** Character `k` occupies its own stretch of the octets: one lead, then continuations. */
  lemma CharAt(line: seq<Point>, k: nat)
    requires k < |line|
    ensures Start(line, k) < Start(line, k + 1) <= |Encode(line)| && Start(line, k + 1) <= Start(line, k) + 4
    ensures Start(line, k + 1) == Start(line, k) + |Utf8(line[k])|
    ensures Encode(line)[..Start(line, k)] == Encode(line[..k])
    ensures !Continues(Encode(line)[Start(line, k)])
    ensures forall i :: Start(line, k) < i < Start(line, k + 1) ==> Continues(Encode(line)[i])
  {
    var a, c, b := line[..k], line[k], line[k + 1..];
    assert line[..k + 1] == a + [c] && line == (a + [c]) + b;
    EncodeConcat(a, [c]);
    EncodeConcat(a + [c], b);
    assert Encode([c]) == Utf8(c) by {
      assert [c][1..] == [];
    }
    assert Encode(line) == Encode(a) + Utf8(c) + Encode(b);
  }

  lemma WholeLine(line: seq<Point>)
    ensures Start(line, 0) == 0 && Start(line, |line|) == |Encode(line)|
  {
    assert line[..|line|] == line;
  }

  /** Which character an octet belongs to. */
  lemma {:induction false} Locate(line: seq<Point>, p: nat, upTo: nat) returns (k: nat)
    requires upTo <= |line| && p < Start(line, upTo)
    ensures k < upTo && Start(line, k) <= p < Start(line, k + 1)
  {
    WholeLine(line);
    k := upTo - 1;
    if p < Start(line, k) {
      k := Locate(line, p, k);
    }
  }

  /** An octet that does not continue a character starts one. */
  lemma LeadIsStart(line: seq<Point>, p: nat) returns (k: nat)
    requires p < |Encode(line)| && !Continues(Encode(line)[p])
    ensures k < |line| && p == Start(line, k)
  {
    WholeLine(line);
    k := Locate(line, p, |line|);
    CharAt(line, k);
  }

  /** The octet after a character, if there is one, continues nothing. */
  lemma NextIsLead(line: seq<Point>, k: nat)
    requires k < |line|
    ensures Start(line, k + 1) <= |Encode(line)|
    ensures Start(line, k + 1) < |Encode(line)| ==> !Continues(Encode(line)[Start(line, k + 1)])
  {
    if k + 1 < |line| {
      CharAt(line, k + 1);
    } else {
      WholeLine(line);
    }
  }

  lemma {:induction false} StartsAscend(line: seq<Point>, a: nat, b: nat)
    requires a <= b <= |line|
    ensures Start(line, a) <= Start(line, b) && (a < b ==> Start(line, a) < Start(line, b))
  {
    if a < b {
      CharAt(line, b - 1);
      StartsAscend(line, a, b - 1);
    }
  }

  /** The octets between two character starts are those characters. */
  lemma Stretch(line: seq<Point>, a: nat, b: nat)
    requires a <= b <= |line|
    ensures Start(line, a) <= Start(line, b) <= |Encode(line)|
    ensures Encode(line)[Start(line, a)..Start(line, b)] == Encode(line[a..b])
  {
    var u, v, w := line[..a], line[a..b], line[b..];
    assert line[..b] == u + v && line == (u + v) + w;
    EncodeConcat(u, v);
    EncodeConcat(u + v, w);
  }

  // ----- folding -----

  function Flatten<T>(parts: seq<seq<T>>): seq<T> {
    if parts == [] then [] else Flatten(parts[..|parts| - 1]) + parts[|parts| - 1]
  }

  lemma FlattenAppend<T>(parts: seq<seq<T>>, part: seq<T>)
    ensures Flatten(parts + [part]) == Flatten(parts) + part
  {
    assert (parts + [part])[..|parts + [part]| - 1] == parts;
  }

  /** Chunk `i` is whole characters, and fits its physical line. */
  ghost predicate WellCut(chunks: seq<seq<Octet>>, pieces: seq<seq<Point>>) {
    && |chunks| == |pieces|
    && forall i :: 0 <= i < |chunks| ==>
         chunks[i] == Encode(pieces[i]) && |chunks[i]| <= if i == 0 then LINE_LIMIT else LINE_LIMIT - 1
  }

  ghost predicate Inside(data: seq<Octet>, p: int) {
    0 <= p < |data| && Continues(data[p])
  }

  /** No character that ends by `high` starts at `cut`, if only continuations lie between. */
  lemma NextIsBeyond(line: seq<Point>, next: nat, high: nat)
    requires next < |line| && high < |Encode(line)|
    requires forall p :: Start(line, next) < p <= high ==> Inside(Encode(line), p)
    ensures Start(line, next) + |Utf8(line[next])| > high
  {
    CharAt(line, next);
    NextIsLead(line, next);
    assert !Inside(Encode(line), Start(line, next + 1));
  }

  /** Backs up over continuation octets to the start of a character. */
  method BackUp(line: seq<Point>, data: seq<Octet>, offset: nat, limit: nat, ghost k: nat)
      returns (cut: nat, ghost next: nat)
    requires data == Encode(line) && k < |line| && offset == Start(line, k) && offset < |data| && limit >= 4
    ensures offset < cut <= offset + limit && cut <= |data|
    ensures k < next <= |line| && cut == Start(line, next)
    ensures next < |line| ==> cut + |Utf8(line[next])| > offset + limit
  {
    cut := if offset + limit < |data| then offset + limit else |data|;
    ghost var high := cut;
    CharAt(line, k);
    NextIsLead(line, k);
    hide Encode;
    while offset < cut < |data| && Continues(data[cut])
      invariant offset <= cut <= high
      invariant Start(line, k + 1) <= cut && (cut < |data| ==> high < |data|)
      invariant forall p :: cut < p <= high ==> Inside(data, p)
      decreases cut
    {
      assert Inside(data, cut);
      cut := cut - 1;
    }
    if cut < |data| {
      next := LeadIsStart(line, cut);
      NextIsBeyond(line, next, high);
    } else {
      WholeLine(line);
      next := |line|;
    }
    if next <= k {
      StartsAscend(line, next, k);
    }
  }

  function Limit(i: int): nat {
    if i == 0 then 75 else 74
  }

  /** No physical line but the last has room for the character that follows it. */
  ghost predicate Full(pieces: seq<seq<Point>>) {
    forall i :: 0 < i < |pieces| ==>
      pieces[i] != [] && |Encode(pieces[i - 1])| + |Utf8(pieces[i][0])| > Limit(i - 1)
  }

  /** So far, with `rest` still to come. */
  ghost predicate FullBefore(pieces: seq<seq<Point>>, rest: seq<Point>) {
    && Full(pieces)
    && (pieces != [] && rest != [] ==>
          |Encode(pieces[|pieces| - 1])| + |Utf8(rest[0])| > Limit(|pieces| - 1))
  }

  lemma OneMoreFull(pieces: seq<seq<Point>>, piece: seq<Point>, rest: seq<Point>)
    requires FullBefore(pieces, piece + rest) && piece != []
    requires rest != [] ==> |Encode(piece)| + |Utf8(rest[0])| > Limit(|pieces|)
    ensures FullBefore(pieces + [piece], rest)
  {
    hide Encode;
    hide Utf8;
    assert (piece + rest)[0] == piece[0];
  }

  /** The first `k` characters are folded: the chunks hold their octets. */
  ghost predicate FoldedTo(line: seq<Point>, k: nat, chunks: seq<seq<Octet>>, pieces: seq<seq<Point>>) {
    k <= |line| && Flatten(chunks) == Encode(line[..k]) && Flatten(pieces) == line[..k] && WellCut(chunks, pieces)
  }

  lemma FoldMore(line: seq<Point>, k: nat, next: nat, chunks: seq<seq<Octet>>, pieces: seq<seq<Point>>,
                 chunk: seq<Octet>)
    requires FoldedTo(line, k, chunks, pieces) && k <= next <= |line| && chunk == Encode(line[k..next])
    requires |chunk| <= if chunks == [] then LINE_LIMIT else LINE_LIMIT - 1
    ensures FoldedTo(line, next, chunks + [chunk], pieces + [line[k..next]])
  {
    hide Encode;
    hide Flatten;
    FlattenAppend(chunks, chunk);
    FlattenAppend(pieces, line[k..next]);
    assert line[..next] == line[..k] + line[k..next];
    EncodeConcat(line[..k], line[k..next]);
  }

  /** What is folded once the first `k` characters are, and where the rest starts. */
  ghost predicate Folding(line: seq<Point>, k: nat, chunks: seq<seq<Octet>>, pieces: seq<seq<Point>>, offset: nat) {
    && FoldedTo(line, k, chunks, pieces) && offset == Start(line, k)
    && FullBefore(pieces, line[k..]) && |pieces| == |chunks|
  }

  lemma FoldStep(line: seq<Point>, k: nat, next: nat, chunks: seq<seq<Octet>>, pieces: seq<seq<Point>>, offset: nat,
                 limit: nat, chunk: seq<Octet>)
    requires Folding(line, k, chunks, pieces, offset) && k < next <= |line|
    requires limit == (if chunks == [] then LINE_LIMIT else LINE_LIMIT - 1)
    requires Start(line, next) <= offset + limit
    requires next < |line| ==> Start(line, next) + |Utf8(line[next])| > offset + limit
    requires offset <= Start(line, next) <= |Encode(line)| && chunk == Encode(line)[offset..Start(line, next)]
    ensures Folding(line, next, chunks + [chunk], pieces + [line[k..next]], Start(line, next))
  {
    hide Encode;
    hide Utf8;
    hide FoldedTo;
    hide FullBefore;
    Stretch(line, k, next);
    FoldMore(line, k, next, chunks, pieces, chunk);
    assert line[k..] == line[k..next] + line[next..];
    OneMoreFull(pieces, line[k..next], line[next..]);
  }

  lemma StartsFolding(line: seq<Point>)
    ensures Folding(line, 0, [], [], 0) && Start(line, |line|) == |Encode(line)|
  {
    WholeLine(line);
  }

  lemma DoneFolding(line: seq<Point>, k: nat, chunks: seq<seq<Octet>>, pieces: seq<seq<Point>>)
    requires Folding(line, k, chunks, pieces, |Encode(line)|)
    ensures Flatten(chunks) == Encode(line) && Flatten(pieces) == line && WellCut(chunks, pieces) && Full(pieces)
  {
    hide Encode;
    WholeLine(line);
    if k < |line| {
      StartsAscend(line, k, |line|);
    }
    assert line[..|line|] == line;
  }

  method FoldChunks(line: seq<Point>) returns (chunks: seq<seq<Octet>>, ghost pieces: seq<seq<Point>>)
    ensures Flatten(chunks) == Encode(line) && Flatten(pieces) == line && WellCut(chunks, pieces) && Full(pieces)
  {
    var data := Encode(line);
    chunks, pieces := [], [];
    var limit, offset := LINE_LIMIT, 0;
    ghost var k: nat := 0;
    StartsFolding(line);
    hide Encode;
    hide Folding;
    hide Full;
    hide WellCut;
    while offset < |data|
      invariant offset <= |data| && Folding(line, k, chunks, pieces, offset)
      invariant limit == if chunks == [] then LINE_LIMIT else LINE_LIMIT - 1
      decreases |data| - offset
    {
      FoldingBound(line, k, chunks, pieces, offset);
      ghost var next;
      var cut;
      cut, next := BackUp(line, data, offset, limit, k);
      FoldStep(line, k, next, chunks, pieces, offset, limit, data[offset..cut]);
      chunks, pieces := chunks + [data[offset..cut]], pieces + [line[k..next]];
      offset, k := cut, next;
      limit := LINE_LIMIT - 1;
    }
    DoneFolding(line, k, chunks, pieces);
  }

  lemma FoldingBound(line: seq<Point>, k: nat, chunks: seq<seq<Octet>>, pieces: seq<seq<Point>>, offset: nat)
    requires Folding(line, k, chunks, pieces, offset) && offset < |Encode(line)|
    ensures k < |line| && offset == Start(line, k)
  {
    WholeLine(line);
  }

  /** The chunks on physical lines: each continuation opens with one space. */
  function Render(chunks: seq<seq<Octet>>): seq<Octet> {
    if chunks == [] then []
    else if |chunks| == 1 then chunks[0]
    else Render(chunks[..|chunks| - 1]) + [CR, LF, SP] + chunks[|chunks| - 1]
  }

  // ----- reading back -----

  predicate StartsBreak(b: seq<Octet>) {
    |b| >= 2 && b[0] == CR && b[1] == LF
  }

  /** A line break followed by white space is no break at all. */
  function Unfold(b: seq<Octet>): seq<Octet> {
    if b == [] then []
    else if StartsBreak(b) && |b| >= 3 && (b[2] == SP || b[2] == 9) then Unfold(b[3..])
    else [b[0]] + Unfold(b[1..])
  }

  /** The physical lines. */
  function Lines(b: seq<Octet>): (r: seq<seq<Octet>>)
    ensures r != []
  {
    if b == [] then [[]]
    else if StartsBreak(b) then [[]] + Lines(b[2..])
    else
      var r := Lines(b[1..]);
      [[b[0]] + r[0]] + r[1..]
  }

  predicate Unbroken(line: seq<Point>) {
    forall i :: 0 <= i < |line| ==> line[i] != CR && line[i] != LF
  }

  lemma CharUnbroken(p: Point)
    requires p != CR && p != LF
    ensures CR !in Utf8(p) && LF !in Utf8(p)
  {
    forall i | 0 <= i < |Utf8(p)| ensures Utf8(p)[i] != CR && Utf8(p)[i] != LF {
      if i > 0 {
        assert Continues(Utf8(p)[i]);
      }
    }
  }

  lemma {:induction false} EncodedUnbroken(line: seq<Point>)
    requires Unbroken(line)
    ensures CR !in Encode(line) && LF !in Encode(line)
  {
    if line != [] {
      EncodedUnbroken(line[1..]);
      CharUnbroken(line[0]);
    }
  }

  lemma {:induction false} UnfoldPlain(a: seq<Octet>, b: seq<Octet>)
    requires CR !in a
    ensures Unfold(a + b) == a + Unfold(b)
  {
    if a == [] {
      assert a + b == b;
    } else {
      assert a[0] in a && (a + b)[1..] == a[1..] + b;
      UnfoldPlain(a[1..], b);
    }
  }

  lemma {:induction false} LinesPlain(a: seq<Octet>, b: seq<Octet>)
    requires CR !in a
    ensures Lines(a + b) == [a + Lines(b)[0]] + Lines(b)[1..]
  {
    if a == [] {
      assert a + b == b && a + Lines(b)[0] == Lines(b)[0];
      assert Lines(b) == [Lines(b)[0]] + Lines(b)[1..];
    } else {
      assert a[0] in a && (a + b)[1..] == a[1..] + b;
      LinesPlain(a[1..], b);
      var r := Lines(a[1..] + b);
      assert a + Lines(b)[0] == [a[0]] + (a[1..] + Lines(b)[0]);
      assert r[0] == a[1..] + Lines(b)[0] && r[1..] == Lines(b)[1..];
      assert !StartsBreak(a + b);
    }
  }

  lemma UnfoldBreak(last: seq<Octet>, tail: seq<Octet>)
    requires CR !in last
    ensures Unfold([CR, LF, SP] + last + tail) == last + Unfold(tail)
  {
    var more := [CR, LF, SP] + last + tail;
    assert more[3..] == last + tail;
    UnfoldPlain(last, tail);
  }

  /** Unfolding text up to its last fold. */
  lemma {:induction false} UnfoldRender(chunks: seq<seq<Octet>>, tail: seq<Octet>)
    requires chunks != [] && forall c :: c in chunks ==> CR !in c
    ensures Unfold(Render(chunks) + tail) == Flatten(chunks) + Unfold(tail)
  {
    hide Unfold;
    if |chunks| == 1 {
      assert chunks[0] in chunks;
      UnfoldPlain(chunks[0], tail);
      FlattenAppend([], chunks[0]);
      assert [] + [chunks[0]] == chunks;
    } else {
      hide Flatten;
      var rest, last := chunks[..|chunks| - 1], chunks[|chunks| - 1];
      assert last in chunks && chunks == rest + [last];
      var more := [CR, LF, SP] + last + tail;
      assert Render(chunks) + tail == Render(rest) + more;
      UnfoldRender(rest, more);
      UnfoldBreak(last, tail);
      FlattenAppend(rest, last);
    }
  }

  /** One physical line per chunk, the continuations opened by a space. */
  function Physical(chunks: seq<seq<Octet>>): seq<seq<Octet>> {
    seq(|chunks|, i requires 0 <= i < |chunks| => if i == 0 then chunks[0] else [SP] + chunks[i])
  }

  lemma FirstLine(tail: seq<Octet>)
    requires tail == [] || StartsBreak(tail)
    ensures Lines(tail)[0] == []
  {}

  lemma LinesContinuation(last: seq<Octet>, tail: seq<Octet>)
    requires CR !in last && (tail == [] || StartsBreak(tail))
    ensures Lines([CR, LF, SP] + last + tail)[1..] == [[SP] + last] + Lines(tail)[1..]
  {
    hide Lines;
    var more := [CR, LF, SP] + last + tail;
    BreakLine(more);
    assert more[2..] == ([SP] + last) + tail;
    LinesPlain([SP] + last, tail);
    FirstLine(tail);
    assert ([SP] + last) + Lines(tail)[0] == [SP] + last;
  }

  lemma BreakLine(b: seq<Octet>)
    requires StartsBreak(b)
    ensures Lines(b)[1..] == Lines(b[2..])
  {}

  lemma PhysicalAppend(rest: seq<seq<Octet>>, last: seq<Octet>)
    requires rest != []
    ensures Physical(rest + [last]) == Physical(rest) + [[SP] + last]
  {}

  lemma {:induction false} LinesRender(chunks: seq<seq<Octet>>, tail: seq<Octet>)
    requires chunks != [] && (forall c :: c in chunks ==> CR !in c) && (tail == [] || StartsBreak(tail))
    ensures Lines(Render(chunks) + tail) == Physical(chunks) + Lines(tail)[1..]
  {
    hide Lines;
    hide Physical;
    if |chunks| == 1 {
      assert chunks[0] in chunks;
      LinesPlain(chunks[0], tail);
      FirstLine(tail);
      assert chunks[0] + Lines(tail)[0] == chunks[0];
      PhysicalOne(chunks);
    } else {
      var rest, last := chunks[..|chunks| - 1], chunks[|chunks| - 1];
      assert last in chunks && chunks == rest + [last];
      var more := [CR, LF, SP] + last + tail;
      assert Render(chunks) + tail == Render(rest) + more;
      LinesRender(rest, more);
      LinesContinuation(last, tail);
      PhysicalAppend(rest, last);
    }
  }

  lemma PhysicalOne(chunks: seq<seq<Octet>>)
    requires |chunks| == 1
    ensures Physical(chunks) == [chunks[0]]
  {}

  /** Chunks that fit and are cut between characters read back whole. */
  lemma FoldReadsBack(line: seq<Point>, chunks: seq<seq<Octet>>, pieces: seq<seq<Point>>)
    requires Unbroken(line) && Flatten(chunks) == Encode(line) && Flatten(pieces) == line && WellCut(chunks, pieces)
    ensures Unfold(Render(chunks)) == Encode(line)
    ensures forall l :: l in Lines(Render(chunks)) ==> |l| <= LINE_LIMIT
  {
    EncodedUnbroken(line);
    PartsUnbroken(chunks);
    assert Render(chunks) + [] == Render(chunks);
    if chunks != [] {
      UnfoldRender(chunks, []);
      LinesRender(chunks, []);
      assert Lines([])[1..] == [];
      assert Physical(chunks) + [] == Physical(chunks);
    }
  }

  lemma {:induction false} PartsUnbroken(chunks: seq<seq<Octet>>)
    requires CR !in Flatten(chunks)
    ensures forall c :: c in chunks ==> CR !in c
  {
    if chunks != [] {
      var rest, last := chunks[..|chunks| - 1], chunks[|chunks| - 1];
      assert Flatten(chunks) == Flatten(rest) + last;
      PartsUnbroken(rest);
      assert chunks == rest + [last];
    }
  }

  // ----- the whole -----

  lemma OneChunk(line: seq<Point>)
    requires |Encode(line)| <= LINE_LIMIT
    ensures Flatten([Encode(line)]) == Encode(line) && Flatten([line]) == line && WellCut([Encode(line)], [line])
    ensures Render([Encode(line)]) == Encode(line)
  {
    hide Encode;
    FlattenAppend([], Encode(line));
    FlattenAppend([], line);
    assert [] + [Encode(line)] == [Encode(line)] && [] + [line] == [line];
  }

  /** Folding loses nothing, keeps every physical line within 75 octets, and cuts only between characters. */
  method Fold(line: seq<Point>) returns (out: seq<Octet>, ghost pieces: seq<seq<Point>>)
    ensures Flatten(pieces) == line && out == Render(EncodeAll(pieces)) && Full(pieces)
    ensures Unbroken(line) ==> Unfold(out) == Encode(line)
    ensures Unbroken(line) ==> forall l :: l in Lines(out) ==> |l| <= LINE_LIMIT
  {
    hide Encode;
    hide Flatten;
    hide Unfold;
    hide Lines;
    hide Render;
    hide Unbroken;
    var ascii := forall i :: 0 <= i < |line| ==> line[i] < 0x80;
    if ascii {
      AsciiLength(line);
    }
    var octets := if ascii then |line| else |Encode(line)|;
    var chunks;
    if octets <= LINE_LIMIT {
      out := Encode(line);
      chunks, pieces := [out], [line];
      OneChunk(line);
    } else {
      chunks, pieces := FoldChunks(line);
      out := Render(chunks);
    }
    assert chunks == EncodeAll(pieces);
    if Unbroken(line) {
      FoldReadsBack(line, chunks, pieces);
    }
  }

  function EncodeAll(pieces: seq<seq<Point>>): seq<seq<Octet>> {
    seq(|pieces|, i requires 0 <= i < |pieces| => Encode(pieces[i]))
  }
}
