/**
 The fire heatmap. Entries that share a schedule share one walk, and the grid is
 filled once per distinct schedule; the result is what replaying every entry by
 itself would give.
 */
module Heatmap {
  import opened Options

  const NAME_CAP := 10
  const HOURS := 24
  const MINUTES := 60

  /** A civil (hour, minute) label of the display zone. */
  type Cell = c: (int, int) | 0 <= c.0 < HOURS && 0 <= c.1 < MINUTES witness (0, 0)

  /** What a walk depends on: the resolved schedule and its zone. */
  datatype Key = Key(source: string, zone: string)
  datatype Entry = Entry(name: string, key: Key)

  /** The label of each fire in the window, and how many runs each fire stands for. */
  datatype Walk = Walk(cells: seq<Cell>, weight: nat)

  /** The walk of a schedule; none for one that cannot be walked. */
  type Walker = Key -> Option<Walk>

  // ----- replaying every entry -----

  function Cells(walk: Walker, k: Key): seq<Cell> {
    if walk(k).Some? then walk(k).value.cells else []
  }

  function Weight(walk: Walker, k: Key): nat {
    if walk(k).Some? then walk(k).value.weight else 0
  }

  /** What one entry adds to a cell. */
  function Share(walk: Walker, k: Key, c: Cell): nat {
    Weight(walk, k) * multiset(Cells(walk, k))[c]
  }

  function GridAt(walk: Walker, entries: seq<Entry>, c: Cell): nat {
    if entries == [] then 0
    else GridAt(walk, entries[..|entries| - 1], c) + Share(walk, entries[|entries| - 1].key, c)
  }

  predicate FiresAtMinute(walk: Walker, k: Key, minute: int) {
    exists i :: 0 <= i < |Cells(walk, k)| && Cells(walk, k)[i].1 == minute
  }

  ghost function MinuteAt(walk: Walker, entries: seq<Entry>, minute: int): set<string> {
    set e | e in entries && FiresAtMinute(walk, e.key, minute) :: e.name
  }

  /** The names at a cell: entry order, no repeats, no more than the cap. */
  function NamesAt(walk: Walker, entries: seq<Entry>, c: Cell): seq<string> {
    if entries == [] then []
    else
      var rest, e := NamesAt(walk, entries[..|entries| - 1], c), entries[|entries| - 1];
      if c in Cells(walk, e.key) && |rest| < NAME_CAP && e.name !in rest then rest + [e.name] else rest
  }

  /** The distinct names at a cell in entry order, uncapped. */
  function AllNamesAt(walk: Walker, entries: seq<Entry>, c: Cell): seq<string> {
    if entries == [] then []
    else
      var rest, e := AllNamesAt(walk, entries[..|entries| - 1], c), entries[|entries| - 1];
      if c in Cells(walk, e.key) && e.name !in rest then rest + [e.name] else rest
  }

  /** Capping as names arrive keeps the first names. */
  lemma {:induction false} CapKeepsFirst(walk: Walker, entries: seq<Entry>, c: Cell)
    ensures var all := AllNamesAt(walk, entries, c);
            NamesAt(walk, entries, c) == if |all| <= NAME_CAP then all else all[..NAME_CAP]
  {
    if entries != [] {
      CapKeepsFirst(walk, entries[..|entries| - 1], c);
    }
  }

  lemma {:induction false} AllNamesAre(walk: Walker, entries: seq<Entry>, c: Cell, name: string)
    ensures name in AllNamesAt(walk, entries, c)
       <==> exists i :: 0 <= i < |entries| && entries[i].name == name && c in Cells(walk, entries[i].key)
  {
    if entries != [] {
      var rest := entries[..|entries| - 1];
      AllNamesAre(walk, rest, c, name);
      assert forall i :: 0 <= i < |rest| ==> rest[i] == entries[i];
    }
  }

  /** A job is among a minute's exactly when it is named at that minute of some hour. */
  lemma MinuteIsItsHours(walk: Walker, entries: seq<Entry>, minute: int, name: string)
    requires 0 <= minute < MINUTES
    ensures name in MinuteAt(walk, entries, minute)
       <==> exists hour :: 0 <= hour < HOURS && name in AllNamesAt(walk, entries, (hour, minute))
  {
    if name in MinuteAt(walk, entries, minute) {
      var e :| e in entries && FiresAtMinute(walk, e.key, minute) && e.name == name;
      var i :| 0 <= i < |entries| && entries[i] == e;
      var k :| 0 <= k < |Cells(walk, e.key)| && Cells(walk, e.key)[k].1 == minute;
      var c := Cells(walk, e.key)[k];
      AllNamesAre(walk, entries, c, name);
      assert c == (c.0, minute);
    }
    if hour :| 0 <= hour < HOURS && name in AllNamesAt(walk, entries, (hour, minute)) {
      AllNamesAre(walk, entries, (hour, minute), name);
      var i :| 0 <= i < |entries| && entries[i].name == name && (hour, minute) in Cells(walk, entries[i].key);
      var k :| 0 <= k < |Cells(walk, entries[i].key)| && Cells(walk, entries[i].key)[k] == (hour, minute);
    }
  }

  lemma PrefixStep(entries: seq<Entry>, i: nat)
    requires i < |entries|
    ensures entries[..i + 1][..i] == entries[..i] && entries[..i + 1][i] == entries[i]
    ensures entries[..i + 1] == entries[..i] + [entries[i]]
  {}

  // ----- groups -----

  /** What the groups add to a cell, schedule by schedule. */
  function Grouped(walk: Walker, order: seq<Key>, members: map<Key, seq<string>>, c: Cell): nat
    requires forall k :: k in order ==> k in members
  {
    if order == [] then 0
    else
      var k := order[|order| - 1];
      Grouped(walk, order[..|order| - 1], members, c) + Share(walk, k, c) * |members[k]|
  }

  ghost predicate Distinct<T(!new)>(s: seq<T>) {
    forall i, j :: 0 <= i < j < |s| ==> s[i] != s[j]
  }

  /** Groups whose keys are not listed do not count. */
  lemma {:induction false} GroupedSame(walk: Walker, order: seq<Key>, m: map<Key, seq<string>>,
                                       n: map<Key, seq<string>>, c: Cell)
    requires forall k :: k in order ==> k in m && k in n && m[k] == n[k]
    ensures Grouped(walk, order, m, c) == Grouped(walk, order, n, c)
  {
    if order != [] {
      assert order[|order| - 1] in order;
      GroupedSame(walk, order[..|order| - 1], m, n, c);
    }
  }

  /** One more member of one group adds one share. */
  lemma {:induction false} GroupedMore(walk: Walker, order: seq<Key>, m: map<Key, seq<string>>, key: Key,
                                       name: string, c: Cell)
    requires Distinct(order) && key in order && forall k :: k in order ==> k in m
    ensures Grouped(walk, order, m[key := m[key] + [name]], c) == Grouped(walk, order, m, c) + Share(walk, key, c)
  {
    var rest, last := order[..|order| - 1], order[|order| - 1];
    var more := m[key := m[key] + [name]];
    if last == key {
      GroupedSame(walk, rest, m, more, c);
      Distribute(Share(walk, key, c), |m[key]|);
    } else {
      assert key in rest;
      GroupedMore(walk, rest, m, key, name, c);
    }
  }

  lemma Distribute(a: int, b: int)
    ensures a * (b + 1) == a * b + a
  {}

  /** Names of the entries of one schedule, in order. */
  function Group(entries: seq<Entry>, k: Key): seq<string> {
    if entries == [] then []
    else
      var e := entries[|entries| - 1];
      Group(entries[..|entries| - 1], k) + if e.key == k then [e.name] else []
  }

  lemma {:induction false} GroupNames(entries: seq<Entry>, k: Key, name: string)
    ensures name in Group(entries, k) <==> Entry(name, k) in entries
  {
    if entries != [] {
      var rest, e := entries[..|entries| - 1], entries[|entries| - 1];
      GroupNames(rest, k, name);
      assert entries == rest + [e];
    }
  }

  /** The walkable schedules of the entries, once each, with their groups. */
  ghost predicate GroupedBy(walk: Walker, entries: seq<Entry>, order: seq<Key>, members: map<Key, seq<string>>) {
    && Distinct(order)
    && (forall k :: k in order <==> k in members)
    && (forall k :: k in members ==> walk(k).Some? && members[k] == Group(entries, k))
    && (forall i :: 0 <= i < |entries| ==> entries[i].key in members || walk(entries[i].key).None?)
    && (forall c: Cell :: Grouped(walk, order, members, c) == GridAt(walk, entries, c))
  }

  lemma {:induction false} GroupOfStranger(entries: seq<Entry>, k: Key)
    requires forall i :: 0 <= i < |entries| ==> entries[i].key != k
    ensures Group(entries, k) == []
  {
    if entries != [] {
      GroupOfStranger(entries[..|entries| - 1], k);
    }
  }

  lemma JoinGroup(walk: Walker, entries: seq<Entry>, e: Entry, order: seq<Key>, members: map<Key, seq<string>>)
    requires GroupedBy(walk, entries, order, members) && e.key in members
    ensures GroupedBy(walk, entries + [e], order, members[e.key := members[e.key] + [e.name]])
  {
    var now, more := entries + [e], members[e.key := members[e.key] + [e.name]];
    assert now[..|now| - 1] == entries;
    forall c: Cell ensures Grouped(walk, order, more, c) == GridAt(walk, now, c) {
      GroupedMore(walk, order, members, e.key, e.name, c);
    }
  }

  lemma GroupStep(entries: seq<Entry>, e: Entry, k: Key)
    ensures Group(entries + [e], k) == Group(entries, k) + if e.key == k then [e.name] else []
  {
    assert (entries + [e])[..|entries + [e]| - 1] == entries;
  }

  lemma NewGroupSum(walk: Walker, entries: seq<Entry>, e: Entry, order: seq<Key>, members: map<Key, seq<string>>,
                    c: Cell)
    requires (forall k :: k in order ==> k in members) && e.key !in order
    requires Grouped(walk, order, members, c) == GridAt(walk, entries, c)
    ensures Grouped(walk, order + [e.key], members[e.key := [e.name]], c) == GridAt(walk, entries + [e], c)
  {
    var now, keys, more := entries + [e], order + [e.key], members[e.key := [e.name]];
    assert now[..|now| - 1] == entries && keys[..|keys| - 1] == order;
    GroupedSame(walk, order, members, more, c);
  }

  lemma NewGroup(walk: Walker, entries: seq<Entry>, e: Entry, order: seq<Key>, members: map<Key, seq<string>>)
    requires GroupedBy(walk, entries, order, members) && e.key !in members && walk(e.key).Some?
    ensures GroupedBy(walk, entries + [e], order + [e.key], members[e.key := [e.name]])
  {
    hide Grouped;
    hide GridAt;
    hide Group;
    var keys, more := order + [e.key], members[e.key := [e.name]];
    GroupOfStranger(entries, e.key);
    assert Distinct(keys) by {
      assert e.key !in order;
    }
    forall k | k in more ensures more[k] == Group(entries + [e], k) {
      GroupStep(entries, e, k);
    }
    forall c: Cell ensures Grouped(walk, keys, more, c) == GridAt(walk, entries + [e], c) {
      NewGroupSum(walk, entries, e, order, members, c);
    }
  }

  lemma NoGroup(walk: Walker, entries: seq<Entry>, e: Entry, order: seq<Key>, members: map<Key, seq<string>>)
    requires GroupedBy(walk, entries, order, members) && walk(e.key).None?
    ensures GroupedBy(walk, entries + [e], order, members)
  {
    var now := entries + [e];
    assert now[..|now| - 1] == entries;
    forall c: Cell ensures Grouped(walk, order, members, c) == GridAt(walk, now, c) {
      assert Share(walk, e.key, c) == 0;
    }
  }

  /** Walks each distinct schedule once. */
  method GroupEntries(walk: Walker, entries: seq<Entry>)
      returns (order: seq<Key>, members: map<Key, seq<string>>, walks: map<Key, Walk>)
    ensures GroupedBy(walk, entries, order, members)
    ensures walks.Keys == members.Keys && forall k :: k in walks ==> walk(k) == Some(walks[k])
  {
    hide GroupedBy;
    order, members, walks := [], map[], map[];
    NothingGrouped(walk);
    var unwalkable: set<Key> := {};
    for i := 0 to |entries|
      invariant GroupedBy(walk, entries[..i], order, members)
      invariant walks.Keys == members.Keys && forall k :: k in walks ==> walk(k) == Some(walks[k])
      invariant forall k :: k in unwalkable ==> walk(k).None?
    {
      var e := entries[i];
      PrefixStep(entries, i);
      if e.key in members {
        JoinGroup(walk, entries[..i], e, order, members);
        members := members[e.key := members[e.key] + [e.name]];
      } else if e.key in unwalkable {
        NoGroup(walk, entries[..i], e, order, members);
      } else {
        var w := walk(e.key);
        if w.None? {
          unwalkable := unwalkable + {e.key};
          NoGroup(walk, entries[..i], e, order, members);
        } else {
          NewGroup(walk, entries[..i], e, order, members);
          order, members, walks := order + [e.key], members[e.key := [e.name]], walks[e.key := w.value];
        }
      }
    }
    assert entries[..|entries|] == entries;
  }

  lemma NothingGrouped(walk: Walker)
    ensures GroupedBy(walk, [], [], map[])
  {}

  // ----- the grid -----

  /** Adds one schedule's share once per fire. */
  method AddFires(grid: array2<int>, cells: seq<Cell>, share: nat)
    requires grid.Length0 == HOURS && grid.Length1 == MINUTES
    modifies grid
    ensures forall h, m :: 0 <= h < HOURS && 0 <= m < MINUTES ==>
              grid[h, m] == old(grid[h, m]) + share * multiset(cells)[(h, m)]
  {
    for i := 0 to |cells|
      invariant forall h, m :: 0 <= h < HOURS && 0 <= m < MINUTES ==>
                  grid[h, m] == old(grid[h, m]) + share * multiset(cells[..i])[(h, m)]
    {
      var c := cells[i];
      assert cells[..i + 1] == cells[..i] + [c];
      Distribute(share, multiset(cells[..i])[c]);
      grid[c.0, c.1] := grid[c.0, c.1] + share;
    }
    assert cells[..|cells|] == cells;
  }

  lemma ShareOfGroup(w: int, g: int, n: int)
    ensures (w * g) * n == (w * n) * g
  {}

  /** One more schedule adds its share once per member. */
  lemma GroupedStep(walk: Walker, order: seq<Key>, i: nat, members: map<Key, seq<string>>, w: Walk, c: Cell)
    requires i < |order| && (forall k :: k in order ==> k in members) && walk(order[i]) == Some(w)
    ensures forall k :: k in order[..i + 1] ==> k in members
    ensures Grouped(walk, order[..i + 1], members, c)
         == Grouped(walk, order[..i], members, c) + (w.weight * |members[order[i]]|) * multiset(w.cells)[c]
  {
    assert order[..i + 1][..i] == order[..i];
    ShareOfGroup(w.weight, |members[order[i]]|, multiset(w.cells)[c]);
  }

  method FillGrid(walk: Walker, order: seq<Key>, members: map<Key, seq<string>>, walks: map<Key, Walk>)
      returns (grid: array2<int>)
    requires forall k :: k in order ==> k in members
    requires walks.Keys == members.Keys && forall k :: k in walks ==> walk(k) == Some(walks[k])
    ensures fresh(grid) && grid.Length0 == HOURS && grid.Length1 == MINUTES
    ensures forall h, m :: 0 <= h < HOURS && 0 <= m < MINUTES ==> grid[h, m] == Grouped(walk, order, members, (h, m))
  {
    grid := new int[HOURS, MINUTES]((h, m) => 0);
    for i := 0 to |order|
      invariant forall h, m :: 0 <= h < HOURS && 0 <= m < MINUTES ==>
                  grid[h, m] == Grouped(walk, order[..i], members, (h, m))
    {
      hide Grouped;
      var key := order[i];
      assert key in order;
      var w, group := walks[key], members[key];
      AddFires(grid, w.cells, w.weight * |group|);
      forall h, m | 0 <= h < HOURS && 0 <= m < MINUTES
        ensures grid[h, m] == Grouped(walk, order[..i + 1], members, (h, m))
      {
        GroupedStep(walk, order, i, members, w, (h, m));
      }
    }
    assert order[..|order|] == order;
  }

  // ----- jobs per minute of the hour -----

  ghost function MinuteOfGroups(walk: Walker, order: seq<Key>, members: map<Key, seq<string>>, minute: int): set<string>
    requires forall k :: k in order ==> k in members
  {
    set k, n | k in order && FiresAtMinute(walk, k, minute) && n in members[k] :: n
  }

  lemma MinutesMeet(walk: Walker, entries: seq<Entry>, order: seq<Key>, members: map<Key, seq<string>>, minute: int)
    requires GroupedBy(walk, entries, order, members)
    ensures MinuteOfGroups(walk, order, members, minute) == MinuteAt(walk, entries, minute)
  {
    forall n | n in MinuteOfGroups(walk, order, members, minute) ensures n in MinuteAt(walk, entries, minute) {
      var k :| k in order && FiresAtMinute(walk, k, minute) && n in members[k];
      GroupNames(entries, k, n);
      assert Entry(n, k) in entries;
    }
    forall n | n in MinuteAt(walk, entries, minute) ensures n in MinuteOfGroups(walk, order, members, minute) {
      var e :| e in entries && FiresAtMinute(walk, e.key, minute) && e.name == n;
      GroupNames(entries, e.key, n);
      assert e == Entry(n, e.key);
      assert e.key in members;
    }
  }

  method AddMinutes(minuteJobs: array<set<string>>, cells: seq<Cell>, group: seq<string>)
    requires minuteJobs.Length == MINUTES
    modifies minuteJobs
    ensures forall m :: 0 <= m < MINUTES ==>
              minuteJobs[m] == old(minuteJobs[m]) + (set n | n in group && m in MinutesOf(cells))
  {
    var names := set n | n in group;
    var left := MinutesOf(cells);
    while left != {}
      invariant left <= MinutesOf(cells)
      invariant forall m :: 0 <= m < MINUTES ==>
                  minuteJobs[m] == old(minuteJobs[m]) + (set n | n in group && m in MinutesOf(cells) && m !in left)
      decreases |left|
    {
      var minute :| minute in left;
      left := left - {minute};
      minuteJobs[minute] := minuteJobs[minute] + names;
    }
  }

  function MinutesOf(cells: seq<Cell>): (r: set<int>)
    ensures forall m :: m in r ==> 0 <= m < MINUTES
  {
    set i | 0 <= i < |cells| :: cells[i].1
  }

  method FillMinutes(walk: Walker, order: seq<Key>, members: map<Key, seq<string>>, walks: map<Key, Walk>)
      returns (minuteJobs: array<set<string>>)
    requires forall k :: k in order ==> k in members
    requires walks.Keys == members.Keys && forall k :: k in walks ==> walk(k) == Some(walks[k])
    ensures fresh(minuteJobs) && minuteJobs.Length == MINUTES
    ensures forall m :: 0 <= m < MINUTES ==> minuteJobs[m] == MinuteOfGroups(walk, order, members, m)
  {
    minuteJobs := new set<string>[MINUTES](m => {});
    for i := 0 to |order|
      invariant forall m :: 0 <= m < MINUTES ==> minuteJobs[m] == MinuteOfGroups(walk, order[..i], members, m)
    {
      var key := order[i];
      assert key in order;
      AddMinutes(minuteJobs, walks[key].cells, members[key]);
      forall m | 0 <= m < MINUTES ensures minuteJobs[m] == MinuteOfGroups(walk, order[..i + 1], members, m) {
        MinuteStep(walk, order, members, i, m);
      }
    }
    assert order[..|order|] == order;
  }

  lemma MinuteStep(walk: Walker, order: seq<Key>, members: map<Key, seq<string>>, i: nat, minute: int)
    requires i < |order| && forall k :: k in order ==> k in members
    ensures MinuteOfGroups(walk, order[..i + 1], members, minute)
         == MinuteOfGroups(walk, order[..i], members, minute)
            + (set n | n in members[order[i]] && minute in MinutesOf(Cells(walk, order[i])))
  {
    assert order[..i + 1] == order[..i] + [order[i]];
    assert FiresAtMinute(walk, order[i], minute) <==> minute in MinutesOf(Cells(walk, order[i]));
  }

  // ----- names per cell -----

  function Sample(cellJobs: map<Cell, seq<string>>, c: Cell): seq<string> {
    if c in cellJobs then cellJobs[c] else []
  }

  /** The sample lists are those of a full replay. */
  ghost predicate Sampled(walk: Walker, entries: seq<Entry>, cellJobs: map<Cell, seq<string>>) {
    forall c: Cell :: Sample(cellJobs, c) == NamesAt(walk, entries, c)
  }

  /** The cells a schedule may still add to; the ones dropped are full. */
  ghost predicate Pending(walk: Walker, entries: seq<Entry>, k: Key, cells: seq<Cell>) {
    && Distinct(cells)
    && (forall c :: c in cells ==> c in Cells(walk, k))
    && forall c :: c in Cells(walk, k) && c !in cells ==> |NamesAt(walk, entries, c)| >= NAME_CAP
  }

  /** First occurrences, in order. */
  method Unique(cells: seq<Cell>) returns (out: seq<Cell>)
    ensures Distinct(out) && forall c :: c in out <==> c in cells
  {
    out := [];
    for i := 0 to |cells|
      invariant Distinct(out) && forall c :: c in out <==> c in cells[..i]
    {
      if cells[i] !in out {
        out := out + [cells[i]];
      }
    }
    assert cells[..|cells|] == cells;
  }

  /** A full list stays as it is. */
  lemma FullStays(walk: Walker, entries: seq<Entry>, e: Entry, c: Cell)
    ensures |NamesAt(walk, entries, c)| >= NAME_CAP ==> NamesAt(walk, entries + [e], c) == NamesAt(walk, entries, c)
    ensures |NamesAt(walk, entries + [e], c)| >= |NamesAt(walk, entries, c)|
  {
    assert (entries + [e])[..|entries + [e]| - 1] == entries;
  }

  /** What one cell's list becomes when an entry touches it. */
  function Touched(names: seq<string>, name: string): seq<string> {
    if |names| < NAME_CAP && name !in names then names + [name] else names
  }

  /** `cells` done: their lists touched, the others not. */
  ghost predicate TouchedOnly(was: map<Cell, seq<string>>, now: map<Cell, seq<string>>, done: seq<Cell>, name: string) {
    forall c: Cell :: Sample(now, c) == if c in done then Touched(Sample(was, c), name) else Sample(was, c)
  }

  /** `kept` are the cells of `done` whose lists have room. */
  ghost predicate KeptOpen(now: map<Cell, seq<string>>, done: seq<Cell>, kept: seq<Cell>) {
    && Distinct(kept)
    && forall c :: c in kept <==> c in done && |Sample(now, c)| < NAME_CAP
  }

  lemma TouchOne(was: map<Cell, seq<string>>, now: map<Cell, seq<string>>, done: seq<Cell>, cell: Cell, name: string)
    requires TouchedOnly(was, now, done, name) && cell !in done
    ensures TouchedOnly(was, now[cell := Touched(Sample(now, cell), name)], done + [cell], name)
  {}

  lemma KeepOne(now: map<Cell, seq<string>>, done: seq<Cell>, kept: seq<Cell>, cell: Cell, names: seq<string>)
    requires KeptOpen(now, done, kept) && cell !in done
    ensures |names| < NAME_CAP ==> KeptOpen(now[cell := names], done + [cell], kept + [cell])
    ensures |names| >= NAME_CAP ==> KeptOpen(now[cell := names], done + [cell], kept)
  {
    assert forall c :: c in kept ==> c != cell;
  }

  lemma DistinctNext(s: seq<Cell>, i: nat)
    requires Distinct(s) && i < |s|
    ensures s[i] !in s[..i] && s[..i + 1] == s[..i] + [s[i]]
  {}

  /** One entry over the cells its schedule has left. */
  method TouchCells(was: map<Cell, seq<string>>, remaining: seq<Cell>, name: string)
      returns (now: map<Cell, seq<string>>, kept: seq<Cell>)
    requires Distinct(remaining)
    ensures TouchedOnly(was, now, remaining, name) && KeptOpen(now, remaining, kept)
  {
    now := was;
    var keep: Option<seq<Cell>> := None;
    for i := 0 to |remaining|
      invariant TouchedOnly(was, now, remaining[..i], name)
      invariant KeptOpen(now, remaining[..i], if keep.Some? then keep.value else remaining[..i])
    {
      hide TouchedOnly;
      hide KeptOpen;
      hide Distinct;
      var cell := remaining[i];
      DistinctNext(remaining, i);
      var names := Sample(now, cell);
      if |names| < NAME_CAP && name !in names {
        names := names + [name];
      }
      TouchOne(was, now, remaining[..i], cell, name);
      KeepOne(now, remaining[..i], if keep.Some? then keep.value else remaining[..i], cell, names);
      now := now[cell := names];
      if |names| < NAME_CAP {
        if keep.Some? {
          keep := Some(keep.value + [cell]);
        }
      } else if keep.None? {
        keep := Some(remaining[..i]);
      }
    }
    assert remaining[..|remaining|] == remaining;
    kept := if keep.Some? then keep.value else remaining;
  }

  lemma EntryDone(walk: Walker, entries: seq<Entry>, e: Entry, remaining: seq<Cell>,
                  was: map<Cell, seq<string>>, now: map<Cell, seq<string>>, kept: seq<Cell>)
    requires Sampled(walk, entries, was) && Pending(walk, entries, e.key, remaining)
    requires TouchedOnly(was, now, remaining, e.name) && KeptOpen(now, remaining, kept)
    ensures Sampled(walk, entries + [e], now) && Pending(walk, entries + [e], e.key, kept)
  {
    var more := entries + [e];
    assert more[..|more| - 1] == entries;
    forall c: Cell ensures Sample(now, c) == NamesAt(walk, more, c) {
      assert Sample(was, c) == NamesAt(walk, entries, c);
    }
  }

  lemma PendingStays(walk: Walker, entries: seq<Entry>, e: Entry, k: Key, cells: seq<Cell>)
    requires Pending(walk, entries, k, cells)
    ensures Pending(walk, entries + [e], k, cells)
  {
    forall c: Cell | c in Cells(walk, k) && c !in cells ensures |NamesAt(walk, entries + [e], c)| >= NAME_CAP {
      FullStays(walk, entries, e, c);
    }
  }

  /** Cells drop out of later passes once full; every list is still that of the full replay. */
  method FillCellJobs(walk: Walker, entries: seq<Entry>, walks: map<Key, Walk>)
      returns (cellJobs: map<Cell, seq<string>>)
    requires forall k :: k in walks ==> walk(k) == Some(walks[k])
    requires forall i :: 0 <= i < |entries| ==> entries[i].key in walks || walk(entries[i].key).None?
    ensures Sampled(walk, entries, cellJobs)
  {
    hide NamesAt;
    var pending := StartPending(walk, walks);
    cellJobs := map[];
    NothingSampled(walk);
    for i := 0 to |entries|
      invariant Sampled(walk, entries[..i], cellJobs) && pending.Keys == walks.Keys
      invariant forall k :: k in pending ==> Pending(walk, entries[..i], k, pending[k])
    {
      hide Sampled;
      hide Pending;
      var e := entries[i];
      PrefixStep(entries, i);
      forall k | k in pending ensures Pending(walk, entries[..i + 1], k, pending[k]) {
        PendingStays(walk, entries[..i], e, k, pending[k]);
      }
      var remaining := if e.key in pending then pending[e.key] else [];
      if remaining == [] {
        NothingLeft(walk, entries[..i], e, cellJobs);
      } else {
        PendingDistinct(walk, entries[..i], e.key, remaining);
        var was := cellJobs;
        var kept;
        cellJobs, kept := TouchCells(cellJobs, remaining, e.name);
        EntryDone(walk, entries[..i], e, remaining, was, cellJobs, kept);
        pending := pending[e.key := kept];
      }
    }
    assert entries[..|entries|] == entries;
  }

  lemma PendingDistinct(walk: Walker, entries: seq<Entry>, k: Key, cells: seq<Cell>)
    requires Pending(walk, entries, k, cells)
    ensures Distinct(cells)
  {}

  /** A schedule with nothing left, or none at all, changes no list. */
  lemma NothingLeft(walk: Walker, entries: seq<Entry>, e: Entry, cellJobs: map<Cell, seq<string>>)
    requires Sampled(walk, entries, cellJobs)
    requires walk(e.key).None? || Pending(walk, entries, e.key, [])
    ensures Sampled(walk, entries + [e], cellJobs)
  {
    var more := entries + [e];
    assert more[..|more| - 1] == entries;
    forall c: Cell ensures NamesAt(walk, more, c) == NamesAt(walk, entries, c) {
      FullStays(walk, entries, e, c);
    }
  }

  lemma NothingSampled(walk: Walker)
    ensures Sampled(walk, [], map[])
  {}

  method StartPending(walk: Walker, walks: map<Key, Walk>) returns (pending: map<Key, seq<Cell>>)
    requires forall k :: k in walks ==> walk(k) == Some(walks[k])
    ensures pending.Keys == walks.Keys && forall k :: k in pending ==> Pending(walk, [], k, pending[k])
  {
    pending := map[];
    var left := walks.Keys;
    while left != {}
      invariant left <= walks.Keys && pending.Keys == walks.Keys - left
      invariant forall k :: k in pending ==> Pending(walk, [], k, pending[k])
      decreases |left|
    {
      var k :| k in left;
      left := left - {k};
      var cells := Unique(walks[k].cells);
      pending := pending[k := cells];
    }
  }

  // ----- the whole -----

  /** The grouped walk gives what replaying every entry gives. */
  method FireCells(walk: Walker, entries: seq<Entry>, names: bool)
      returns (grid: array2<int>, cellJobs: map<Cell, seq<string>>, minuteJobs: array<set<string>>)
    ensures grid.Length0 == HOURS && grid.Length1 == MINUTES && minuteJobs.Length == MINUTES
    ensures forall h, m :: 0 <= h < HOURS && 0 <= m < MINUTES ==> grid[h, m] == GridAt(walk, entries, (h, m))
    ensures names ==> forall m :: 0 <= m < MINUTES ==> minuteJobs[m] == MinuteAt(walk, entries, m)
    ensures names ==> Sampled(walk, entries, cellJobs)
    ensures !names ==> cellJobs == map[] && forall m :: 0 <= m < MINUTES ==> minuteJobs[m] == {}
  {
    hide GridAt;
    hide Grouped;
    hide Sampled;
    hide MinuteAt;
    hide MinuteOfGroups;
    var order, members, walks := GroupEntries(walk, entries);
    grid := FillGrid(walk, order, members, walks);
    if names {
      minuteJobs := FillMinutes(walk, order, members, walks);
      forall m | 0 <= m < MINUTES ensures minuteJobs[m] == MinuteAt(walk, entries, m) {
        MinutesMeet(walk, entries, order, members, m);
      }
      cellJobs := FillCellJobs(walk, entries, walks);
    } else {
      minuteJobs := new set<string>[MINUTES](m => {});
      cellJobs := map[];
    }
  }

  // ----- conservation -----

  function CellNumber(n: nat): Cell
    requires n < HOURS * MINUTES
  {
    (n / MINUTES, n % MINUTES)
  }

  /** The grid summed over its first `n` cells. */
  function Total(walk: Walker, entries: seq<Entry>, n: nat): nat
    requires n <= HOURS * MINUTES
  {
    if n == 0 then 0 else Total(walk, entries, n - 1) + GridAt(walk, entries, CellNumber(n - 1))
  }

  /** Weight times fires, over the entries. */
  function Runs(walk: Walker, entries: seq<Entry>): nat {
    if entries == [] then 0
    else
      var k := entries[|entries| - 1].key;
      Runs(walk, entries[..|entries| - 1]) + Weight(walk, k) * |Cells(walk, k)|
  }

  function Occurrences(cells: seq<Cell>, n: nat): nat
    requires n <= HOURS * MINUTES
  {
    if n == 0 then 0 else Occurrences(cells, n - 1) + multiset(cells)[CellNumber(n - 1)]
  }

  lemma {:induction false} OneMoreFire(cells: seq<Cell>, c: Cell, n: nat)
    requires n <= HOURS * MINUTES
    ensures Occurrences(cells + [c], n) == Occurrences(cells, n) + if c.0 * MINUTES + c.1 < n then 1 else 0
  {
    if n > 0 {
      OneMoreFire(cells, c, n - 1);
      Numbering(c, n - 1);
    }
  }

  lemma Numbering(c: Cell, n: nat)
    requires n < HOURS * MINUTES
    ensures CellNumber(n) == c <==> c.0 * MINUTES + c.1 == n
  {}

  lemma {:induction false} EveryFireCounts(cells: seq<Cell>)
    ensures Occurrences(cells, HOURS * MINUTES) == |cells|
  {
    if cells == [] {
      NoFires(HOURS * MINUTES);
    } else {
      var rest, c := cells[..|cells| - 1], cells[|cells| - 1];
      EveryFireCounts(rest);
      OneMoreFire(rest, c, HOURS * MINUTES);
      assert cells == rest + [c];
    }
  }

  lemma {:induction false} NoFires(n: nat)
    requires n <= HOURS * MINUTES
    ensures Occurrences([], n) == 0
  {
    if n > 0 {
      NoFires(n - 1);
    }
  }

  lemma {:induction false} TotalStep(walk: Walker, entries: seq<Entry>, e: Entry, n: nat)
    requires n <= HOURS * MINUTES
    ensures Total(walk, entries + [e], n)
         == Total(walk, entries, n) + Weight(walk, e.key) * Occurrences(Cells(walk, e.key), n)
  {
    if n > 0 {
      TotalStep(walk, entries, e, n - 1);
      assert (entries + [e])[..|entries + [e]| - 1] == entries;
      Sums(Weight(walk, e.key), Occurrences(Cells(walk, e.key), n - 1),
           multiset(Cells(walk, e.key))[CellNumber(n - 1)]);
    }
  }

  lemma Sums(w: int, a: int, b: int)
    ensures w * (a + b) == w * a + w * b
  {}

  lemma {:induction false} NoTotal(walk: Walker, n: nat)
    requires n <= HOURS * MINUTES
    ensures Total(walk, [], n) == 0
  {
    if n > 0 {
      NoTotal(walk, n - 1);
    }
  }

  /** Nothing is lost or invented: the grid sums to weight times fires over the entries. */
  lemma {:induction false} GridConserves(walk: Walker, entries: seq<Entry>)
    ensures Total(walk, entries, HOURS * MINUTES) == Runs(walk, entries)
  {
    if entries == [] {
      NoTotal(walk, HOURS * MINUTES);
    } else {
      var rest, e := entries[..|entries| - 1], entries[|entries| - 1];
      GridConserves(walk, rest);
      TotalStep(walk, rest, e, HOURS * MINUTES);
      EveryFireCounts(Cells(walk, e.key));
      assert entries == rest + [e];
    }
  }
}
