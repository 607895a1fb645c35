/**
 The record of `@reboot` one-shots already run. A run counts only under the
 job-set id it was made under; marks, reloads, pushes and polls interleave, and
 no node ever reports a one-shot that nobody ran under that id.
 */
module RebootRan {
  import opened Options
  import opened Collections
  import opened Ordering
  import opened PeerTable
  import opened ClusterView

  /** How many names are stored and re-advertised. */
  const MAX_ADVERTISED := 512

  // ----- one node's record -----

  /** The recorded runs and the job-set id they were recorded under. */
  datatype Ledger = Ledger(ran: set<string>, id: Option<string>)

  /** Runs of another job set are dropped; the first id seen drops nothing. */
  function Reconciled(l: Ledger, myId: string): Ledger {
    Ledger(if l.id.Some? && l.id.value != myId then {} else l.ran, Some(myId))
  }

  function Marked(l: Ledger, job: string, myId: string): Ledger {
    var r := Reconciled(l, myId);
    r.(ran := r.ran + {job})
  }

  /** The least names, when there are too many. */
  ghost function Trimmed(names: set<string>): (kept: set<string>)
    ensures kept <= names && |kept| <= MAX_ADVERTISED
    ensures |names| <= MAX_ADVERTISED ==> kept == names
  {
    var all := Ascend(names);
    if |names| <= MAX_ADVERTISED then names
    else
      PrefixCount(all, MAX_ADVERTISED);
      AsSet(all[..MAX_ADVERTISED])
  }

  lemma {:induction false} PrefixCount(s: seq<string>, k: nat)
    requires k <= |s|
    ensures |AsSet(s[..k])| <= k
  {
    if k > 0 {
      PrefixCount(s, k - 1);
      assert AsSet(s[..k]) == AsSet(s[..k - 1]) + {s[k - 1]};
    }
  }

  /** An overflowing record keeps as many names as it may, and drops none that is below one it keeps. */
  lemma TrimKeepsLeast(names: set<string>)
    requires |names| > MAX_ADVERTISED
    ensures |Trimmed(names)| == MAX_ADVERTISED
    ensures forall k, d :: k in Trimmed(names) && d in names && d !in Trimmed(names) ==> NameBelow(k, d)
  {
    hide Ascend;
    hide NameBelow;
    var all := Ascend(names);
    var kept := all[..MAX_ADVERTISED];
    RankedPrefix(all, names, MAX_ADVERTISED);
    forall k, d | k in AsSet(kept) && d in names && d !in AsSet(kept) ensures NameBelow(k, d) {
      var i :| 0 <= i < |kept| && kept[i] == k;
      var j :| 0 <= j < |all| && all[j] == d;
      if j < MAX_ADVERTISED {
        InPrefix(all, j, MAX_ADVERTISED);
      }
    }
  }

  lemma InPrefix(all: seq<string>, j: nat, k: nat)
    requires j < k <= |all|
    ensures all[j] in AsSet(all[..k])
  {
    assert all[..k][j] == all[j];
  }

  lemma {:induction false} RankedPrefix(all: seq<string>, names: set<string>, k: nat)
    requires Ranked(all, names) && k <= |all|
    ensures |AsSet(all[..k])| == k
  {
    hide NameBelow;
    if k > 0 {
      RankedPrefix(all, names, k - 1);
      forall i | 0 <= i < k - 1 ensures all[i] != all[k - 1] {
        NamesTotal(all[i], all[k - 1]);
      }
      assert AsSet(all[..k]) == AsSet(all[..k - 1]) + {all[k - 1]};
    }
  }

  /** A push counts only from a sender on our job set. */
  ghost function Pushed(l: Ledger, sender: string, names: set<string>, myId: string): Ledger {
    if sender != myId then l
    else
      var r := Reconciled(l, myId);
      r.(ran := Trimmed(r.ran + names))
  }

  predicate Speaks(p: Peer, myId: string) {
    p.status.Agreed? && p.jobSetId == Some(myId) && p.ranRebootJobs.Some?
  }

  function Own(l: Ledger, myId: string): set<string> {
    if l.id.None? || l.id.value == myId then l.ran else {}
  }

  /** What this node reports as already run under its live job set. */
  ghost function Advertised(l: Ledger, t: seq<Peer>, myId: string): set<string> {
    Own(l, myId) + set i, j | 0 <= i < |t| && Speaks(t[i], myId) && j in t[i].ranRebootJobs.value :: j
  }

  /** What is reported: own runs of this very job set, and those an agreed peer on it reports. */
  lemma ReportedIs(l: Ledger, t: seq<Peer>, myId: string, job: string)
    ensures job in Advertised(l, t, myId)
       <==> || (job in l.ran && (l.id.None? || l.id.value == myId))
            || exists p :: p in t && p.status == Agreed && p.jobSetId == Some(myId)
                           && p.ranRebootJobs.Some? && job in p.ranRebootJobs.value
  {
    if exists p :: p in t && Speaks(p, myId) && job in p.ranRebootJobs.value {
      var p :| p in t && Speaks(p, myId) && job in p.ranRebootJobs.value;
      var i :| 0 <= i < |t| && t[i] == p;
    }
  }

  /** A run that is marked is reported from then on, whatever was recorded before. */
  lemma MarkIsReported(l: Ledger, t: seq<Peer>, myId: string, job: string)
    ensures job in Advertised(Marked(l, job, myId), t, myId)
    ensures forall other :: other in Advertised(l, t, myId) ==> other in Advertised(Marked(l, job, myId), t, myId)
  {}

  /** So is every name of a push under our job set, if the record holds them all. */
  lemma PushIsReported(l: Ledger, t: seq<Peer>, myId: string, names: set<string>)
    requires |Reconciled(l, myId).ran + names| <= MAX_ADVERTISED
    ensures names <= Advertised(Pushed(l, myId, names, myId), t, myId)
    ensures Own(l, myId) <= Advertised(Pushed(l, myId, names, myId), t, myId)
  {}

  class RebootLedger {
    var ran: set<string>
    var id: Option<string>

    ghost function Value(): Ledger
      reads this
    {
      Ledger(ran, id)
    }

    constructor ()
      ensures Value() == Ledger({}, None)
    {
      ran, id := {}, None;
    }

    method Reconcile(myId: string)
      modifies this
      ensures Value() == Reconciled(old(Value()), myId)
    {
      if id.Some? && myId != id.value {
        ran := {};
      }
      id := Some(myId);
    }

    method Mark(job: string, myId: string)
      modifies this
      ensures Value() == Marked(old(Value()), job, myId)
    {
      Reconcile(myId);
      ran := ran + {job};
    }

    method HandlePush(sender: string, names: set<string>, myId: string)
      modifies this
      ensures Value() == Pushed(old(Value()), sender, names, myId)
    {
      hide Ascend;
      if sender == myId {
        Reconcile(myId);
        ran := ran + names;
        if |ran| > MAX_ADVERTISED {
          var all := Sort(ran);
          RankedUnique(all, Ascend(ran), ran);
          ran := AsSet(all[..MAX_ADVERTISED]);
        }
      }
    }

    method AdvertisedRanJobs(t: seq<Peer>, myId: string) returns (jobs: set<string>)
      ensures jobs == Advertised(Value(), t, myId)
    {
      jobs := if id.None? || id.value == myId then ran else {};
      for i := 0 to |t|
        invariant jobs == Advertised(Value(), t[..i], myId)
      {
        AdvertiseStep(Value(), t, i, myId);
        if t[i].status.Agreed? && t[i].jobSetId == Some(myId) && t[i].ranRebootJobs.Some? {
          jobs := jobs + t[i].ranRebootJobs.value;
        }
      }
      assert t[..|t|] == t;
    }

    /** The early-exit membership test answers the same question. */
    method Ran(job: string, t: seq<Peer>, myId: string) returns (known: bool)
      ensures known <==> job in Advertised(Value(), t, myId)
    {
      if (id.None? || id.value == myId) && job in ran {
        return true;
      }
      for i := 0 to |t|
        invariant job !in Advertised(Value(), t[..i], myId)
      {
        AdvertiseStep(Value(), t, i, myId);
        if t[i].status.Agreed? && t[i].jobSetId == Some(myId) && t[i].ranRebootJobs.Some?
           && job in t[i].ranRebootJobs.value {
          return true;
        }
      }
      assert t[..|t|] == t;
      return false;
    }
  }

  lemma AdvertiseStep(l: Ledger, t: seq<Peer>, i: nat, myId: string)
    requires i < |t|
    ensures Advertised(l, t[..i + 1], myId)
         == Advertised(l, t[..i], myId) + if Speaks(t[i], myId) then t[i].ranRebootJobs.value else {}
    ensures Advertised(l, t[..i + 1], myId) <= Advertised(l, t, myId)
  {
    var a, b := t[..i], t[..i + 1];
    assert b[i] == t[i];
    assert forall k :: 0 <= k < i ==> b[k] == a[k] == t[k];
  }

  /** What may happen to a record while the live job set stays the same. */
  datatype Entry = Polling | Marking(job: string) | Pushing(sender: string, names: set<string>)

  ghost function Entered(l: Ledger, e: Entry, myId: string): Ledger {
    match e
    case Polling => Reconciled(l, myId)
    case Marking(job) => Marked(l, job, myId)
    case Pushing(sender, names) => Pushed(l, sender, names, myId)
  }

  ghost function Kept(l: Ledger, entries: seq<Entry>, myId: string): Ledger {
    if entries == [] then l else Entered(Kept(l, entries[..|entries| - 1], myId), entries[|entries| - 1], myId)
  }

  /** No push of the run overflows the record. */
  ghost predicate Fits(l: Ledger, entries: seq<Entry>, myId: string) {
    forall i :: 0 <= i < |entries| && entries[i].Pushing? ==>
      |Kept(l, entries[..i], myId).ran + entries[i].names| <= MAX_ADVERTISED
  }

  /** While the job set stays and the record fits, whatever comes, nothing recorded is lost. */
  lemma {:induction false} RecordStays(l: Ledger, entries: seq<Entry>, myId: string, job: string)
    requires l.id == Some(myId) && job in l.ran && Fits(l, entries, myId)
    ensures var k := Kept(l, entries, myId); k.id == Some(myId) && job in k.ran && job in Own(k, myId)
  {
    if entries != [] {
      var rest, n := entries[..|entries| - 1], |entries| - 1;
      assert forall i :: 0 <= i < n ==> rest[..i] == entries[..i] && rest[i] == entries[i];
      RecordStays(l, rest, myId, job);
      assert entries[n].Pushing? ==> |Kept(l, rest, myId).ran + entries[n].names| <= MAX_ADVERTISED;
    }
  }

  // ----- the cluster -----

  datatype Host = Host(liveId: string, ledger: Ledger, table: seq<Peer>)

  /** A push body or the ran part of a `/peer` body. */
  datatype Note = Note(id: string, names: set<string>)

  /** `marked` is the ghost of every run actually made; notes may be lost, delayed or repeated. */
  datatype System = System(hosts: seq<Host>, notes: set<Note>, marked: set<(string, string)>)

  datatype Step =
    | Reload(at: nat, id: string)
    | Mark(at: nat, job: string)
    | Tick(at: nat)
    | Send(at: nat)
    | Receive(at: nat, note: Note)
    | Observe(at: nat, entry: nat, note: Note, o: Observation, me: Node, myId: string, driftAfter: int)
    | Miss(at: nat, entry: nat, untrusted: bool)

  /** A step some node can take; an observation carries a note's id and at most its names. */
  ghost predicate Enabled(s: System, step: Step) {
    && step.at < |s.hosts|
    && (step.Receive? ==> step.note in s.notes)
    && (step.Observe? ==>
          && step.note in s.notes && step.entry < |s.hosts[step.at].table|
          && step.o.id == Some(step.note.id) && (step.o.ranJobs.Some? ==> step.o.ranJobs.value <= step.note.names))
    && (step.Miss? ==> step.entry < |s.hosts[step.at].table|)
  }

  /** What a host sends: its job set, and what it reports, capped. */
  ghost function SentNote(h: Host): Note {
    Note(h.liveId, Trimmed(Advertised(h.ledger, h.table, h.liveId)))
  }

  ghost function After(s: System, step: Step): System
    requires Enabled(s, step)
  {
    var h := s.hosts[step.at];
    match step
    case Reload(at, id) => s.(hosts := s.hosts[at := h.(liveId := id)])
    case Mark(at, job) =>
      s.(hosts := s.hosts[at := h.(ledger := Marked(h.ledger, job, h.liveId))],
         marked := s.marked + {(job, h.liveId)})
    case Tick(at) => s.(hosts := s.hosts[at := h.(ledger := Reconciled(h.ledger, h.liveId))])
    case Send(at) => s.(notes := s.notes + {SentNote(h)})
    case Receive(at, note) =>
      s.(hosts := s.hosts[at := h.(ledger := Pushed(h.ledger, note.id, note.names, h.liveId))])
    case Observe(at, k, note, o, me, myId, driftAfter) =>
      s.(hosts := s.hosts[at := h.(table := h.table[k := Succeeded(h.table[k], o, me, myId, driftAfter)])])
    case Miss(at, k, untrusted) =>
      s.(hosts := s.hosts[at := h.(table := h.table[k := Failed(h.table[k], untrusted)])])
  }

  ghost predicate Starts(s: System) {
    && s.notes == {} && s.marked == {}
    && forall i :: 0 <= i < |s.hosts| ==>
         && s.hosts[i].ledger == Ledger({}, None)
         && forall k :: 0 <= k < |s.hosts[i].table| ==> s.hosts[i].table[k] == BLANK
  }

  ghost predicate Reaches(s: System, steps: seq<Step>, t: System)
    decreases |steps|
  {
    if steps == [] then s == t
    else Enabled(s, steps[0]) && Reaches(After(s, steps[0]), steps[1..], t)
  }

  // ----- every report traces to a run -----

  ghost predicate Traced(marked: set<(string, string)>, names: set<string>, id: string) {
    forall j :: j in names ==> (j, id) in marked
  }

  ghost predicate TracedEntry(marked: set<(string, string)>, p: Peer) {
    p.ranRebootJobs.Some? ==> p.jobSetId.Some? && Traced(marked, p.ranRebootJobs.value, p.jobSetId.value)
  }

  ghost predicate TracedHost(marked: set<(string, string)>, h: Host) {
    && (h.ledger.id.None? ==> h.ledger.ran == {})
    && (h.ledger.id.Some? ==> Traced(marked, h.ledger.ran, h.ledger.id.value))
    && forall k :: 0 <= k < |h.table| ==> TracedEntry(marked, h.table[k])
  }

  ghost predicate Inv(s: System) {
    && (forall i :: 0 <= i < |s.hosts| ==> TracedHost(s.marked, s.hosts[i]))
    && forall n :: n in s.notes ==> Traced(s.marked, n.names, n.id)
  }

  lemma AdvertisedIsTraced(marked: set<(string, string)>, h: Host)
    requires TracedHost(marked, h)
    ensures Traced(marked, Advertised(h.ledger, h.table, h.liveId), h.liveId)
  {}

  lemma MoreMarks(marked: set<(string, string)>, more: set<(string, string)>, h: Host)
    requires TracedHost(marked, h) && marked <= more
    ensures TracedHost(more, h)
  {}

  lemma StepKeeps(s: System, step: Step)
    requires Inv(s) && Enabled(s, step)
    ensures Inv(After(s, step))
  {
    hide Advertised;
    hide Trimmed;
    hide Succeeded;
    hide TracedHost;
    var h, t := s.hosts[step.at], After(s, step);
    if step.Mark? {
      forall i | 0 <= i < |s.hosts| ensures TracedHost(t.marked, s.hosts[i]) {
        MoreMarks(s.marked, t.marked, s.hosts[i]);
      }
    }
    if step.Send? {
      AdvertisedIsTraced(s.marked, h);
    } else {
      HostKeeps(s, step);
    }
  }

  lemma HostKeeps(s: System, step: Step)
    requires Inv(s) && Enabled(s, step) && !step.Send?
    ensures TracedHost(After(s, step).marked, After(s, step).hosts[step.at])
  {
    hide Advertised;
    hide Trimmed;
    hide Succeeded;
    if step.Observe? {
      StatusIs(s.hosts[step.at].table[step.entry], step.o, step.me, step.myId, step.driftAfter);
    }
  }

  lemma {:induction false} RunKeeps(s: System, steps: seq<Step>, t: System)
    requires Inv(s) && Reaches(s, steps, t)
    ensures Inv(t)
    decreases |steps|
  {
    hide Inv;
    hide After;
    hide Enabled;
    if steps != [] {
      StepKeeps(s, steps[0]);
      RunKeeps(After(s, steps[0]), steps[1..], t);
    }
  }

  /** Whatever a node reports as run under its live job set, some node did run under that id. */
  lemma NoPhantomRun(s: System, steps: seq<Step>, t: System, i: nat, job: string)
    requires Starts(s) && Reaches(s, steps, t) && i < |t.hosts|
    requires job in Advertised(t.hosts[i].ledger, t.hosts[i].table, t.hosts[i].liveId)
    ensures (job, t.hosts[i].liveId) in t.marked
  {
    hide Advertised;
    hide Reaches;
    RunKeeps(s, steps, t);
    AdvertisedIsTraced(t.marked, t.hosts[i]);
  }

  // ----- every run is reported -----

  /** The host has the run on record under its live job set. */
  ghost predicate Records(h: Host, job: string) {
    h.ledger.id == Some(h.liveId) && job in h.ledger.ran
  }

  /** The step neither gives host `i` another job set nor overflows its record. */
  ghost predicate Calm(s: System, step: Step, i: nat)
    requires i < |s.hosts|
  {
    var h := s.hosts[i];
    step.at == i ==>
      && (step.Reload? ==> step.id == h.liveId)
      && (step.Receive? && step.note.id == h.liveId ==>
            |Reconciled(h.ledger, h.liveId).ran + step.note.names| <= MAX_ADVERTISED)
  }

  ghost predicate CalmRun(s: System, steps: seq<Step>, i: nat)
    requires i < |s.hosts|
    decreases |steps|
  {
    steps == [] || (Enabled(s, steps[0]) && Calm(s, steps[0], i) && CalmRun(After(s, steps[0]), steps[1..], i))
  }

  lemma CalmKeeps(s: System, step: Step, i: nat, job: string)
    requires i < |s.hosts| && Enabled(s, step) && Calm(s, step, i) && Records(s.hosts[i], job)
    ensures var t := After(s, step);
            |t.hosts| == |s.hosts| && t.hosts[i].liveId == s.hosts[i].liveId && Records(t.hosts[i], job)
  {
    hide Advertised;
    hide Succeeded;
  }

  lemma {:induction false} RecordedStays(s: System, steps: seq<Step>, t: System, i: nat, job: string)
    requires i < |s.hosts| && Records(s.hosts[i], job) && Reaches(s, steps, t) && CalmRun(s, steps, i)
    ensures i < |t.hosts| && t.hosts[i].liveId == s.hosts[i].liveId && Records(t.hosts[i], job)
    ensures job in Advertised(t.hosts[i].ledger, t.hosts[i].table, t.hosts[i].liveId)
    decreases |steps|
  {
    hide After;
    hide Enabled;
    hide Calm;
    if steps != [] {
      CalmKeeps(s, steps[0], i, job);
      RecordedStays(After(s, steps[0]), steps[1..], t, i, job);
    }
  }

  /** Over every run of the cluster: what a host marked it reports, while its job set stays and no push overflows. */
  lemma MarkedStaysReported(s: System, i: nat, job: string, steps: seq<Step>, t: System)
    requires i < |s.hosts| && Reaches(After(s, Mark(i, job)), steps, t) && CalmRun(After(s, Mark(i, job)), steps, i)
    ensures i < |t.hosts| && job in Advertised(t.hosts[i].ledger, t.hosts[i].table, t.hosts[i].liveId)
  {
    hide Reaches;
    hide CalmRun;
    RecordedStays(After(s, Mark(i, job)), steps, t, i, job);
  }

  /** The same of every name of a push that was received and fitted. */
  lemma PushedStaysReported(s: System, i: nat, note: Note, job: string, steps: seq<Step>, t: System)
    requires i < |s.hosts| && note in s.notes && note.id == s.hosts[i].liveId && job in note.names
    requires Calm(s, Receive(i, note), i)
    requires Reaches(After(s, Receive(i, note)), steps, t) && CalmRun(After(s, Receive(i, note)), steps, i)
    ensures i < |t.hosts| && job in Advertised(t.hosts[i].ledger, t.hosts[i].table, t.hosts[i].liveId)
  {
    hide Reaches;
    hide CalmRun;
    RecordedStays(After(s, Receive(i, note)), steps, t, i, job);
  }

  /** The host reports the run, and sends all it reports. */
  ghost predicate Reports(h: Host, job: string) {
    var all := Advertised(h.ledger, h.table, h.liveId);
    job in all && |all| <= MAX_ADVERTISED
  }

  /** Host `j` receives the note, it fits, and the calm run `b` follows. */
  ghost predicate Absorbs(u: System, j: nat, note: Note, b: seq<Step>, t: System)
    requires j < |u.hosts|
  {
    var step := Receive(j, note);
    && Enabled(u, step) && Calm(u, step, j) && |After(u, step).hosts| == |u.hosts|
    && Reaches(After(u, step), b, t) && CalmRun(After(u, step), b, j)
  }

  /**
   From host to host: a run one host reports and sends is reported by any host
   that receives that note on the same job set, whatever happens in between.
   */
  lemma RunSpreads(s: System, i: nat, job: string, a: seq<Step>, u: System, j: nat, b: seq<Step>, t: System)
    requires i < |s.hosts| && Reports(s.hosts[i], job) && Reaches(After(s, Send(i)), a, u)
    requires j < |u.hosts| && u.hosts[j].liveId == s.hosts[i].liveId
    requires Absorbs(u, j, SentNote(s.hosts[i]), b, t)
    ensures j < |t.hosts| && job in Advertised(t.hosts[j].ledger, t.hosts[j].table, t.hosts[j].liveId)
  {
    hide Reaches;
    hide CalmRun;
    hide Advertised;
    hide Calm;
    hide After;
    PushedStaysReported(u, j, SentNote(s.hosts[i]), job, b, t);
  }

  /** Entry `k` reports the run under this job set. */
  ghost predicate Says(p: Peer, id: string, job: string) {
    p.status == Agreed && p.jobSetId == Some(id) && p.ranRebootJobs.Some? && job in p.ranRebootJobs.value
  }

  /** The step leaves entry `k` of host `i` and its job set alone. */
  ghost predicate Aside(s: System, step: Step, i: nat, k: nat)
    requires i < |s.hosts|
  {
    step.at == i ==>
      && (step.Reload? ==> step.id == s.hosts[i].liveId)
      && !(step.Observe? && step.entry == k) && !(step.Miss? && step.entry == k)
  }

  ghost predicate AsideRun(s: System, steps: seq<Step>, i: nat, k: nat)
    requires i < |s.hosts|
    decreases |steps|
  {
    steps == [] || (Enabled(s, steps[0]) && Aside(s, steps[0], i, k) && AsideRun(After(s, steps[0]), steps[1..], i, k))
  }

  lemma AsideKeeps(s: System, step: Step, i: nat, k: nat)
    requires i < |s.hosts| && k < |s.hosts[i].table| && Enabled(s, step) && Aside(s, step, i, k)
    ensures var h := After(s, step).hosts[i];
            h.liveId == s.hosts[i].liveId && k < |h.table| && h.table[k] == s.hosts[i].table[k]
  {
    hide Advertised;
    hide Succeeded;
    hide Trimmed;
  }

  lemma {:induction false} SaidStays(s: System, steps: seq<Step>, t: System, i: nat, k: nat, job: string)
    requires i < |s.hosts| && k < |s.hosts[i].table| && Says(s.hosts[i].table[k], s.hosts[i].liveId, job)
    requires Reaches(s, steps, t) && AsideRun(s, steps, i, k)
    ensures i < |t.hosts| && job in Advertised(t.hosts[i].ledger, t.hosts[i].table, t.hosts[i].liveId)
    decreases |steps|
  {
    hide After;
    hide Enabled;
    hide Aside;
    if steps != [] {
      AsideKeeps(s, steps[0], i, k);
      AfterSize(s, steps[0]);
      SaidStays(After(s, steps[0]), steps[1..], t, i, k, job);
    }
  }

  lemma AfterSize(s: System, step: Step)
    requires Enabled(s, step)
    ensures |After(s, step).hosts| == |s.hosts|
  {}

  /** A run an agreed peer reports is reported here until that entry is polled again or the job set changes. */
  lemma ObservedStaysReported(s: System, step: Step, job: string, steps: seq<Step>, t: System)
    requires Enabled(s, step) && step.Observe? && step.myId == s.hosts[step.at].liveId
    requires step.o.name != Some(step.me.name) && (step.o.scheme.None? || step.o.scheme.value == "v1")
    requires step.o.id == Some(step.myId) && step.o.ranJobs.Some? && job in step.o.ranJobs.value
    requires Reaches(After(s, step), steps, t) && AsideRun(After(s, step), steps, step.at, step.entry)
    ensures step.at < |t.hosts|
    ensures var h := t.hosts[step.at]; job in Advertised(h.ledger, h.table, h.liveId)
  {
    hide Reaches;
    hide AsideRun;
    hide Advertised;
    hide Succeeded;
    StatusIs(s.hosts[step.at].table[step.entry], step.o, step.me, step.myId, step.driftAfter);
    SaidStays(After(s, step), steps, t, step.at, step.entry, job);
  }
}
