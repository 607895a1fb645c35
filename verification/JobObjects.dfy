/**
 One capped run's Job Object under concurrency: an attach, any number of ends
 (finish or abort), kills, watcher messages, sweeps, collections and the daemon's
 shutdown, interleaved at the granularity of the locks and of single system
 calls, any of which may fail.
 */
module JobObjects {
  /** The child process as the system sees it. */
  datatype Child = Child(alive: bool, suspended: bool, inJob: bool)

  /** The stages of ending a child, each one system call or one locked section. */
  datatype Stage = ThroughJob | ThroughProcess | Reopening | ThroughFresh | Resuming

  /** The attaching thread; `late` is an attach that found the run already ended. */
  datatype Attach =
    | NotCalled
    | Opening
    | Assigning
    | Starting
    | Unguarding
    | Uncontained(process: bool)
    | Ending(stage: Stage, process: bool, late: bool)
    | Leaving
    | Left

  /** One finish or abort. */
  datatype End = Reading | Closing | EndingChild(stage: Stage) | Releasing | Done

  /** The entry's fields, each guarded by its lock. */
  datatype Entry = Entry(handle: bool, guard: bool, joined: bool, empty: bool, released: bool, memoryExceeded: bool)

  /** The system's side of the job handle: whether it is open, how often it was closed, whether a dead one was used. */
  datatype Job = Job(open: bool, closes: nat, misused: bool)

  /** Terminate and resume calls made on the child, and the terminate calls alone: any made, any successful. */
  datatype Calls = Calls(tried: bool, worked: bool, killTried: bool, killed: bool)

  datatype World = World(entry: Entry, job: Job, child: Child, calls: Calls)

  /** `overlapped` records that an end met a running attach, or an attach an ended run. */
  datatype State = State(
    required: bool,
    spawnedSuspended: bool,
    world: World,
    attaching: bool,
    closed: bool,
    overlapped: bool,
    attach: Attach,
    ends: seq<End>)

  datatype Message = MemoryLimit | ProcessLimit | ProcessZero

  /** Who moves next; `ok` is the outcome of the system call the move makes, if any. */
  datatype Event =
    | AttachStep(ok: bool)
    | Interrupt
    | CallEnd
    | EndStep(i: nat, ok: bool)
    | Kill(ok: bool)
    | Watch(message: Message, ok: bool)
    | Sweep(over: bool, ok: bool)
    | Collect(drained: bool)
    | Query
    | Shutdown
    | ChildExits

  // ----- system calls -----

  /** Any call that passes the job's handle. */
  function Use(w: World): World {
    w.(job := w.job.(misused := w.job.misused || !w.job.open))
  }

  function Close(w: World): World {
    var u := Use(w);
    u.(entry := u.entry.(handle := false), job := u.job.(open := false, closes := u.job.closes + 1))
  }

  function Died(c: Child): Child {
    c.(alive := false, suspended := false)
  }

  function TerminateProcess(w: World, ok: bool): World {
    if ok then w.(child := Died(w.child), calls := Calls(true, true, true, true))
    else w.(calls := w.calls.(tried := true, killTried := true))
  }

  function TerminateJob(w: World, ok: bool): World {
    if w.child.inJob then TerminateProcess(Use(w), ok) else Use(w)
  }

  function Resume(w: World, ok: bool): World {
    if ok then w.(child := w.child.(suspended := false), calls := w.calls.(tried := true, worked := true))
    else w.(calls := w.calls.(tried := true))
  }

  // ----- locked sections -----

  function Exceeded(w: World, ok: bool): World {
    var e := w.(entry := w.entry.(memoryExceeded := true));
    if e.entry.handle then TerminateJob(e, ok) else e
  }

  function OnMessage(w: World, message: Message, ok: bool): World {
    match message
    case MemoryLimit => Exceeded(w, ok)
    case ProcessLimit => w
    case ProcessZero =>
      var e := w.(entry := w.entry.(empty := true));
      if e.entry.released && e.entry.handle then Close(e) else e
  }

  function SweepEntry(w: World, over: bool, ok: bool): World {
    if !w.entry.handle || !w.entry.joined || w.entry.memoryExceeded then w
    else if over then Exceeded(Use(w), ok)
    else Use(w)
  }

  /** Closes the handle once the job is known to be empty. */
  function Release(w: World, drained: bool): World {
    var r := w.(entry := w.entry.(released := true));
    if !r.entry.handle then r
    else
      var q := if r.entry.empty then r else Use(r).(entry := r.entry.(empty := drained));
      if q.entry.empty then Close(q) else q
  }

  /** Kill, and every read-only query: only with a joined child and a live handle. */
  predicate Reachable(w: World) {
    w.entry.joined && w.entry.handle
  }

  function Join(w: World, ok: bool): World {
    if ok then Use(w).(entry := w.entry.(joined := true), child := w.child.(inJob := true)) else Use(w)
  }

  function Unguard(w: World, ok: bool): World {
    if w.entry.guard && w.entry.handle then Use(w).(entry := w.entry.(guard := !ok)) else w
  }

  function AfterJob(process: bool): Stage {
    if process then ThroughProcess else Reopening
  }

  /** One step of ending the child: the new world, whether that was the last step, and the next stage. */
  function EndChild(w: World, stage: Stage, process: bool, ok: bool): (World, bool, Stage) {
    match stage
    case ThroughJob =>
      if Reachable(w) then (TerminateJob(w, ok), ok, AfterJob(process)) else (w, false, AfterJob(process))
    case ThroughProcess => (TerminateProcess(w, ok), ok, Reopening)
    case Reopening =>
      if ok then (w, false, ThroughFresh) else (w.(calls := w.calls.(killTried := true)), false, Resuming)
    case ThroughFresh => (TerminateProcess(w, ok), ok, Resuming)
    case Resuming => (Resume(w, ok), true, Resuming)
  }

  // ----- threads -----

  function Attaches(s: State, ok: bool): State {
    match s.attach
    case NotCalled =>
      if s.closed then s.(attach := Ending(ThroughJob, false, true), overlapped := true)
      else s.(attaching := true, attach := Opening)
    case Opening => s.(attach := if ok then Assigning else Uncontained(false))
    case Assigning =>
      if !s.world.entry.handle then s.(attach := Uncontained(true))
      else s.(world := Join(s.world, ok), attach := if ok then Starting else Uncontained(true))
    case Starting =>
      if !s.spawnedSuspended then s.(attach := Unguarding)
      else s.(world := Resume(s.world, ok), attach := if ok then Unguarding else Ending(ThroughJob, true, false))
    case Unguarding => s.(world := Unguard(s.world, ok), attach := Leaving)
    case Uncontained(process) =>
      if s.required then s.(attach := Ending(ThroughJob, process, false))
      else if !s.spawnedSuspended then s.(attach := Leaving)
      else s.(world := Resume(s.world, ok), attach := if ok then Leaving else Ending(ThroughJob, process, false))
    case Ending(stage, process, late) =>
      var (w, over, next) := EndChild(s.world, stage, process, ok);
      s.(world := w, attach := if !over then Ending(next, process, late) else if late then Left else Leaving)
    case Leaving => s.(attaching := false, attach := Left)
    case Left => s
  }

  /** An exception in the attach's own body ends the child. */
  function Interrupted(s: State): State {
    match s.attach
    case NotCalled | Leaving | Left => s
    case Ending(_, _, true) => s
    case _ => s.(attach := Ending(ThroughJob, false, false))
  }

  function Ends(s: State, i: nat, ok: bool): State
    requires i < |s.ends|
  {
    match s.ends[i]
    case Reading => s.(world := if Reachable(s.world) then Use(s.world) else s.world, ends := s.ends[i := Closing])
    case Closing =>
      if s.attaching then s.(closed := true, overlapped := true, ends := s.ends[i := EndingChild(ThroughJob)])
      else s.(closed := true, ends := s.ends[i := Releasing])
    case EndingChild(stage) =>
      var (w, over, next) := EndChild(s.world, stage, false, ok);
      s.(world := w, ends := s.ends[i := if over then Releasing else EndingChild(next)])
    case Releasing => s.(world := Release(s.world, ok), ends := s.ends[i := Done])
    case Done => s
  }

  /** The moves of everyone else, on the world alone. */
  function Elsewhere(w: World, e: Event): World {
    match e
    case Kill(ok) => if Reachable(w) then TerminateJob(w, ok) else w
    case Watch(message, ok) => OnMessage(w, message, ok)
    case Sweep(over, ok) => SweepEntry(w, over, ok)
    case Collect(drained) => if w.entry.released then Release(w, drained) else w
    case Query => if Reachable(w) then Use(w) else w
    case Shutdown => if w.entry.handle then Close(w) else w
    case ChildExits => if w.child.suspended then w else w.(child := Died(w.child))
    case _ => w
  }

  function After(s: State, e: Event): State {
    match e
    case AttachStep(ok) => Attaches(s, ok)
    case Interrupt => Interrupted(s)
    case CallEnd => s.(ends := s.ends + [Reading])
    case EndStep(i, ok) => if i < |s.ends| then Ends(s, i, ok) else s
    case _ => s.(world := Elsewhere(s.world, e))
  }

  function Run(s: State, events: seq<Event>): State {
    if events == [] then s else After(Run(s, events[..|events| - 1]), events[|events| - 1])
  }

  /** The container as `create` returns it, with its child spawned. */
  ghost predicate Created(s: State) {
    && s.world.entry == Entry(true, s.world.entry.guard, false, false, false, false)
    && s.world.job == Job(true, 0, false)
    && s.world.child == Child(true, s.spawnedSuspended, false)
    && s.world.calls == Calls(false, false, false, false)
    && !s.attaching && !s.closed && !s.overlapped
    && s.attach == NotCalled && s.ends == []
  }

  // ----- what every locked section and every call keeps -----

  /**
   The entry's view of its handle is the system's: open and never closed, or
   closed once; a released job known to be empty holds no handle; what a
   successful call leaves of the child.
   */
  ghost predicate WorldInv(w: World) {
    && w.entry.handle == w.job.open
    && w.job.closes == (if w.job.open then 0 else 1)
    && !w.job.misused
    && (w.entry.joined ==> w.child.inJob)
    && (w.entry.released && w.entry.empty ==> !w.entry.handle)
    && (w.child.suspended ==> w.child.alive)
    && (w.calls.worked ==> w.calls.tried && !w.child.suspended)
    && (w.calls.killed ==> w.calls.killTried && !w.child.alive)
  }

  /** Nothing suspends the child again, and the record of calls only grows. */
  ghost predicate Onward(w: World, x: World) {
    && (x.child.suspended ==> w.child.suspended)
    && (w.calls.tried ==> x.calls.tried)
    && (w.calls.killTried ==> x.calls.killTried)
  }

  lemma CallsKeep(w: World, ok: bool)
    requires WorldInv(w)
    ensures WorldInv(TerminateProcess(w, ok)) && Onward(w, TerminateProcess(w, ok))
    ensures WorldInv(Resume(w, ok)) && Onward(w, Resume(w, ok))
    ensures w.entry.handle ==> WorldInv(TerminateJob(w, ok)) && Onward(w, TerminateJob(w, ok))
    ensures w.entry.handle ==> WorldInv(Close(w)) && Onward(w, Close(w))
  {}

  lemma EndChildKeeps(w: World, stage: Stage, process: bool, ok: bool)
    requires WorldInv(w) && (stage.Resuming? ==> w.calls.killTried)
    ensures WorldInv(EndChild(w, stage, process, ok).0) && Onward(w, EndChild(w, stage, process, ok).0)
    ensures EndChild(w, stage, process, ok).1
            ==> EndChild(w, stage, process, ok).0.calls.tried && EndChild(w, stage, process, ok).0.calls.killTried
    ensures !EndChild(w, stage, process, ok).1 && EndChild(w, stage, process, ok).2.Resuming?
            ==> EndChild(w, stage, process, ok).0.calls.killTried
  {
    CallsKeep(w, ok);
  }

  lemma UseKeeps(w: World)
    requires WorldInv(w) && w.entry.handle
    ensures WorldInv(Use(w)) && Onward(w, Use(w)) && Use(w).entry == w.entry && Use(w).child == w.child
  {}

  lemma ReleaseKeeps(w: World, drained: bool)
    requires WorldInv(w)
    ensures WorldInv(Release(w, drained)) && Onward(w, Release(w, drained))
  {}

  lemma JoinKeeps(w: World, ok: bool)
    requires WorldInv(w) && w.entry.handle
    ensures WorldInv(Join(w, ok)) && Onward(w, Join(w, ok))
  {}

  lemma UnguardKeeps(w: World, ok: bool)
    requires WorldInv(w)
    ensures WorldInv(Unguard(w, ok)) && Onward(w, Unguard(w, ok))
  {}

  lemma ExceededKeeps(w: World, ok: bool)
    requires WorldInv(w)
    ensures WorldInv(Exceeded(w, ok)) && Onward(w, Exceeded(w, ok))
  {
    hide TerminateJob;
    var e := w.(entry := w.entry.(memoryExceeded := true));
    CallsKeep(e, ok);
  }

  lemma MessageKeeps(w: World, message: Message, ok: bool)
    requires WorldInv(w)
    ensures WorldInv(OnMessage(w, message, ok)) && Onward(w, OnMessage(w, message, ok))
  {
    hide Exceeded;
    ExceededKeeps(w, ok);
  }

  lemma SweepKeeps(w: World, over: bool, ok: bool)
    requires WorldInv(w)
    ensures WorldInv(SweepEntry(w, over, ok)) && Onward(w, SweepEntry(w, over, ok))
  {
    hide Exceeded;
    hide Use;
    hide WorldInv;
    SameWorld(w);
    if w.entry.handle {
      UseKeeps(w);
      ExceededKeeps(Use(w), ok);
    }
  }

  /** Messages, sweeps, kills, queries, collection and shutdown. */
  lemma ElsewhereKeeps(w: World, e: Event)
    requires WorldInv(w)
    ensures WorldInv(Elsewhere(w, e)) && Onward(w, Elsewhere(w, e))
  {
    hide WorldInv;
    hide Onward;
    hide OnMessage;
    hide SweepEntry;
    hide Release;
    hide TerminateJob;
    hide Close;
    hide Use;
    SameWorld(w);
    match e
    case Kill(ok) => CallsKeep(w, ok);
    case Watch(message, ok) => MessageKeeps(w, message, ok);
    case Sweep(over, ok) => SweepKeeps(w, over, ok);
    case Collect(drained) => ReleaseKeeps(w, drained);
    case Query =>
      if Reachable(w) {
        UseKeeps(w);
      }
    case Shutdown => CallsKeep(w, true);
    case ChildExits =>
      if !w.child.suspended {
        ExitKeeps(w);
      }
    case _ =>
  }

  lemma ExitKeeps(w: World)
    requires WorldInv(w) && !w.child.suspended
    ensures WorldInv(w.(child := Died(w.child))) && Onward(w, w.(child := Died(w.child)))
  {}

  // ----- the threads -----

  /** An attach past its resume or past its ending has tried. */
  ghost predicate AttachInv(s: State) {
    && (s.world.child.suspended ==> s.spawnedSuspended)
    && (s.attach.Unguarding? || s.attach.Leaving? || s.attach.Left? ==> s.spawnedSuspended ==> s.world.calls.tried)
    && (s.attach.Ending? && s.attach.stage.Resuming? ==> s.world.calls.killTried)
  }

  predicate Late(a: Attach) {
    a.Ending? && a.late
  }

  /** An overlap leads to a kill: tried already, or a thread is at it. */
  ghost predicate OverlapInv(s: State) {
    && (s.overlapped ==>
          || s.world.calls.killTried
          || Late(s.attach)
          || exists i :: 0 <= i < |s.ends| && s.ends[i].EndingChild?)
    && forall i :: 0 <= i < |s.ends| && s.ends[i] == EndingChild(Resuming) ==> s.world.calls.killTried
  }

  ghost predicate Inv(s: State) {
    WorldInv(s.world) && AttachInv(s) && OverlapInv(s)
  }

  lemma AttachWorld(s: State, ok: bool)
    requires WorldInv(s.world) && AttachInv(s)
    ensures var t := Attaches(s, ok);
            && WorldInv(t.world) && Onward(s.world, t.world)
            && t.ends == s.ends && t.spawnedSuspended == s.spawnedSuspended
  {
    hide WorldInv;
    hide Onward;
    hide EndChild;
    hide Join;
    hide Unguard;
    hide Resume;
    hide TerminateJob;
    hide TerminateProcess;
    hide Close;
    hide Use;
    SameWorld(s.world);
    match s.attach
    case Assigning =>
      if s.world.entry.handle {
        JoinKeeps(s.world, ok);
      }
    case Unguarding => UnguardKeeps(s.world, ok);
    case Starting => CallsKeep(s.world, ok);
    case Uncontained(_) => CallsKeep(s.world, ok);
    case Ending(stage, process, _) => EndChildKeeps(s.world, stage, process, ok);
    case _ =>
  }

  lemma ResumeTries(w: World, ok: bool)
    ensures Resume(w, ok).calls.tried
  {}

  lemma SameWorld(w: World)
    ensures Onward(w, w)
  {}

  lemma AttachTries(s: State, ok: bool)
    requires WorldInv(s.world) && AttachInv(s) && !s.attach.Ending?
    ensures AttachInv(Attaches(s, ok))
  {
    hide WorldInv;
    hide EndChild;
    hide Join;
    hide Unguard;
    hide Resume;
    AttachWorld(s, ok);
    match s.attach
    case Starting => ResumeTries(s.world, ok);
    case Uncontained(_) => ResumeTries(s.world, ok);
    case _ =>
  }

  lemma EndingTries(s: State, ok: bool)
    requires WorldInv(s.world) && AttachInv(s) && s.attach.Ending?
    ensures AttachInv(Attaches(s, ok))
    ensures Attaches(s, ok).attach.Ending? || Attaches(s, ok).world.calls.killTried
  {
    hide WorldInv;
    hide EndChild;
    AttachWorld(s, ok);
    EndChildKeeps(s.world, s.attach.stage, s.attach.process, ok);
  }

  lemma AttachKeeps(s: State, ok: bool)
    requires Inv(s)
    ensures Inv(Attaches(s, ok)) && Attaches(s, ok).spawnedSuspended == s.spawnedSuspended
  {
    hide WorldInv;
    hide AttachInv;
    hide EndChild;
    hide Join;
    hide Unguard;
    hide Resume;
    AttachWorld(s, ok);
    if s.attach.Ending? {
      EndingTries(s, ok);
    } else {
      AttachTries(s, ok);
    }
  }

  /** Moving one end from one stage to the next. */
  lemma OneEndMoves(s: State, t: State, i: nat)
    requires Inv(s) && WorldInv(t.world) && Onward(s.world, t.world) && i < |s.ends| == |t.ends|
    requires t.attach == s.attach && t.spawnedSuspended == s.spawnedSuspended && t.ends == s.ends[i := t.ends[i]]
    requires s.ends[i].EndingChild? ==> t.ends[i].EndingChild? || t.world.calls.killTried
    requires t.overlapped ==> s.overlapped || t.ends[i].EndingChild?
    requires t.ends[i] == EndingChild(Resuming) ==> t.world.calls.killTried
    ensures Inv(t)
  {
    hide WorldInv;
    if s.overlapped && !t.world.calls.killTried && !Late(s.attach) {
      var k :| 0 <= k < |s.ends| && s.ends[k].EndingChild?;
      assert t.ends[k].EndingChild?;
    }
  }

  lemma EndsKeep(s: State, i: nat, ok: bool)
    requires Inv(s) && i < |s.ends|
    ensures Inv(Ends(s, i, ok)) && Ends(s, i, ok).spawnedSuspended == s.spawnedSuspended
  {
    hide WorldInv;
    hide AttachInv;
    hide OverlapInv;
    hide Onward;
    hide EndChild;
    hide Release;
    hide Use;
    hide Unguard;
    hide Join;
    SameWorld(s.world);
    match s.ends[i] {
      case Reading =>
        if Reachable(s.world) {
          UseKeeps(s.world);
        }
      case Releasing => ReleaseKeeps(s.world, ok);
      case EndingChild(stage) =>
        ResumingTried(s, i);
        EndChildKeeps(s.world, stage, false, ok);
      case _ =>
    }
    OneEndMoves(s, Ends(s, i, ok), i);
  }

  lemma ResumingTried(s: State, i: nat)
    requires OverlapInv(s) && i < |s.ends| && s.ends[i].EndingChild?
    ensures s.ends[i].stage.Resuming? ==> s.world.calls.killTried
  {}

  lemma OthersKeep(s: State, e: Event)
    requires Inv(s) && !e.AttachStep? && !e.EndStep?
    ensures Inv(After(s, e)) && After(s, e).spawnedSuspended == s.spawnedSuspended
  {
    hide WorldInv;
    hide Elsewhere;
    var t := After(s, e);
    if e.Interrupt? || e.CallEnd? {
      assert t.world == s.world;
    } else {
      ElsewhereKeeps(s.world, e);
    }
    assert forall k :: 0 <= k < |s.ends| ==> t.ends[k] == s.ends[k];
    if s.overlapped && !s.world.calls.killTried && !Late(s.attach) {
      var k :| 0 <= k < |s.ends| && s.ends[k].EndingChild?;
      assert t.ends[k].EndingChild?;
    }
  }

  lemma {:induction false} RunKeeps(s: State, events: seq<Event>)
    requires Created(s)
    ensures Inv(Run(s, events)) && Run(s, events).spawnedSuspended == s.spawnedSuspended
  {
    if events != [] {
      var rest, e := events[..|events| - 1], events[|events| - 1];
      RunKeeps(s, rest);
      hide Inv;
      hide Attaches;
      hide Ends;
      var t := Run(s, rest);
      if e.AttachStep? {
        AttachKeeps(t, e.ok);
      } else if e.EndStep? {
        if e.i < |t.ends| {
          EndsKeep(t, e.i, e.ok);
        }
      } else {
        OthersKeep(t, e);
      }
    }
  }

  // ----- the results -----

  /**
   Over every interleaving: the handle is closed at most once and never used after,
   and a drained, released job holds none.
   */
  lemma HandleIsSafe(s: State, events: seq<Event>)
    requires Created(s)
    ensures var w := Run(s, events).world;
            && w.job.closes <= 1 && !w.job.misused
            && (w.entry.released && w.entry.empty ==> w.job.closes == 1)
  {
    hide Run;
    RunKeeps(s, events);
  }

  /** Once the attach has returned, the child is not left suspended unless every terminate and resume call failed. */
  lemma NeverLeftSuspended(s: State, events: seq<Event>)
    requires Created(s) && Run(s, events).attach.Left?
    ensures var w := Run(s, events).world; w.child.suspended ==> w.calls.tried && !w.calls.worked
  {
    hide Run;
    RunKeeps(s, events);
  }

  /** A run whose end met its attach ends its child, unless every terminate call failed. */
  lemma EndedRunEndsItsChild(s: State, events: seq<Event>)
    requires Created(s) && Run(s, events).attach.Left? && Run(s, events).overlapped
    requires forall e :: e in Run(s, events).ends ==> e.Done?
    ensures var w := Run(s, events).world; w.child.alive ==> w.calls.killTried && !w.calls.killed
  {
    hide Run;
    RunKeeps(s, events);
    var t := Run(s, events);
    assert forall i :: 0 <= i < |t.ends| ==> t.ends[i] in t.ends;
  }

  // ----- a drained job is closed, a busy one kept -----

  /** Told the job is drained, a release leaves it closed, once; told it is not, it leaves an open one open. */
  lemma ReleaseDecides(w: World, drained: bool)
    requires WorldInv(w)
    ensures var r := Release(w, drained);
            && r.entry.released && r.child == w.child
            && (drained ==> !r.job.open && r.job.closes == 1)
            && (!drained && !w.entry.empty && w.job.open ==> r.job.open && r.job.closes == 0)
  {}

  lemma ZeroCloses(w: World, ok: bool)
    requires WorldInv(w)
    ensures var x := OnMessage(w, ProcessZero, ok);
            (w.entry.released ==> !x.job.open && x.job.closes == 1) && (!w.entry.released ==> x.job == w.job)
  {}

  /** The event tells a released entry, or one being released, that its job is drained. */
  ghost predicate Drains(s: State, e: Event) {
    || (e.EndStep? && e.ok && e.i < |s.ends| && s.ends[e.i].Releasing?)
    || (e.Collect? && e.drained && s.world.entry.released)
    || (e.Watch? && e.message.ProcessZero? && s.world.entry.released)
  }

  /** Over every interleaving: whichever way a released entry learns that its job is drained, the handle is closed. */
  lemma DrainedIsClosed(s: State, events: seq<Event>, e: Event)
    requires Created(s) && Drains(Run(s, events), e)
    ensures var w := Run(s, events + [e]).world; !w.job.open && w.job.closes == 1
  {
    hide Created;
    hide WorldInv;
    hide Release;
    hide OnMessage;
    RunKeeps(s, events);
    var t := Run(s, events);
    assert (events + [e])[..|events|] == events;
    ReleaseDecides(t.world, true);
    ZeroCloses(t.world, true);
    ZeroCloses(t.world, false);
  }

  /** And a job with processes keeps its handle through its own release, so that a memory hit can still end it. */
  lemma BusyStaysOpen(s: State, events: seq<Event>, i: nat)
    requires Created(s)
    requires var t := Run(s, events); i < |t.ends| && t.ends[i].Releasing? && t.world.job.open && !t.world.entry.empty
    ensures var w := Run(s, events + [EndStep(i, false)]).world; w.job.open && w.entry.handle && w.entry.released
  {
    hide Release;
    RunKeeps(s, events);
    var t := Run(s, events);
    assert (events + [EndStep(i, false)])[..|events|] == events;
    ReleaseDecides(t.world, false);
    ReleaseKeeps(t.world, false);
  }

  // ----- what ends a child -----

  /** The event asks the system to end everything in the job. */
  ghost predicate Strikes(w: World, e: Event) {
    || e == Kill(true)
    || e == Watch(MemoryLimit, true)
    || (e == Sweep(true, true) && !w.entry.memoryExceeded)
  }

  lemma StrikeKills(w: World, e: Event)
    requires WorldInv(w) && w.entry.joined && w.job.open && Strikes(w, e)
    ensures var x := Elsewhere(w, e); !x.child.alive && (!e.Kill? ==> x.entry.memoryExceeded)
  {}

  /** Over every interleaving: a kill, a memory message or an over-cap sweep ends a joined child. */
  lemma StruckChildDies(s: State, events: seq<Event>, e: Event)
    requires Created(s)
    requires var w := Run(s, events).world; w.entry.joined && w.job.open && Strikes(w, e)
    ensures var w := Run(s, events + [e]).world; !w.child.alive && (!e.Kill? ==> w.entry.memoryExceeded)
  {
    hide WorldInv;
    hide Elsewhere;
    hide Created;
    RunKeeps(s, events);
    assert (events + [e])[..|events|] == events;
    StrikeKills(Run(s, events).world, e);
  }

  /** No strike: the child is outside the job, or the event is none. */
  ghost predicate Spares(w: World, e: Event) {
    match e
    case Kill(_) => !w.child.inJob
    case Watch(message, _) => !w.child.inJob || !message.MemoryLimit?
    case Sweep(over, _) => !w.child.inJob || !over
    case Collect(_) => true
    case Query => true
    case Shutdown => true
    case _ => false
  }

  lemma SparedIsUntouched(w: World, e: Event)
    requires WorldInv(w) && Spares(w, e)
    ensures Elsewhere(w, e).child == w.child && Elsewhere(w, e).calls == w.calls
  {}

  /** Nothing of the sort touches a child outside the job, and a sweep under the cap changes nothing. */
  lemma OthersAreSpared(s: State, events: seq<Event>, e: Event)
    requires Created(s) && Spares(Run(s, events).world, e)
    ensures var w, x := Run(s, events).world, Run(s, events + [e]).world; x.child == w.child && x.calls == w.calls
  {
    hide WorldInv;
    hide Elsewhere;
    hide Created;
    RunKeeps(s, events);
    assert (events + [e])[..|events|] == events;
    SparedIsUntouched(Run(s, events).world, e);
  }

  // ----- what an attach leaves -----

  /** Nothing leaves the job, and only the unguarding lets the guard go. */
  ghost predicate Sticks(w: World, x: World) {
    (w.entry.joined ==> x.entry.joined) && x.entry.guard == w.entry.guard
  }

  lemma EndChildSticks(w: World, stage: Stage, process: bool, ok: bool)
    ensures Sticks(w, EndChild(w, stage, process, ok).0)
  {}

  lemma ElsewhereSticks(w: World, e: Event)
    ensures Sticks(w, Elsewhere(w, e))
  {}

  /**
   A child that is started or past it is in its job; a required run that left its
   attach is in its job or was ended; the guard stays while the child is
   suspended; only an end that met the attach ends the child.
   */
  ghost predicate PathInv(s: State) {
    && (s.attach.Starting? || s.attach.Unguarding? ==> s.world.entry.joined)
    && (s.attach.Unguarding? ==> !s.world.child.suspended)
    && (s.required && (s.attach.Leaving? || s.attach.Left?) ==> s.world.entry.joined || s.world.calls.killTried)
    && forall i :: 0 <= i < |s.ends| && s.ends[i].EndingChild? ==> s.overlapped
  }

  ghost predicate Guarded(s: State) {
    s.world.child.suspended ==> s.world.entry.guard
  }

  lemma JoinSticks(w: World, ok: bool)
    ensures Sticks(w, Join(w, ok)) && (ok ==> Join(w, ok).entry.joined)
  {}

  lemma ResumeSticks(w: World, ok: bool)
    ensures Sticks(w, Resume(w, ok)) && (ok ==> !Resume(w, ok).child.suspended)
  {}

  lemma UnguardSticks(w: World, ok: bool)
    ensures w.entry.joined ==> Unguard(w, ok).entry.joined
  {}

  ghost predicate OnPath(s: State, t: State) {
    PathInv(t) && (Guarded(s) ==> Guarded(t)) && t.required == s.required
  }

  /** An attach step keeps the path if it keeps these. */
  lemma AttachMoves(s: State, t: State)
    requires PathInv(s) && Onward(s.world, t.world) && t.ends == s.ends && t.required == s.required
    requires s.overlapped ==> t.overlapped
    requires t.attach.Starting? || t.attach.Unguarding? ==> t.world.entry.joined
    requires t.attach.Unguarding? ==> !t.world.child.suspended
    requires t.required && (t.attach.Leaving? || t.attach.Left?) ==> t.world.entry.joined || t.world.calls.killTried
    requires t.world.entry.guard == s.world.entry.guard || !t.world.child.suspended
    ensures PathInv(t) && (Guarded(s) ==> Guarded(t))
  {}

  lemma EndingPath(s: State, ok: bool)
    requires Inv(s) && PathInv(s) && s.attach.Ending?
    ensures OnPath(s, Attaches(s, ok))
  {
    hide WorldInv;
    hide OverlapInv;
    hide EndChild;
    hide PathInv;
    hide Guarded;
    hide Onward;
    AttachWorld(s, ok);
    EndChildSticks(s.world, s.attach.stage, s.attach.process, ok);
    EndingTries(s, ok);
    AttachMoves(s, Attaches(s, ok));
  }

  lemma AssigningPath(s: State, ok: bool)
    requires Inv(s) && PathInv(s) && s.attach.Assigning?
    ensures OnPath(s, Attaches(s, ok))
  {
    hide WorldInv;
    hide AttachInv;
    hide OverlapInv;
    hide EndChild;
    hide Join;
    hide Unguard;
    hide Resume;
    hide Guarded;
    AttachWorld(s, ok);
    JoinSticks(s.world, ok);
    AttachMoves(s, Attaches(s, ok));
  }

  lemma StartingPath(s: State, ok: bool)
    requires Inv(s) && PathInv(s) && s.attach.Starting?
    ensures OnPath(s, Attaches(s, ok))
  {
    hide WorldInv;
    hide AttachInv;
    hide OverlapInv;
    hide EndChild;
    hide Join;
    hide Unguard;
    hide Resume;
    hide Guarded;
    AttachWorld(s, ok);
    ResumeSticks(s.world, ok);
    NotSuspended(s);
    AttachMoves(s, Attaches(s, ok));
  }

  lemma UnguardingPath(s: State, ok: bool)
    requires Inv(s) && PathInv(s) && s.attach.Unguarding?
    ensures OnPath(s, Attaches(s, ok))
  {
    hide WorldInv;
    hide AttachInv;
    hide OverlapInv;
    hide EndChild;
    hide Join;
    hide Unguard;
    hide Resume;
    hide Guarded;
    AttachWorld(s, ok);
    UnguardSticks(s.world, ok);
    AttachMoves(s, Attaches(s, ok));
  }

  lemma UncontainedPath(s: State, ok: bool)
    requires Inv(s) && PathInv(s) && s.attach.Uncontained?
    ensures OnPath(s, Attaches(s, ok))
  {
    hide WorldInv;
    hide AttachInv;
    hide OverlapInv;
    hide EndChild;
    hide Join;
    hide Unguard;
    hide Resume;
    hide Guarded;
    AttachWorld(s, ok);
    ResumeSticks(s.world, ok);
    AttachMoves(s, Attaches(s, ok));
  }

  lemma OtherPath(s: State, ok: bool)
    requires Inv(s) && PathInv(s) && (s.attach.NotCalled? || s.attach.Opening? || s.attach.Leaving? || s.attach.Left?)
    ensures OnPath(s, Attaches(s, ok))
  {
    hide WorldInv;
    hide AttachInv;
    hide OverlapInv;
    hide EndChild;
    hide Join;
    hide Unguard;
    hide Resume;
    hide Guarded;
    AttachWorld(s, ok);
    AttachMoves(s, Attaches(s, ok));
  }

  lemma AttachPath(s: State, ok: bool)
    requires Inv(s) && PathInv(s)
    ensures OnPath(s, Attaches(s, ok))
  {
    hide Inv;
    hide PathInv;
    hide Attaches;
    hide OnPath;
    match s.attach
    case Ending(_, _, _) => EndingPath(s, ok);
    case Assigning => AssigningPath(s, ok);
    case Starting => StartingPath(s, ok);
    case Unguarding => UnguardingPath(s, ok);
    case Uncontained(_) => UncontainedPath(s, ok);
    case _ => OtherPath(s, ok);
  }

  lemma NotSuspended(s: State)
    requires AttachInv(s)
    ensures !s.spawnedSuspended ==> !s.world.child.suspended
  {}

  /** One end moves, and nothing is lost on the way. */
  lemma OneEndPath(s: State, t: State, i: nat)
    requires PathInv(s) && i < |s.ends| == |t.ends| && Sticks(s.world, t.world) && Onward(s.world, t.world)
    requires t.attach == s.attach && t.required == s.required && t.ends == s.ends[i := t.ends[i]]
    requires (s.overlapped ==> t.overlapped) && (t.ends[i].EndingChild? ==> t.overlapped)
    ensures PathInv(t) && (Guarded(s) ==> Guarded(t))
  {}

  lemma EndingOverlaps(s: State, i: nat)
    requires PathInv(s) && i < |s.ends|
    ensures s.ends[i].EndingChild? ==> s.overlapped
  {}

  lemma ReleaseSticks(w: World, drained: bool)
    ensures Sticks(w, Release(w, drained)) && Sticks(w, w) && Sticks(w, Use(w))
  {}

  lemma EndsWorld(s: State, i: nat, ok: bool)
    requires Inv(s) && i < |s.ends|
    ensures Onward(s.world, Ends(s, i, ok).world) && Sticks(s.world, Ends(s, i, ok).world)
  {
    hide EndChild;
    hide WorldInv;
    hide AttachInv;
    hide OverlapInv;
    hide Release;
    hide Use;
    hide Sticks;
    hide Onward;
    SameWorld(s.world);
    ReleaseSticks(s.world, ok);
    match s.ends[i]
    case Reading =>
      if Reachable(s.world) {
        UseKeeps(s.world);
      }
    case Releasing => ReleaseKeeps(s.world, ok);
    case EndingChild(stage) =>
      EndChildSticks(s.world, stage, false, ok);
      ResumingTried(s, i);
      EndChildKeeps(s.world, stage, false, ok);
    case _ =>
  }

  lemma EndsPath(s: State, i: nat, ok: bool)
    requires Inv(s) && PathInv(s) && i < |s.ends|
    ensures OnPath(s, Ends(s, i, ok))
  {
    hide EndChild;
    hide Release;
    hide Use;
    hide Sticks;
    hide Onward;
    hide Guarded;
    hide Inv;
    hide PathInv;
    EndsWorld(s, i, ok);
    EndingOverlaps(s, i);
    OneEndPath(s, Ends(s, i, ok), i);
  }

  /** A move that leaves the attach and the ends where they are keeps the path. */
  lemma WorldMoves(s: State, w: World)
    requires PathInv(s) && Sticks(s.world, w) && Onward(s.world, w)
    ensures OnPath(s, s.(world := w))
  {}

  lemma QuietMoves(s: State, e: Event)
    requires PathInv(s) && (e.Interrupt? || e.CallEnd?)
    ensures OnPath(s, After(s, e))
  {}

  lemma OthersPath(s: State, e: Event)
    requires Inv(s) && PathInv(s) && !e.AttachStep? && !e.EndStep?
    ensures OnPath(s, After(s, e))
  {
    hide WorldInv;
    hide AttachInv;
    hide OverlapInv;
    hide PathInv;
    hide OnPath;
    hide Sticks;
    hide Onward;
    hide Elsewhere;
    if e.Interrupt? || e.CallEnd? {
      QuietMoves(s, e);
    } else {
      ElsewhereSticks(s.world, e);
      ElsewhereKeeps(s.world, e);
      WorldMoves(s, Elsewhere(s.world, e));
    }
  }

  lemma {:induction false} RunPath(s: State, events: seq<Event>)
    requires Created(s)
    ensures var t := Run(s, events); PathInv(t) && (s.world.entry.guard ==> Guarded(t)) && t.required == s.required
  {
    if events != [] {
      var rest, e := events[..|events| - 1], events[|events| - 1];
      RunKeeps(s, rest);
      RunPath(s, rest);
      hide Inv;
      hide PathInv;
      hide Guarded;
      hide Attaches;
      hide Ends;
      var t := Run(s, rest);
      if e.AttachStep? {
        AttachPath(t, e.ok);
      } else if e.EndStep? {
        if e.i < |t.ends| {
          EndsPath(t, e.i, e.ok);
        }
      } else {
        OthersPath(t, e);
      }
    }
  }

  /** A required run never goes on outside its job: it is inside, or its end was called for and every call failed. */
  lemma RequiredIsContained(s: State, events: seq<Event>)
    requires Created(s) && s.required && Run(s, events).attach.Left?
    ensures var w := Run(s, events).world;
            w.child.alive ==> w.child.inJob || (w.calls.killTried && !w.calls.killed)
  {
    hide Run;
    RunKeeps(s, events);
    RunPath(s, events);
  }

  /** While the child is suspended the job still dies with the daemon's last handle. */
  lemma GuardOutlivesSuspension(s: State, events: seq<Event>)
    requires Created(s) && s.world.entry.guard && Run(s, events).world.child.suspended
    ensures Run(s, events).world.entry.guard
  {
    hide Run;
    RunPath(s, events);
  }

  lemma Joins(s: State, ok: bool)
    requires Created(s)
    ensures var t := Attaches(Attaches(Attaches(s, true), true), ok);
            && t.attach == (if ok then Starting else Uncontained(true))
            && t.world == Join(s.world, ok) && t.required == s.required && t.spawnedSuspended == s.spawnedSuspended
  {}

  /** An attach whose calls all succeed leaves a running child in its job, unguarded, with nothing ended. */
  lemma CleanAttach(s: State)
    requires Created(s)
    ensures var joined := Attaches(Attaches(Attaches(s, true), true), true);
            var t := Attaches(Attaches(Attaches(joined, true), true), true);
            && t.attach.Left? && !t.attaching && t.world.entry.joined && !t.world.entry.guard && t.world.job.open
            && t.world.child == Child(true, false, true) && !t.world.calls.killTried
  {
    Joins(s, true);
  }

  /** A child that could not join runs uncapped. */
  lemma UncontainedRuns(s: State)
    requires Created(s) && !s.required
    ensures var apart := Attaches(Attaches(Attaches(s, true), true), false);
            var t := Attaches(Attaches(apart, true), true);
            t.attach.Left? && t.world.child == Child(true, false, false) && !t.world.calls.killTried
  {
    Joins(s, false);
  }

  /** Or is ended, if its caps are required. */
  lemma UncontainedEnds(s: State)
    requires Created(s) && s.required
    ensures var apart := Attaches(Attaches(Attaches(s, true), true), false);
            var t := Attaches(Attaches(Attaches(Attaches(apart, true), true), true), true);
            t.attach.Left? && !t.world.child.alive
  {
    Joins(s, false);
  }

  // ----- an attach that must end its child -----

  /** The attach is ending the child, or its end was called for already. */
  ghost predicate Doomed(s: State) {
    s.attach.Ending? || s.world.calls.killTried
  }

  lemma DoomedAttach(s: State, ok: bool)
    requires Inv(s) && Doomed(s)
    ensures Doomed(Attaches(s, ok))
  {
    hide WorldInv;
    hide OverlapInv;
    hide EndChild;
    AttachWorld(s, ok);
    if s.attach.Ending? {
      EndingTries(s, ok);
    }
  }

  lemma DoomedStays(s: State, e: Event)
    requires Inv(s) && Doomed(s)
    ensures Doomed(After(s, e))
  {
    hide WorldInv;
    hide AttachInv;
    hide OverlapInv;
    hide Attaches;
    hide EndChild;
    hide Elsewhere;
    hide Release;
    hide Use;
    if e.AttachStep? {
      DoomedAttach(s, e.ok);
    } else if e.EndStep? {
      if e.i < |s.ends| {
        EndsWorld(s, e.i, e.ok);
      }
    } else {
      ElsewhereKeeps(s.world, e);
    }
  }

  lemma {:induction false} DoomedRun(s: State, events: seq<Event>, more: seq<Event>)
    requires Created(s) && Doomed(Run(s, events))
    ensures Doomed(Run(s, events + more))
  {
    hide Created;
    hide Inv;
    hide Doomed;
    hide After;
    if more == [] {
      assert events + more == events;
    } else {
      var rest, e := more[..|more| - 1], more[|more| - 1];
      DoomedRun(s, events, rest);
      assert (events + more)[..|events + more| - 1] == events + rest;
      RunKeeps(s, events + rest);
      DoomedStays(Run(s, events + rest), e);
    }
  }

  /** The attach is in its own body. */
  predicate Attached(a: Attach) {
    a.Opening? || a.Assigning? || a.Starting? || a.Unguarding? || a.Uncontained?
  }

  /** Over every interleaving: an exception in the body of an attach ends its child before the attach returns. */
  lemma InterruptedIsEnded(s: State, events: seq<Event>, more: seq<Event>)
    requires Created(s) && Attached(Run(s, events).attach) && Run(s, events + [Interrupt] + more).attach.Left?
    ensures Run(s, events + [Interrupt] + more).world.calls.killTried
  {
    assert (events + [Interrupt])[..|events|] == events;
    DoomedRun(s, events + [Interrupt], more);
  }

  /** So does an attach that starts after the run ended. */
  lemma LateAttachEnds(s: State, events: seq<Event>, ok: bool, more: seq<Event>)
    requires Created(s) && Run(s, events).attach.NotCalled? && Run(s, events).closed
    requires Run(s, events + [AttachStep(ok)] + more).attach.Left?
    ensures Run(s, events + [AttachStep(ok)] + more).world.calls.killTried
  {
    assert (events + [AttachStep(ok)])[..|events|] == events;
    DoomedRun(s, events + [AttachStep(ok)], more);
  }
}
