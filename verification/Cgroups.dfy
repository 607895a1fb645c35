/**
 The cpu controller of the run cgroups. It is switched in two files of a shared
 tree, every write may be refused, and a run's cpu cap lives only while the
 controller is on below `runs/`.
 */
module Cgroups {
  const SETUP_ROUNDS := 11
  const FOREIGN_GRACE := 60

  /** The cgroup files: where cpu is enabled, and which run cgroups hold a quota in `cpu.max`. */
  class Kernel {
    var baseOn: bool
    var runsOn: bool
    var dirs: map<string, bool>
    ghost var readFailed: bool
    /** Refused writes that switch cpu off, and all other refused writes and failed reads. */
    ghost var refused: nat
    ghost var denied: nat

    /** `runs/` enables only what base enables, and without cpu there is no `cpu.max`. */
    ghost predicate Consistent()
      reads this
    {
      && (runsOn ==> baseOn)
      && (!runsOn ==> forall p :: p in dirs ==> !dirs[p])
    }

    constructor ()
      ensures Consistent() && !baseOn && !runsOn && dirs == map[] && !readFailed
    {
      baseOn, runsOn, dirs, readFailed, refused, denied := false, false, map[], false, 0, 0;
    }

    method ReadEnabled() returns (ok: bool, base: bool, runs: bool)
      modifies this`readFailed, this`denied
      ensures ok ==> readFailed == old(readFailed) && denied == old(denied) && base == baseOn && runs == runsOn
      ensures !ok ==> readFailed && denied == old(denied) + 1
    {
      ok, base, runs := *, baseOn, runsOn;
      if !ok {
        readFailed, denied := true, denied + 1;
      }
    }

    method EnableBase() returns (ok: bool, busy: bool)
      requires Consistent()
      modifies this`baseOn, this`denied
      ensures Consistent() && baseOn == (old(baseOn) || ok) && denied == old(denied) + if ok then 0 else 1
    {
      ok, busy := *, *;
      if ok {
        baseOn := true;
      } else {
        denied := denied + 1;
      }
    }

    method EnableRuns() returns (ok: bool)
      requires Consistent()
      modifies this`runsOn, this`denied
      ensures Consistent() && runsOn == (old(runsOn) || ok) && denied == old(denied) + if ok then 0 else 1
    {
      ok := *;
      ok := ok && baseOn;
      if ok {
        runsOn := true;
      } else {
        denied := denied + 1;
      }
    }

    /** Switching cpu off below `runs/` removes every `cpu.max` there. */
    method DisableRuns() returns (ok: bool)
      requires Consistent()
      modifies this`runsOn, this`dirs, this`refused
      ensures Consistent() && dirs.Keys == old(dirs.Keys)
      ensures ok ==> !runsOn && refused == old(refused)
      ensures !ok ==> runsOn == old(runsOn) && dirs == old(dirs) && refused == old(refused) + 1
    {
      ok := *;
      if ok {
        runsOn := false;
        dirs := map p | p in dirs :: false;
      } else {
        refused := refused + 1;
      }
    }

    /** Base goes off only after `runs/`. */
    method DisableBase() returns (ok: bool)
      requires Consistent() && !runsOn
      modifies this`baseOn, this`refused
      ensures Consistent() && (ok ==> !baseOn && refused == old(refused))
      ensures !ok ==> baseOn == old(baseOn) && refused == old(refused) + 1
    {
      ok := *;
      if ok {
        baseOn := false;
      } else {
        refused := refused + 1;
      }
    }

    method Mkdir(path: string) returns (ok: bool)
      requires Consistent()
      modifies this`dirs, this`denied
      ensures Consistent() && denied == old(denied) + if ok then 0 else 1
      ensures ok ==> path !in old(dirs) && dirs == old(dirs)[path := false]
      ensures !ok ==> dirs == old(dirs)
    {
      ok := *;
      ok := ok && path !in dirs;
      if ok {
        dirs := dirs[path := false];
      } else {
        denied := denied + 1;
      }
    }

    method Rmdir(path: string) returns (ok: bool)
      requires Consistent()
      modifies this`dirs, this`denied
      ensures Consistent() && denied == old(denied) + if ok then 0 else 1
      ensures dirs == if ok then old(dirs) - {path} else old(dirs)
    {
      ok := *;
      if ok {
        dirs := dirs - {path};
      } else {
        denied := denied + 1;
      }
    }

    method Subdirs() returns (ok: bool, names: set<string>)
      modifies this`readFailed
      ensures ok ==> readFailed == old(readFailed) && names == dirs.Keys
      ensures !ok ==> readFailed
    {
      ok, names := *, dirs.Keys;
      if !ok {
        readFailed := true;
      }
    }

    /** Whether `cpu.max` of a cgroup holds a quota; a file that is not there holds none. */
    method Quota(path: string) returns (capped: bool)
      requires Consistent()
      modifies this`readFailed
      ensures capped ==> path in dirs && dirs[path]
      ensures old(readFailed) ==> readFailed
      ensures !capped && path in dirs && dirs[path] ==> readFailed
    {
      if !runsOn || path !in dirs {
        return false;
      }
      var ok := *;
      if !ok {
        readFailed := true;
        return false;
      }
      return dirs[path];
    }

    method WriteQuota(path: string) returns (ok: bool)
      requires Consistent()
      modifies this`dirs, this`denied
      ensures Consistent() && denied == old(denied) + if ok then 0 else 1
      ensures ok ==> path in old(dirs) && runsOn && dirs == old(dirs)[path := true]
      ensures !ok ==> dirs == old(dirs)
    {
      ok := *;
      ok := ok && runsOn && path in dirs;
      if ok {
        dirs := dirs[path := true];
      } else {
        denied := denied + 1;
      }
    }

    /** Whether some process is in the cgroup; a failed read counts as busy. */
    method Busy(path: string) returns (busy: bool) {
      busy := *;
    }
  }

  /** A step of the daemon: the config's wish, a run that starts or is over, and what cleans up after it. */
  datatype Op =
    | WantCpu(want: bool, retry: bool, now: int)
    | Need(retry: bool)
    | Start(path: string, cap: bool)
    | Over(path: string)
    | Remove(path: string)
    | Queue(path: string)
    | Drop(path: string)
    | Settle(now: int)

  /** Some step starts a run under this name. */
  ghost predicate Starts(ops: seq<Op>, path: string) {
    exists i :: 0 <= i < |ops| && ops[i].Start? && ops[i].path == path
  }

  lemma MoreOps(ops: seq<Op>, i: nat)
    requires i < |ops|
    ensures forall p :: Starts(ops[..i + 1], p) <==> Starts(ops[..i], p) || Starts([ops[i]], p)
    ensures forall p :: Over(p) in ops[..i + 1] <==> Over(p) in ops[..i] || ops[i] == Over(p)
  {
    var more := ops[..i + 1];
    assert more == ops[..i] + [ops[i]];
    forall p ensures Starts(more, p) <==> Starts(ops[..i], p) || Starts([ops[i]], p) {
      if Starts([ops[i]], p) {
        assert more[i] == ops[i];
      }
      if Starts(ops[..i], p) {
        var j :| 0 <= j < i && ops[..i][j].Start? && ops[..i][j].path == p;
        assert more[j] == ops[..i][j];
      }
      if Starts(more, p) {
        var j :| 0 <= j <= i && more[j].Start? && more[j].path == p;
        assert j < i ==> ops[..i][j] == more[j];
        assert j == i ==> [ops[i]][0] == more[j];
      }
    }
  }

  /** A cgroup whose run is surely over: queued, or a stranger first seen a minute ago or more. */
  ghost predicate Past(pending: set<string>, live: set<string>, foreign: map<string, int>, path: string, now: int) {
    path in pending || (path !in live && path in foreign && now - foreign[path] >= 60)
  }

  /** The strangers now, each since it was first seen. */
  function FirstSeen(pending: set<string>, live: set<string>, foreign: map<string, int>, names: set<string>, now: int)
      : map<string, int>
  {
    map p | p in names && p !in pending && p !in live :: if p in foreign then foreign[p] else now
  }

  /**
   The daemon's side. Create, SetCpu, NeedCpu and SettleCpu each run under one
   lock; Forget, RemoveOrDefer, Defer and RemoveQueued are the steps finish, abort
   and collect take without it. Between any two steps other threads may take any
   number of their own.
   */
  class Backend {
    const kernel: Kernel
    const offersCpu: bool
    var cpuFailed: bool
    var weighting: bool
    var cpuBase: bool
    var cpuUnwanted: bool
    var live: set<string>
    var pending: set<string>
    var foreign: map<string, int>
    /** The runs whose cpu cap was written and whose finish or abort has not come. */
    ghost var capped: set<string>

    ghost predicate Valid()
      reads this, kernel
    {
      && kernel.Consistent()
      && weighting == kernel.runsOn && cpuBase == kernel.baseOn
      && live !! pending
      && capped <= live
      && (!kernel.readFailed ==> Held())
    }

    /** Every capped run still has its cap, so cpu is on below `runs/`. */
    ghost predicate Held()
      reads this, kernel
    {
      && (forall p :: p in capped ==> p in kernel.dirs && kernel.dirs[p])
      && (capped != {} ==> kernel.runsOn)
    }

    /** No quota is left but those of runs that are over. */
    ghost predicate Idle()
      reads this, kernel
    {
      forall p :: p in kernel.dirs && kernel.dirs[p] ==> p in pending
    }

    ghost predicate Off()
      reads kernel
    {
      !kernel.runsOn && !kernel.baseOn
    }

    constructor (kernel: Kernel, offersCpu: bool)
      requires kernel.Consistent()
      ensures Valid() && this.kernel == kernel && live == {} && pending == {} && capped == {}
    {
      this.kernel, this.offersCpu, cpuFailed := kernel, offersCpu, false;
      weighting, cpuBase, cpuUnwanted := kernel.runsOn, kernel.baseOn, false;
      live, pending, foreign, capped := {}, {}, map[], {};
    }

    method ReadCpu()
      requires Valid()
      modifies this`weighting, this`cpuBase, kernel`readFailed, kernel`denied
      ensures Valid() && kernel.denied >= old(kernel.denied)
    {
      var ok, base, runs := kernel.ReadEnabled();
      if ok {
        cpuBase, weighting := base, runs;
      }
    }

    /** Disables cpu in `runs/`, then in base; each write may be refused. */
    method CpuOff()
      requires Valid() && (!kernel.readFailed ==> capped == {})
      modifies this`weighting, this`cpuBase, kernel
      ensures Valid() && kernel.dirs.Keys == old(kernel.dirs.Keys)
      ensures kernel.readFailed == old(kernel.readFailed) && kernel.denied == old(kernel.denied)
      ensures Off() || kernel.refused > old(kernel.refused)
    {
      if weighting {
        var ok := kernel.DisableRuns();
        if !ok {
          return;
        }
        weighting := false;
      }
      if cpuBase {
        var ok := kernel.DisableBase();
        if !ok {
          return;
        }
        cpuBase := false;
      }
    }

    /** Moves stray processes out of base and enables cpu there, in rounds while base is busy. */
    method Evacuate() returns (ok: bool)
      requires Valid()
      modifies this`cpuBase, kernel
      ensures Valid() && weighting == old(weighting) && kernel.dirs == old(kernel.dirs) && (ok ==> cpuBase)
      ensures kernel.runsOn == old(kernel.runsOn) && kernel.refused == old(kernel.refused)
      ensures kernel.denied >= old(kernel.denied) && (ok || kernel.denied > old(kernel.denied))
    {
      for round := 0 to SETUP_ROUNDS
        invariant Valid() && kernel.dirs == old(kernel.dirs) && kernel.runsOn == old(kernel.runsOn)
        invariant kernel.refused == old(kernel.refused) && kernel.denied >= old(kernel.denied) + round
      {
        var read, base, runs := kernel.ReadEnabled();
        if !read {
          return false;
        }
        if base {
          return true;
        }
        var busy;
        ok, busy := kernel.EnableBase();
        if ok {
          cpuBase := true;
          return;
        }
        if !busy {
          return;
        }
      }
      ok := false;
    }

    /** Enables cpu in base, then in `runs/`; a failure takes both back. */
    method CpuOn() returns (ok: bool)
      requires Valid() && !weighting
      modifies this`weighting, this`cpuBase, kernel
      ensures Valid() && (ok ==> weighting) && kernel.dirs.Keys == old(kernel.dirs.Keys)
      ensures kernel.denied >= old(kernel.denied) && (ok || kernel.denied > old(kernel.denied))
      ensures ok || Off() || kernel.refused > old(kernel.refused)
    {
      ok := Evacuate();
      if ok {
        ok := kernel.EnableRuns();
        weighting := kernel.runsOn;
      }
      if !ok {
        NoCapWithoutCpu();
        CpuOff();
      }
    }

    lemma NoCapWithoutCpu()
      requires Valid() && !kernel.runsOn
      ensures !kernel.readFailed ==> capped == {}
    {}

    /** Turns cpu on where the host offers it; what failed before is tried again only on request. */
    method CpuUp(retry: bool)
      requires Valid()
      modifies this`weighting, this`cpuBase, this`cpuFailed, kernel
      ensures Valid() && kernel.dirs.Keys == old(kernel.dirs.Keys) && kernel.denied >= old(kernel.denied)
      ensures offersCpu && !cpuFailed ==> kernel.runsOn
      ensures offersCpu && (retry || !old(cpuFailed)) ==>
                kernel.runsOn == !cpuFailed || kernel.refused > old(kernel.refused)
      ensures offersCpu && (retry || !old(cpuFailed)) && cpuFailed ==> kernel.denied > old(kernel.denied)
      ensures !offersCpu || (old(cpuFailed) && !retry) ==> cpuFailed == old(cpuFailed) && unchanged(kernel)
    {
      if !offersCpu || (cpuFailed && !retry) {
        return;
      }
      ReadCpu();
      if weighting {
        cpuFailed := false;
      } else {
        var ok := CpuOn();
        cpuFailed := !ok;
      }
    }

    /** Whether one cgroup below `runs/` may be a run in progress with a cpu cap. */
    method Counts(path: string, now: int) returns (counts: bool)
      requires kernel.Consistent() && path in kernel.dirs
      modifies kernel`readFailed
      ensures counts ==> kernel.dirs[path] && path !in pending
      ensures old(kernel.readFailed) ==> kernel.readFailed
      ensures !counts && !kernel.readFailed ==> !kernel.dirs[path] || Past(pending, live, foreign, path, now)
    {
      if path in pending {
        return false;
      }
      if path !in live {
        var first := if path in foreign then foreign[path] else now;
        if now - first >= FOREIGN_GRACE {
          var busy := kernel.Busy(path);
          if !busy {
            return false;
          }
        }
      }
      counts := kernel.Quota(path);
    }

    /** Whether a cgroup below `runs/` that may be a run in progress has a cpu cap. */
    method CpuInUse(now: int) returns (inUse: bool)
      requires Valid()
      modifies this`foreign, kernel`readFailed
      ensures Valid() && (old(kernel.readFailed) ==> kernel.readFailed)
      ensures !inUse && !kernel.readFailed ==> capped == {}
      ensures Idle() ==> !inUse
      ensures !inUse && !kernel.readFailed ==>
                forall p :: p in kernel.dirs && kernel.dirs[p] ==> Past(pending, live, old(foreign), p, now)
      ensures foreign == old(foreign) || foreign == FirstSeen(pending, live, old(foreign), kernel.dirs.Keys, now)
    {
      var ok, names := kernel.Subdirs();
      if !ok {
        return false;
      }
      var left := names;
      inUse := false;
      while left != {}
        invariant left <= names && foreign == old(foreign) && (old(kernel.readFailed) ==> kernel.readFailed)
        invariant inUse ==> exists p :: p in kernel.dirs && kernel.dirs[p] && p !in pending
        invariant !inUse && !kernel.readFailed ==>
                    forall p :: p in names && p !in left && kernel.dirs[p] ==> Past(pending, live, foreign, p, now)
        decreases |left|
      {
        var path :| path in left;
        left := left - {path};
        if !inUse {
          inUse := Counts(path, now);
        }
      }
      foreign := FirstSeen(pending, live, foreign, names, now);
    }

    /** Turns cpu off unless a run has a cpu cap. */
    method CpuDown(now: int)
      requires Valid()
      modifies this`weighting, this`cpuBase, this`foreign, kernel
      ensures Valid() && (old(kernel.readFailed) ==> kernel.readFailed) && kernel.denied == old(kernel.denied)
      ensures kernel.dirs.Keys == old(kernel.dirs.Keys)
      ensures old(Idle()) || Idle() ==> Off() || kernel.refused > old(kernel.refused)
    {
      if !(weighting || cpuBase) {
        return;
      }
      var inUse := CpuInUse(now);
      if !inUse {
        CpuOff();
      }
    }

    /** The config's wish; off waits for the runs with a cpu cap. */
    method SetCpu(want: bool, retry: bool, now: int)
      requires Valid()
      modifies this`weighting, this`cpuBase, this`cpuFailed, this`cpuUnwanted, this`foreign, kernel
      ensures Valid() && cpuUnwanted == !want && kernel.dirs.Keys == old(kernel.dirs.Keys)
      ensures want && offersCpu && !cpuFailed ==> kernel.runsOn
      ensures want && offersCpu && (retry || !old(cpuFailed)) && cpuFailed ==> kernel.denied > old(kernel.denied)
      ensures !want ==> !cpuFailed
      ensures !want && (old(Idle()) || Idle()) ==> Off() || kernel.refused > old(kernel.refused)
    {
      cpuUnwanted := !want;
      if want {
        CpuUp(retry);
      } else {
        cpuFailed := false;
        ReadCpu();
        CpuDown(now);
      }
    }

    method NeedCpu(retry: bool)
      requires Valid()
      modifies this`weighting, this`cpuBase, this`cpuFailed, kernel
      ensures Valid() && kernel.dirs.Keys == old(kernel.dirs.Keys)
      ensures offersCpu && !cpuFailed ==> kernel.runsOn
      ensures offersCpu && (retry || !old(cpuFailed)) && cpuFailed ==> kernel.denied > old(kernel.denied)
    {
      CpuUp(retry);
    }

    /** After a run with a cpu cap: cpu goes off if the config wants it off and no cap is left. */
    method SettleCpu(now: int)
      requires Valid()
      modifies this`weighting, this`cpuBase, this`foreign, kernel
      ensures Valid() && kernel.dirs.Keys == old(kernel.dirs.Keys) && kernel.denied == old(kernel.denied)
      ensures cpuUnwanted && (old(Idle()) || Idle()) ==> Off() || kernel.refused > old(kernel.refused)
    {
      if cpuUnwanted {
        CpuDown(now);
      }
    }

    /** Makes a run's cgroup and writes its cpu cap, with cpu turned on first. */
    method Create(path: string) returns (made: bool, applied: bool)
      requires Valid() && path !in live && path !in pending
      modifies this`weighting, this`cpuBase, this`cpuFailed, this`live, this`capped, kernel
      ensures Valid() && live == (if made then old(live) + {path} else old(live)) && (applied ==> made)
      ensures capped == if applied then old(capped) + {path} else old(capped)
      ensures applied ==> kernel.runsOn
      ensures made || kernel.denied > old(kernel.denied)
      ensures offersCpu && !old(cpuFailed) ==> applied || kernel.denied > old(kernel.denied)
      ensures kernel.dirs.Keys <= old(kernel.dirs.Keys) + {path}
    {
      CpuUp(false);
      applied := false;
      made := kernel.Mkdir(path);
      if !made {
        return;
      }
      live := live + {path};
      applied := kernel.WriteQuota(path);
      if applied {
        capped := capped + {path};
      }
    }

    /** A run without a cpu cap leaves the controller alone. */
    method CreateUncapped(path: string) returns (made: bool)
      requires Valid() && path !in live && path !in pending
      modifies this`live, kernel`dirs, kernel`denied
      ensures Valid() && live == (if made then old(live) + {path} else old(live))
      ensures made || kernel.denied > old(kernel.denied)
      ensures kernel.dirs.Keys <= old(kernel.dirs.Keys) + {path}
    {
      made := kernel.Mkdir(path);
      if made {
        live := live + {path};
      }
    }

    /** The run is over. */
    method Forget(path: string)
      requires Valid()
      modifies this`live, this`capped
      ensures Valid() && live == old(live) - {path} && capped == old(capped) - {path}
    {
      live, capped := live - {path}, capped - {path};
    }

    method RemoveOrDefer(path: string)
      requires Valid() && path !in live
      modifies this`pending, kernel`dirs, kernel`denied
      ensures Valid() && (path in pending || path !in kernel.dirs)
      ensures path !in kernel.dirs || kernel.denied > old(kernel.denied)
      ensures kernel.dirs == old(kernel.dirs) || kernel.dirs == old(kernel.dirs) - {path}
      ensures pending == old(pending) || pending == old(pending) + {path}
    {
      var removed := kernel.Rmdir(path);
      if !removed {
        pending := pending + {path};
      }
    }

    method Defer(path: string)
      requires Valid() && path !in live
      modifies this`pending
      ensures Valid() && pending == old(pending) + {path}
    {
      pending := pending + {path};
    }

    /** The run is over, and its cgroup is gone or queued. */
    ghost predicate Gone(path: string)
      reads this, kernel
    {
      path !in live && (path in pending || path !in kernel.dirs)
    }

    /** One step of some thread; one that does not apply is not taken. */
    method Act(op: Op)
      requires Valid()
      modifies this, kernel
      ensures Valid() && (forall p :: p in old(capped) && op != Over(p) ==> p in capped)
      ensures forall p :: !Starts([op], p) ==>
                && (p in capped ==> p in old(capped)) && (p in live ==> p in old(live))
                && (old(Gone(p)) ==> Gone(p))
    {
      match op
      case WantCpu(want, retry, now) => SetCpu(want, retry, now);
      case Need(retry) => NeedCpu(retry);
      case Start(path, cap) =>
        if path !in live && path !in pending {
          if cap {
            var made, applied := Create(path);
          } else {
            var made := CreateUncapped(path);
          }
        }
        assert op == [op][0];
      case Over(path) => Forget(path);
      case Remove(path) =>
        if path !in live {
          RemoveOrDefer(path);
        }
      case Queue(path) =>
        if path !in live {
          Defer(path);
        }
      case Drop(path) =>
        if path !in live {
          RemoveQueued(path);
        }
      case Settle(now) => SettleCpu(now);
    }

    /**
     Any steps of any threads, in any order: a run that has its cpu cap keeps it,
     and cpu on with it, until its own finish or abort.
     */
    method Run(ops: seq<Op>)
      requires Valid()
      modifies this, kernel
      ensures Valid() && (forall p :: p in old(capped) && Over(p) !in ops ==> p in capped)
      ensures forall p :: !Starts(ops, p) ==>
                && (p in capped ==> p in old(capped)) && (p in live ==> p in old(live))
                && (old(Gone(p)) ==> Gone(p))
    {
      for i := 0 to |ops|
        invariant Valid() && forall p :: p in old(capped) && Over(p) !in ops[..i] ==> p in capped
        invariant forall p :: !Starts(ops[..i], p) ==>
                    && (p in capped ==> p in old(capped)) && (p in live ==> p in old(live))
                    && (old(Gone(p)) ==> Gone(p))
      {
        MoreOps(ops, i);
        Act(ops[i]);
      }
      assert ops[..|ops|] == ops;
    }

    /**
     Finish of a run whose cpu cap was applied, with whatever other threads do
     between its steps; no other run takes its name. `was` counts the refused
     writes when it settles the controller.
     */
    method Finish(path: string, now: int, first: seq<Op>, second: seq<Op>) returns (ghost was: nat)
      requires Valid() && !Starts(first, path) && !Starts(second, path)
      modifies this, kernel
      ensures Valid() && path !in capped && Gone(path)
      ensures forall p :: p in old(capped) && p != path && Over(p) !in first && Over(p) !in second ==> p in capped
      ensures cpuUnwanted && Idle() ==> Off() || kernel.refused > was
      ensures first == [] && second == [] ==>
                && capped == old(capped) - {path} && cpuUnwanted == old(cpuUnwanted) && was == old(kernel.refused)
                && (cpuUnwanted && old(LastCap(path)) ==> Off() || kernel.refused > was)
    {
      Forget(path);
      if first != [] {
        Run(first);
      }
      RemoveOrDefer(path);
      if second != [] {
        Run(second);
      }
      was := kernel.refused;
      SettleCpu(now);
    }

    /** The only quota not of a finished run is this one's. */
    ghost predicate LastCap(path: string)
      reads this, kernel
    {
      forall p :: p in kernel.dirs && kernel.dirs[p] ==> p == path || p in pending
    }

    /** Abort only queues; `soon` asks for a collect. */
    method Abort(path: string, applied: bool) returns (soon: bool)
      requires Valid()
      modifies this`live, this`pending, this`capped
      ensures Valid() && capped == old(capped) - {path} && path in pending
      ensures soon == (applied && cpuUnwanted) && (old(LastCap(path)) ==> Idle())
    {
      Forget(path);
      pending := pending + {path};
      soon := applied && cpuUnwanted;
    }

    /** One queued cgroup goes, or stays queued. */
    method RemoveQueued(path: string)
      requires Valid() && path !in live
      modifies this`pending, kernel`dirs, kernel`denied
      ensures Valid() && old(pending) - {path} <= pending <= old(pending) && kernel.denied >= old(kernel.denied)
      ensures (path !in pending && path !in kernel.dirs) || kernel.denied > old(kernel.denied)
      ensures kernel.dirs.Keys <= old(kernel.dirs.Keys)
      ensures path in old(pending) ==> path in pending || path !in kernel.dirs
      ensures old(Idle()) ==> Idle()
    {
      var removed := kernel.Rmdir(path);
      if removed {
        pending := pending - {path};
      }
    }

    /**
     Removes the queued cgroups it can, then settles cpu, with whatever other
     threads do after each removal; no new run takes a queued name.
     */
    method Collect(now: int, others: seq<seq<Op>>) returns (ghost was: nat)
      requires Valid() && forall p, i :: p in pending && 0 <= i < |others| ==> !Starts(others[i], p)
      modifies this, kernel
      ensures Valid()
      ensures forall p :: p in old(capped) && (forall i :: 0 <= i < |others| ==> Over(p) !in others[i]) ==> p in capped
      ensures cpuUnwanted && Idle() ==> Off() || kernel.refused > was
      ensures others == [] ==>
                && capped == old(capped) && cpuUnwanted == old(cpuUnwanted) && was == old(kernel.refused)
                && (pending == {} || kernel.denied > old(kernel.denied))
                && (cpuUnwanted && old(Idle()) ==> Off() || kernel.refused > was)
    {
      var left, k := pending, 0;
      while left != {}
        invariant Valid() && left <= old(pending) && left !! live && 0 <= k
        invariant forall p :: p in old(capped) && (forall i :: 0 <= i < |others| ==> Over(p) !in others[i]) ==>
                    p in capped
        invariant others == [] ==>
                    && left <= pending && capped == old(capped) && cpuUnwanted == old(cpuUnwanted)
                    && (pending <= left || kernel.denied > old(kernel.denied)) && kernel.denied >= old(kernel.denied)
                    && kernel.refused == old(kernel.refused) && (old(Idle()) ==> Idle())
        decreases |left|
      {
        var path :| path in left;
        left := left - {path};
        RemoveQueued(path);
        if k < |others| {
          Run(others[k]);
        }
        k := k + 1;
      }
      was := kernel.refused;
      SettleCpu(now);
    }
  }
}
