/** The bound of OsTheorems.EnqueueHasRoom is sharp, whatever the number of CPUs: with more
    processes of one priority than an array holds, some schedule adds or puts one back to a
    full array, because all CPUs can put their processes back before any takes one. */
module OsOverflow {
  import opened Options
  import opened Arith
  import opened Mlq
  import opened Os
  import opened OsInvariant
  import opened OsTheorems
  import opened OsProgress
  import opened OsCompletion

  /** Longer than any process can run in the first n + 2 slots. */
  function Long(cpus: nat, n: nat): (size: nat) { cpus * (n + 2) + 1 }

  /** n long processes of priority 0 that all start at once, with one slot each. */
  function Crowd(cpus: nat, n: nat): (cfg: Config)
    ensures ValidConfig(cfg) && |cfg.procs| == n && cfg.cpus == cpus && cfg.timeSlot == 1 && !cfg.asWritten
    ensures forall p :: 0 <= p < n ==> cfg.procs[p] == ProcSpec(0, 0, Long(cpus, n))
  {
    Config(1, cpus, seq(n, _ => ProcSpec(0, 0, Long(cpus, n))), false)
  }

  lemma {:induction false} OnePerSlot(specs: seq<ProcSpec>, i: nat)
    requires i <= |specs| && forall p :: 0 <= p < |specs| ==> specs[p].start == 0
    ensures Earliest(specs, i) == i
    decreases i
  {
    if i == 0 {
    } else {
      OnePerSlot(specs, i - 1);
    }
  }

  // ---- To the end of a slot ------------------------------------------------------------

  /** Some schedule takes the system to the tick that ends slot x, or to the end of the timer. */
  lemma {:induction false} RunToTick(cfg: Config, s: System, x: nat) returns (u: System, step: Step)
    requires Reachable(cfg, s) && Inv(cfg, s) && s.bar.time <= x
    ensures Reachable(cfg, u) && Inv(cfg, u) && u.bar.time <= x
    ensures u.bar.timer == B.Exited || (u.bar.time == x && Enabled(u, step) && TicksNow(u, step))
    decreases Fuel(cfg, s, x)
  {
    if s.bar.timer == B.Exited {
      u, step := s, LoaderStep;
    } else {
      step := SomeThreadCanStep(cfg, s);
      if TicksNow(s, step) && s.bar.time == x {
        u := s;
      } else {
        ReachOneMore(cfg, s, step);
        InvWf(cfg, s);
        TimeMoves(cfg, s, step);
        FuelBounds(cfg, s, x);
        FuelStep(cfg, s, step, x);
        hide Inv, Enabled, Reachable, Fuel;
        u, step := RunToTick(cfg, Apply(cfg, s, step), x);
      }
    }
  }

  /** Every process was added and none was freed: none has had the time. */
  ghost predicate AllAlive(n: nat, s: System) {
    |s.procs| == n && forall p :: 0 <= p < n ==> s.procs[p].place == Queued || s.procs[p].place.Running?
  }

  lemma {:induction false} PcAtMostSum(procs: seq<Proc>, p: nat)
    requires p < |procs|
    ensures procs[p].pc <= Pcs(procs)
  {
    if p == 0 {
    } else {
      PcAtMostSum(procs[1..], p - 1);
    }
  }

  lemma TooEarlyToFinish(cpus: nat, n: nat, s: System, p: nat)
    requires Reachable(Crowd(cpus, n), s) && s.bar.time <= n + 1 && p < n
    ensures |s.procs| == n && s.procs[p].pc < Long(cpus, n) && s.procs[p].place != Freed
  {
    var cfg := Crowd(cpus, n);
    ReachableInv(cfg, s);
    InstructionBudget(cfg, s);
    PcAtMostSum(s.procs, p);
    MulAtLeast(cpus, n + 2, s.bar.time + 1);
    assert ProcOk(cfg.procs[p], s.procs[p]);
  }

  lemma AllAliveIfAdded(cpus: nat, n: nat, s: System)
    requires Reachable(Crowd(cpus, n), s) && s.bar.time <= n + 1 && s.loader.i == n
    ensures AllAlive(n, s)
  {
    var cfg := Crowd(cpus, n);
    ReachableInv(cfg, s);
    forall p | 0 <= p < n
      ensures s.procs[p].place == Queued || s.procs[p].place.Running?
    {
      TooEarlyToFinish(cpus, n, s, p);
    }
  }

  // ---- Everybody is let go -------------------------------------------------------------

  /** The timer has released the first k devices and nobody has posted since. */
  ghost predicate LetGo(bar: B.State) {
    && (bar.timer.Release? || bar.timer == B.Top || bar.timer == B.Exited)
    && forall d :: 0 <= d < |bar.devs| && (bar.timer.Release? ==> d < bar.timer.k) ==> !bar.devs[d].done
  }

  predicate AtHeads(s: System) { forall j :: 0 <= j < |s.cpus| ==> s.cpus[j].pc in {Head, Stopped} }

  predicate AllOut(s: System) {
    forall j :: 0 <= j < |s.cpus| && s.cpus[j].pc == Head ==> Enabled(s, CpuStep(j))
  }

  /** A move that brings some CPU nearer to leaving next_slot. */
  lemma NextRelease(cfg: Config, s: System) returns (m: B.Move)
    requires Inv(cfg, s) && LetGo(s.bar) && AtHeads(s) && !AllOut(s)
    ensures B.Enabled(s.bar, m) && !m.Post? && !m.Detach? && !B.Spurious(m) && !B.Ticks(s.bar, m) && m != B.Stop
    ensures LetGo(B.Apply(s.bar, m))
  {
    hide Inv, B.Apply;
    InvWf(cfg, s);
    if s.bar.timer.Release? {
      BarInv(cfg, s);
      m := B.Timer;
    } else {
      var j :| 0 <= j < |s.cpus| && s.cpus[j].pc == Head && !Enabled(s, CpuStep(j));
      m := WayOut(cfg, s, j);
    }
    StaysLetGo(s.bar, m);
  }

  /** A device that is let go leaves next_slot by testing `done` or by waking up. */
  lemma WayOut(cfg: Config, s: System, j: nat) returns (m: B.Move)
    requires Inv(cfg, s) && j < |s.cpus| && s.cpus[j].pc == Head && !Enabled(s, CpuStep(j))
    requires j + 1 < |s.bar.devs| ==> !s.bar.devs[j + 1].done
    ensures B.Enabled(s.bar, m) && (m == B.Test(j + 1) || m == B.Wake(j + 1))
  {
    assert B.DeviceInv(s.bar, j + 1) && CpuLinked(s.bar.devs[j + 1], s.cpus[j].pc);
    m := if s.bar.devs[j + 1].pc == B.Testing then B.Test(j + 1) else B.Wake(j + 1);
  }

  lemma StaysLetGo(bar: B.State, m: B.Move)
    requires LetGo(bar) && B.Enabled(bar, m) && (m == B.Timer ==> bar.timer.Release?)
    requires m == B.Timer || m.Test? || m.Wake?
    ensures LetGo(B.Apply(bar, m))
  {
  }

  lemma {:induction false} LetAllGo(cfg: Config, s: System) returns (t: System)
    requires Reachable(cfg, s) && Inv(cfg, s) && LetGo(s.bar) && AtHeads(s)
    ensures Reachable(cfg, t) && Inv(cfg, t) && AllOut(t)
    ensures t.cpus == s.cpus && t.procs == s.procs && t.loader == s.loader && t.bar.time == s.bar.time
    decreases B.Work(s.bar)
  {
    if AllOut(s) {
      t := s;
    } else {
      var m := NextRelease(cfg, s);
      InvWf(cfg, s);
      ReachOneMore(cfg, s, Inner(m));
      TimeMoves(cfg, s, Inner(m));
      B.MoveWorks(s.bar, m);
      hide Reachable, Inv, LetGo, AllOut, B.Work;
      t := LetAllGo(cfg, Apply(cfg, s, Inner(m)));
    }
  }

  lemma AfterTick(cfg: Config, s: System, step: Step)
    requires Inv(cfg, s) && Enabled(s, step) && TicksNow(s, step) && Inv(cfg, Apply(cfg, s, step))
    ensures LetGo(Apply(cfg, s, step).bar) && AtHeads(Apply(cfg, s, step)) && Apply(cfg, s, step).loader == s.loader
  {
    forall j | 0 <= j < |s.cpus|
      ensures Apply(cfg, s, step).cpus[j].pc in {Head, Stopped}
    {
      if s.cpus[j].pc != Stopped { CpuAfterTick(cfg, s, step, j); }
    }
  }

  // ---- Everybody puts back -------------------------------------------------------------

  /** Whoever holds a process stands at its loop head, out of next_slot. */
  predicate HoldersAtHead(s: System) {
    forall j :: 0 <= j < |s.cpus| && s.cpus[j].proc.Some? ==> s.cpus[j].pc == Head && Enabled(s, CpuStep(j))
  }

  lemma HolderPuts(cpus: nat, n: nat, s: System, j: nat)
    requires Reachable(Crowd(cpus, n), s) && Inv(Crowd(cpus, n), s) && s.bar.time <= n + 1
    requires HoldersAtHead(s) && j < |s.cpus| && s.cpus[j].proc.Some?
    ensures Wf(Crowd(cpus, n), s) && Act(Crowd(cpus, n), s, j) == DoPut(s.cpus[j].proc.value)
  {
    var cfg, p := Crowd(cpus, n), s.cpus[j].proc.value;
    assert CpuFine(cfg, s, j);
    TooEarlyToFinish(cpus, n, s, p);
  }

  lemma PutKeepsHolders(cfg: Config, s: System, j: nat, p: Pid)
    requires Wf(cfg, s) && Enabled(s, CpuStep(j)) && Act(cfg, s, j) == DoPut(p) && HoldersAtHead(s)
    ensures var t := CpuApply(cfg, s, j);
      HoldersAtHead(t) && t.loader == s.loader && t.bar == s.bar
  {
  }

  lemma {:induction false} PutAll(cpus: nat, n: nat, s: System) returns (t: System)
    requires Reachable(Crowd(cpus, n), s) && Inv(Crowd(cpus, n), s) && s.bar.time <= n + 1
    requires HoldersAtHead(s) && s.loader.i == n
    ensures Reachable(Crowd(cpus, n), t) && Inv(Crowd(cpus, n), t) && t.bar.time <= n + 1 && t.loader.i == n
    ensures forall j :: 0 <= j < |t.cpus| ==> t.cpus[j].proc == None
    decreases CpuRanks(s.cpus)
  {
    var cfg := Crowd(cpus, n);
    if j :| 0 <= j < |s.cpus| && s.cpus[j].proc.Some? {
      HolderPuts(cpus, n, s, j);
      ReachOneMore(cfg, s, CpuStep(j));
      PutKeepsHolders(cfg, s, j, s.cpus[j].proc.value);
      CpuStepShape(cfg, s, j);
      CpuRanksUpdate(s.cpus, j, CpuApply(cfg, s, j).cpus[j]);
      CpuRankDrops(cfg, s, j);
      hide Reachable, Inv, HoldersAtHead, CpuApply, Act, Wf;
      t := PutAll(cpus, n, CpuApply(cfg, s, j));
    } else {
      t := s;
    }
  }

  lemma AllInOneLevel(cpus: nat, n: nat, s: System)
    requires Inv(Crowd(cpus, n), s) && AllAlive(n, s) && forall j :: 0 <= j < |s.cpus| ==> s.cpus[j].proc == None
    ensures |s.ready.levels| == MAX_PRIO && |s.ready.levels[0]| >= n
  {
    var q := s.ready.levels[0];
    forall p: nat | p in Upto(n)
      ensures p in q
    {
      assert s.procs[p].place == Queued;
    }
    assert Distinct(q);
    hide Inv, AllAlive;
    DistinctSize(q);
    DistinctSize(Upto(n));
    SubsetSize(Elements(Upto(n)), Elements(q));
  }

  // ---- The overflow --------------------------------------------------------------------

  /** The process that the step adds or puts back. */
  function Enqueued(cfg: Config, s: System, step: Step): (p: Option<Pid>)
    requires Wf(cfg, s) && Enabled(s, step)
  {
    match step
    case Inner(_) => None
    case LoaderStep => if s.loader.pc == Adding then Some(s.loader.i) else None
    case CpuStep(j) => match Act(cfg, s, j) case DoPut(p) => Some(p) case _ => None
  }

  lemma LevelGrowsByEnqueue(cfg: Config, s: System, step: Step)
    requires Inv(cfg, s) && Enabled(s, step) && !cfg.asWritten && Mlq.Valid(Apply(cfg, s, step).ready)
    requires |Apply(cfg, s, step).ready.levels[0]| > |s.ready.levels[0]|
    ensures Wf(cfg, s) && Enqueued(cfg, s, step).Some?
    ensures var p := Enqueued(cfg, s, step).value; p < |cfg.procs| && cfg.procs[p].prio == 0
    ensures |Apply(cfg, s, step).ready.levels[0]| == |s.ready.levels[0]| + 1
  {
    InvWf(cfg, s);
    hide Inv, Apply, Mlq.Step, PidsKnown;
    StepRecordsOps(cfg, s, step);
    OpGrowsLevel(s.ready, StepOps(cfg, s, step));
    hide Mlq.Valid, Dispatch;
  }

  lemma OpGrowsLevel(ready: Mlq.State, ops: seq<Op>)
    requires Mlq.Valid(ready) && ValidOps(ops) && ops != []
    requires Mlq.Valid(Mlq.Step(ready, ops[0])) && |Mlq.Step(ready, ops[0]).levels[0]| > |ready.levels[0]|
    ensures ops[0].PutOp? && ops[0].prio == 0 && |Mlq.Step(ready, ops[0]).levels[0]| == |ready.levels[0]| + 1
  {
    GetIsWorkConserving(ready);
  }

  lemma {:induction false} FirstOverflow(cfg: Config, s: System, steps: seq<Step>) returns (u: System, step: Step)
    requires Reachable(cfg, s) && Inv(cfg, s) && IsRun(cfg, s, steps) && !cfg.asWritten
    requires |s.ready.levels[0]| <= Queues.MAX_QUEUE_SIZE
    requires Mlq.Valid(End(cfg, s, steps).ready) && |End(cfg, s, steps).ready.levels[0]| > Queues.MAX_QUEUE_SIZE
    ensures Reachable(cfg, u) && Wf(cfg, u) && Enabled(u, step) && Enqueued(cfg, u, step).Some?
    ensures var p := Enqueued(cfg, u, step).value;
      p < |cfg.procs| && cfg.procs[p].prio == 0 && |u.ready.levels[0]| == Queues.MAX_QUEUE_SIZE
    decreases |steps|
  {
    assert steps != [];
    InvWf(cfg, s);
    ReachOneMore(cfg, s, steps[0]);
    var t := Apply(cfg, s, steps[0]);
    InvWf(cfg, t);
    hide Reachable, Apply, Enabled, Enqueued;
    if |t.ready.levels[0]| > Queues.MAX_QUEUE_SIZE {
      u, step := s, steps[0];
      LevelGrowsByEnqueue(cfg, s, steps[0]);
    } else {
      u, step := FirstOverflow(cfg, t, steps[1..]);
    }
  }

  /** With 11 processes of one priority or more, and any number of CPUs, some schedule leads to an
      add or put to a full array. */
  lemma EnqueueCanOverflow(cpus: nat, n: nat) returns (s: System, step: Step)
    requires n > Queues.MAX_QUEUE_SIZE
    ensures var cfg := Crowd(cpus, n);
      && Reachable(cfg, s) && Wf(cfg, s) && Enabled(s, step) && Enqueued(cfg, s, step).Some?
      && Enqueued(cfg, s, step).value < n && cfg.procs[Enqueued(cfg, s, step).value].prio == 0
      && |s.ready.levels[0]| == Queues.MAX_QUEUE_SIZE
  {
    var cfg := Crowd(cpus, n);
    var full := FillLevel(cpus, n);
    InitInv(cfg);
    var first := Os.Init(cfg);
    InvWf(cfg, first);
    InvWf(cfg, full);
    assert IsRun(cfg, first, []) && End(cfg, first, []) == first;
    assert Reachable(cfg, first);
    var steps :| IsRun(cfg, first, steps) && End(cfg, first, steps) == full;
    hide Reachable, Inv, Wf, IsRun, End, Enabled, Enqueued;
    s, step := FirstOverflow(cfg, first, steps);
  }

  /** A state in which all n processes are queued. */
  lemma FillLevel(cpus: nat, n: nat) returns (s: System)
    requires n > 0
    ensures Reachable(Crowd(cpus, n), s) && Inv(Crowd(cpus, n), s)
    ensures |s.ready.levels| == MAX_PRIO && |s.ready.levels[0]| >= n
  {
    var cfg := Crowd(cpus, n);
    var first := Os.Init(cfg);
    InitInv(cfg);
    InvWf(cfg, first);
    assert IsRun(cfg, first, []) && End(cfg, first, []) == first;
    assert Reachable(cfg, first);
    hide Reachable, Inv, Wf, IsRun, End;
    OnePerSlot(cfg.procs, n);
    var u, step := RunToTick(cfg, first, n);
    if cpus == 0 {
      s := u;
      NobodyRan(n, u, step);
    } else {
      TimerGoesOn(cpus, n, u);
      ReachOneMore(cfg, u, step);
      var t := Apply(cfg, u, step);
      AfterTick(cfg, u, step);
      InvWf(cfg, u);
      TimeMoves(cfg, u, step);
      LateClockMeansAllAdded(cfg, t);
      AddedAll(cfg, t);
      var v := LetAllGo(cfg, t);
      OutAtHeads(cfg, v);
      s := PutAll(cpus, n, v);
      AllAliveIfAdded(cpus, n, s);
    }
    AllInOneLevel(cpus, n, s);
  }

  lemma AddedAll(cfg: Config, t: System)
    requires Inv(cfg, t) && AllAdded(cfg, t)
    ensures t.loader.i == |cfg.procs|
  {
  }

  lemma OutAtHeads(cfg: Config, s: System)
    requires Inv(cfg, s) && AllOut(s) && AtHeads(s)
    ensures HoldersAtHead(s)
  {
  }

  lemma TimerGoesOn(cpus: nat, n: nat, u: System)
    requires cpus > 0 && n > 0 && Reachable(Crowd(cpus, n), u) && u.bar.time <= n
    ensures u.bar.timer != B.Exited
  {
    if u.bar.timer == B.Exited {
      TimerOutlivesThreads(Crowd(cpus, n), u);
      NoProcessIsLost(Crowd(cpus, n), u);
      TooEarlyToFinish(cpus, n, u, 0);
      assert false;
    }
  }

  lemma NobodyRan(n: nat, u: System, step: Step)
    requires Reachable(Crowd(0, n), u) && Inv(Crowd(0, n), u) && LastSlotOfAdds(Crowd(0, n)) == n
    requires u.bar.timer == B.Exited || u.bar.time == n
    ensures AllAlive(n, u) && forall j :: 0 <= j < |u.cpus| ==> u.cpus[j].proc == None
  {
    var cfg := Crowd(0, n);
    if u.bar.timer == B.Exited { TimerOutlivesThreads(cfg, u); } else { LateClockMeansAllAdded(cfg, u); }
    forall p | 0 <= p < n
      ensures u.procs[p].place == Queued
    {
      WithoutCpusNothingRuns(cfg, u, p);
    }
  }
}
