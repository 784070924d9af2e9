/** When the system shuts down: an idle CPU whose first load fails never tests `done`. */
module OsShutdown {
  import opened Options
  import opened Arith
  import opened Mlq
  import opened Os
  import opened OsInvariant
  import opened OsTheorems
  import opened OsProgress
  import opened OsCompletion

  /** `done` is up and every process was freed. */
  ghost predicate Over(s: System) {
    s.done && forall p :: 0 <= p < |s.procs| ==> s.procs[p].place == Freed
  }

  /** The CPU will test `done` before its next call of next_slot, or has. */
  predicate Closing(c: Cpu) { c.pc in {Fetch, Check, Leave, Stopped} }

  lemma OverIsIdle(cfg: Config, s: System)
    requires Inv(cfg, s) && Over(s)
    ensures AllEmpty(s.ready) && forall j :: 0 <= j < |s.cpus| ==> s.cpus[j].proc == None
  {
    NobodyQueued(cfg.procs, s.ready.levels, s.procs);
  }

  lemma FrontsAreQueued(specs: seq<ProcSpec>, levels: seq<seq<Pid>>, procs: seq<Proc>)
    requires QueueOwns(specs, levels, procs)
    ensures forall l :: 0 <= l < MAX_PRIO && levels[l] != [] ==>
      levels[l][0] < |procs| && procs[levels[l][0]].place == Queued
  {
  }

  lemma NobodyQueued(specs: seq<ProcSpec>, levels: seq<seq<Pid>>, procs: seq<Proc>)
    requires QueueOwns(specs, levels, procs) && forall p :: 0 <= p < |procs| ==> procs[p].place != Queued
    ensures forall l :: 0 <= l < MAX_PRIO ==> levels[l] == []
  {
    FrontsAreQueued(specs, levels, procs);
  }

  lemma CpuOverStep(cfg: Config, s: System, j: nat)
    requires Wf(cfg, s) && Enabled(s, CpuStep(j)) && !cfg.asWritten && s.done && s.cpus[j].proc == None
    requires AllEmpty(s.ready)
    ensures var t := CpuApply(cfg, s, j);
      t.procs == s.procs && t.done && |t.cpus| == |s.cpus| && (Closing(t.cpus[j]) <==> Closing(s.cpus[j]))
  {
    DispatchEffect(cfg, s.ready);
    GetIsWorkConserving(s.ready);
  }

  /** Then nothing starts again, and no CPU changes sides. */
  lemma OverStep(cfg: Config, s: System, step: Step)
    requires Inv(cfg, s) && Enabled(s, step) && Over(s) && !cfg.asWritten
    ensures var t := Apply(cfg, s, step);
      && Over(t) && |t.cpus| == |s.cpus|
      && forall j :: 0 <= j < |s.cpus| ==> (Closing(t.cpus[j]) <==> Closing(s.cpus[j]))
  {
    OverIsIdle(cfg, s);
    hide QueueOwns, ProcsOk, CpusFine, Counted, Recorded, WorkIsSeen, B.Inv, B.Apply;
    match step
    case Inner(_) =>
    case LoaderStep =>
    case CpuStep(j) =>
      CpuStepShape(cfg, s, j);
      CpuOverStep(cfg, s, j);
  }

  lemma {:induction false} OverRun(cfg: Config, s: System, steps: seq<Step>)
    requires Inv(cfg, s) && Over(s) && !cfg.asWritten && IsRun(cfg, s, steps)
    ensures var t := End(cfg, s, steps);
      && Inv(cfg, t) && Over(t) && |t.cpus| == |s.cpus|
      && forall j :: 0 <= j < |s.cpus| ==> (Closing(t.cpus[j]) <==> Closing(s.cpus[j]))
    decreases |steps|
  {
    InvWf(cfg, s);
    hide Inv, Wf, Enabled, Apply, Over, Closing;
    if steps == [] {
    } else {
      StepInv(cfg, s, steps[0]);
      OverStep(cfg, s, steps[0]);
      OverRun(cfg, Apply(cfg, s, steps[0]), steps[1..]);
    }
  }

  // ---- Shutting down -------------------------------------------------------------------

  /** In a closing CPU's or a leaving loader's program next_slot is not running. */
  lemma ClosersAreOut(cfg: Config, s: System)
    requires Inv(cfg, s) && Over(s)
    ensures s.loader.pc == Leaving || s.loader.pc == Finished
    ensures s.loader.pc != Finished ==> Enabled(s, LoaderStep)
    ensures forall j :: 0 <= j < |s.cpus| && Closing(s.cpus[j]) && s.cpus[j].pc != Stopped ==> Enabled(s, CpuStep(j))
  {
    forall j | 0 <= j < |s.cpus| && Closing(s.cpus[j]) && s.cpus[j].pc != Stopped
      ensures Enabled(s, CpuStep(j))
    {
      assert CpuLinked(s.bar.devs[j + 1], s.cpus[j].pc);
    }
  }

  /** If all CPUs are closing the system can shut down: each goes on to its end. */
  lemma {:induction false} ClosersCanStop(cfg: Config, s: System) returns (steps: seq<Step>)
    requires Inv(cfg, s) && Over(s) && !cfg.asWritten
    requires forall j :: 0 <= j < |s.cpus| ==> Closing(s.cpus[j])
    ensures Wf(cfg, s) && IsRun(cfg, s, steps) && ShutDown(End(cfg, s, steps))
    decreases CpuRanks(s.cpus) + LoaderRank(s.loader.pc)
  {
    InvWf(cfg, s);
    ClosersAreOut(cfg, s);
    hide Inv, Wf, IsRun, End;
    if step :| Goes(s, step) {
      OverStep(cfg, s, step);
      GoingDrops(cfg, s, step);
      StepInv(cfg, s, step);
      var rest := ClosersCanStop(cfg, Apply(cfg, s, step));
      steps := [step] + rest;
      FirstThen(cfg, s, step, rest);
    } else {
      steps := [];
      assert !Goes(s, LoaderStep);
      assert forall j :: 0 <= j < |s.cpus| ==> !Goes(s, CpuStep(j));
      EmptyRun(cfg, s);
    }
  }

  /** A step of the loader or a CPU that has not stopped. */
  predicate Goes(s: System, step: Step) { !step.Inner? && Enabled(s, step) }

  lemma GoingDrops(cfg: Config, s: System, step: Step)
    requires Inv(cfg, s) && Over(s) && Goes(s, step)
    requires forall j :: 0 <= j < |s.cpus| ==> Closing(s.cpus[j])
    ensures var t := Apply(cfg, s, step);
      CpuRanks(t.cpus) + LoaderRank(t.loader.pc) < CpuRanks(s.cpus) + LoaderRank(s.loader.pc)
  {
    ClosersAreOut(cfg, s);
    if step.CpuStep? {
      CpuStepShape(cfg, s, step.j);
      CpuRanksUpdate(s.cpus, step.j, Apply(cfg, s, step).cpus[step.j]);
      CpuRankDrops(cfg, s, step.j);
    }
  }

  lemma FirstThen(cfg: Config, s: System, step: Step, rest: seq<Step>)
    requires Wf(cfg, s) && Enabled(s, step) && Wf(cfg, Apply(cfg, s, step)) && IsRun(cfg, Apply(cfg, s, step), rest)
    ensures IsRun(cfg, s, [step] + rest) && End(cfg, s, [step] + rest) == End(cfg, Apply(cfg, s, step), rest)
  {
    hide Wf, Enabled, Apply;
    assert ([step] + rest)[1..] == rest;
  }

  lemma EmptyRun(cfg: Config, s: System)
    requires Wf(cfg, s)
    ensures IsRun(cfg, s, []) && End(cfg, s, []) == s
  {
  }

  ghost predicate CanShutDown(cfg: Config, s: System)
    requires Wf(cfg, s)
  {
    exists steps :: IsRun(cfg, s, steps) && ShutDown(End(cfg, s, steps))
  }

  /** Once all processes are freed and `done` is up, the system can shut down exactly when no CPU
      stands at its loop head or before next_slot. */
  lemma ShutsDownIffClosing(cfg: Config, s: System)
    requires Reachable(cfg, s) && Over(s) && !cfg.asWritten
    ensures Wf(cfg, s) && (CanShutDown(cfg, s) <==> forall j :: 0 <= j < |s.cpus| ==> Closing(s.cpus[j]))
  {
    ReachableInv(cfg, s);
    InvWf(cfg, s);
    if forall j :: 0 <= j < |s.cpus| ==> Closing(s.cpus[j]) {
      var steps := ClosersCanStop(cfg, s);
    } else if CanShutDown(cfg, s) {
      var steps :| IsRun(cfg, s, steps) && ShutDown(End(cfg, s, steps));
      OverRun(cfg, s, steps);
    }
  }

  /** A closing CPU has stopped by the next tick; so with all CPUs closing every run shuts down. */
  lemma ClosersStopInTheirSlot(cfg: Config, s: System, step: Step, j: nat)
    requires Reachable(cfg, s) && Enabled(s, step) && TicksNow(s, step) && j < |s.cpus| && Closing(s.cpus[j])
    ensures s.cpus[j].pc == Stopped
  {
    ReachableInv(cfg, s);
    assert B.DeviceInv(s.bar, j + 1) && CpuLinked(s.bar.devs[j + 1], s.cpus[j].pc);
  }

  /** A CPU at its loop head or before next_slot then never stops, on any schedule, and the timer
      never exits. */
  lemma IdleCpuNeverStops(cfg: Config, s: System, steps: seq<Step>, j: nat)
    requires Reachable(cfg, s) && Over(s) && !cfg.asWritten && Wf(cfg, s) && IsRun(cfg, s, steps)
    requires j < |s.cpus| && !Closing(s.cpus[j])
    ensures var t := End(cfg, s, steps);
      |t.cpus| == |s.cpus| && t.cpus[j].pc in {Head, Enter} && !ShutDown(t) && t.bar.timer != B.Exited
  {
    ReachableInv(cfg, s);
    OverRun(cfg, s, steps);
    var t := End(cfg, s, steps);
    if t.bar.timer == B.Exited { ExitedMeansShutDown(cfg, t); }
  }

  // ---- Getting there -------------------------------------------------------------------

  lemma LateClockMeansDone(cfg: Config, s: System)
    requires Reachable(cfg, s) && s.bar.time > LastSlotOfAdds(cfg)
    ensures s.done
  {
    ReachableInv(cfg, s);
    LateClockMeansAllAdded(cfg, s);
    assert B.DeviceInv(s.bar, 0);
  }

  /** On every configuration with a CPU some schedule frees all processes and raises `done`. */
  lemma OverIsReached(cfg: Config) returns (s: System)
    requires ValidConfig(cfg) && cfg.cpus > 0 && !cfg.asWritten
    ensures Reachable(cfg, s) && Over(s)
  {
    InitInv(cfg);
    InvWf(cfg, Os.Init(cfg));
    EmptyRun(cfg, Os.Init(cfg));
    s := RunOn(cfg, Os.Init(cfg), FinishTime(cfg));
    hide Inv, Wf, Reachable, FinishTime;
    if s.bar.timer == B.Exited {
      TimerOutlivesThreads(cfg, s);
      NoProcessIsLost(cfg, s);
      ShutDownIsDone(cfg, s);
    } else {
      FinishedBy(cfg, s);
      FinishIsAfterAdds(cfg);
      LateClockMeansDone(cfg, s);
    }
  }

  lemma FinishIsAfterAdds(cfg: Config)
    ensures FinishTime(cfg) >= LastSlotOfAdds(cfg)
  {
    WorkIsPositive(cfg.procs);
  }

  lemma ShutDownIsDone(cfg: Config, s: System)
    requires Reachable(cfg, s) && ShutDown(s)
    ensures s.done
  {
    ReachableInv(cfg, s);
  }

  // ---- More CPUs than processes --------------------------------------------------------

  /** The CPU has dispatched a process since it last was idle at its loop head. */
  predicate Busy(c: Cpu) { c.proc.Some? || !(c.pc in {Head, Enter}) }

  predicate Started(p: Proc) { p.place.Running? || p.place == Freed }

  ghost function BusyCpus(cpus: seq<Cpu>): (b: seq<int>)
    ensures |b| == |cpus| && forall j :: 0 <= j < |b| ==> b[j] == if Busy(cpus[j]) then 1 else 0
  {
    seq(|cpus|, j requires 0 <= j < |cpus| => if Busy(cpus[j]) then 1 else 0)
  }

  ghost function StartedProcs(procs: seq<Proc>): (b: seq<int>)
    ensures |b| == |procs| && forall p :: 0 <= p < |b| ==> b[p] == if Started(procs[p]) then 1 else 0
  {
    seq(|procs|, p requires 0 <= p < |procs| => if Started(procs[p]) then 1 else 0)
  }

  /** Every busy CPU dispatched a process of its own. */
  ghost predicate OneEach(s: System) { Sum(BusyCpus(s.cpus)) <= Sum(StartedProcs(s.procs)) }

  /** No process outlives its quantum. */
  predicate OneQuantum(cfg: Config) {
    cfg.timeSlot <= 0 || forall p :: 0 <= p < |cfg.procs| ==> cfg.procs[p].size <= cfg.timeSlot
  }

  lemma BusyChange(cpus: seq<Cpu>, j: nat, c: Cpu)
    requires j < |cpus|
    ensures Sum(BusyCpus(cpus[j := c]))
         == Sum(BusyCpus(cpus)) - (if Busy(cpus[j]) then 1 else 0) + (if Busy(c) then 1 else 0)
  {
    assert BusyCpus(cpus[j := c]) == BusyCpus(cpus)[j := if Busy(c) then 1 else 0];
    SumUpdate(BusyCpus(cpus), j, if Busy(c) then 1 else 0);
  }

  lemma StartedChange(procs: seq<Proc>, p: nat, proc: Proc)
    requires p < |procs|
    ensures Sum(StartedProcs(procs[p := proc]))
         == Sum(StartedProcs(procs)) - (if Started(procs[p]) then 1 else 0) + (if Started(proc) then 1 else 0)
  {
    assert StartedProcs(procs[p := proc]) == StartedProcs(procs)[p := if Started(proc) then 1 else 0];
    SumUpdate(StartedProcs(procs), p, if Started(proc) then 1 else 0);
  }

  lemma NoPutInOneQuantum(cfg: Config, s: System, j: nat, p: Pid)
    requires Inv(cfg, s) && OneQuantum(cfg) && j < |s.cpus|
    ensures Act(cfg, s, j) != DoPut(p)
  {
    assert CpuFine(cfg, s, j);
    if s.cpus[j].proc.Some? { assert ProcOk(cfg.procs[s.cpus[j].proc.value], s.procs[s.cpus[j].proc.value]); }
  }

  lemma CpuOneEach(cfg: Config, s: System, j: nat)
    requires Wf(cfg, s) && Enabled(s, CpuStep(j)) && OneEach(s) && forall p: Pid :: Act(cfg, s, j) != DoPut(p)
    requires Act(cfg, s, j) == DoGet && Dispatch(cfg, s.ready).0.Some? ==>
      Dispatch(cfg, s.ready).0.value < |s.procs| && !Started(s.procs[Dispatch(cfg, s.ready).0.value])
    requires s.cpus[j].pc == Fetch ==> s.cpus[j].proc == None
    ensures OneEach(CpuApply(cfg, s, j))
  {
    var t, touched := CpuApply(cfg, s, j), Touched(cfg, s, CpuStep(j));
    CpuStepShape(cfg, s, j);
    TouchesOne(cfg, s, CpuStep(j));
    BusyChange(s.cpus, j, t.cpus[j]);
    hide PidsKnown, Mlq.Valid, Dispatch, BusyCpus, StartedProcs;
    if touched.Some? { StartedChange(s.procs, touched.value, t.procs[touched.value]); }
  }

  lemma OneEachStep(cfg: Config, s: System, step: Step)
    requires Inv(cfg, s) && Enabled(s, step) && OneEach(s) && OneQuantum(cfg)
    ensures OneEach(Apply(cfg, s, step))
  {
    match step
    case Inner(_) =>
    case LoaderStep =>
      if s.loader.pc == Adding { StartedChange(s.procs, s.loader.i, s.procs[s.loader.i].(place := Queued)); }
    case CpuStep(j) =>
      forall p: Pid ensures Act(cfg, s, j) != DoPut(p) { NoPutInOneQuantum(cfg, s, j, p); }
      DispatchEffect(cfg, s.ready);
      FrontsAreQueued(cfg.procs, s.ready.levels, s.procs);
      hide Inv, Act, CpuFine, ProcsOk, Counted, Recorded, WorkIsSeen, B.Inv, OneEach, Dispatch, CpuApply;
      CpuOneEach(cfg, s, j);
  }

  lemma {:induction false} OneEachRun(cfg: Config, s: System, steps: seq<Step>)
    requires Inv(cfg, s) && IsRun(cfg, s, steps) && OneEach(s) && OneQuantum(cfg)
    ensures Inv(cfg, End(cfg, s, steps)) && OneEach(End(cfg, s, steps))
    decreases |steps|
  {
    InvWf(cfg, s);
    hide Inv, Wf, Enabled, Apply, OneEach, OneQuantum;
    if steps == [] {
    } else {
      StepInv(cfg, s, steps[0]);
      OneEachStep(cfg, s, steps[0]);
      OneEachRun(cfg, Apply(cfg, s, steps[0]), steps[1..]);
    }
  }

  /** With more CPUs than processes, none of which outlives its quantum, some CPU is always one
      that has never run anything; so the system never shuts down. */
  lemma MoreCpusThanProcesses(cfg: Config, s: System)
    requires Reachable(cfg, s) && OneQuantum(cfg) && cfg.cpus > |cfg.procs|
    ensures exists j :: 0 <= j < |s.cpus| && !Closing(s.cpus[j]) && s.cpus[j].proc == None
    ensures !ShutDown(s) && s.bar.timer != B.Exited
  {
    ReachableOneEach(cfg, s);
    InvWf(cfg, s);
    SumBound(StartedProcs(s.procs), 1);
    var j := SomeZero(BusyCpus(s.cpus), |cfg.procs|);
    assert !Busy(s.cpus[j]);
    hide Inv;
    if s.bar.timer == B.Exited { ExitedMeansShutDown(cfg, s); }
  }

  lemma NoneEachAtStart(cfg: Config)
    ensures OneEach(Os.Init(cfg))
  {
    var first := Os.Init(cfg);
    SumBound(BusyCpus(first.cpus), 0);
    SumNonNegative(StartedProcs(first.procs));
  }

  lemma ReachableOneEach(cfg: Config, s: System)
    requires Reachable(cfg, s) && OneQuantum(cfg)
    ensures Inv(cfg, s) && OneEach(s)
  {
    hide Inv, OneEach, OneQuantum;
    InitInv(cfg);
    NoneEachAtStart(cfg);
    var steps :| IsRun(cfg, Os.Init(cfg), steps) && End(cfg, Os.Init(cfg), steps) == s;
    OneEachRun(cfg, Os.Init(cfg), steps);
  }

  lemma {:induction false} SomeZero(b: seq<int>, n: nat) returns (j: nat)
    requires Sum(b) <= n < |b| && forall i :: 0 <= i < |b| ==> b[i] == 0 || b[i] == 1
    ensures j < |b| && b[j] == 0
  {
    if b[0] == 0 {
      j := 0;
    } else {
      SumNonNegative(b[1..]);
      j := SomeZero(b[1..], n - 1);
      j := j + 1;
    }
  }

  /** Such a configuration of two CPUs and one process does come to its end of work. */
  lemma IdleForEver() returns (s: System)
    ensures var cfg := Config(1, 2, [ProcSpec(0, 0, 1)], false);
      Reachable(cfg, s) && Over(s) && Wf(cfg, s) && !CanShutDown(cfg, s)
  {
    var cfg := Config(1, 2, [ProcSpec(0, 0, 1)], false);
    s := OverIsReached(cfg);
    MoreCpusThanProcesses(cfg, s);
    ShutsDownIffClosing(cfg, s);
  }

  // ---- One CPU -------------------------------------------------------------------------

  /** One CPU and one process of `size` instructions in one quantum. */
  function Solo(size: nat): (cfg: Config)
    ensures ValidConfig(cfg)
  {
    Config(size, 1, [ProcSpec(0, 0, size)], false)
  }

  /** The step at which the process of a run is freed. */
  lemma {:induction false} FindFree(cfg: Config, s: System, steps: seq<Step>) returns (u: System, step: Step)
    requires Reachable(cfg, s) && Inv(cfg, s) && IsRun(cfg, s, steps) && |cfg.procs| > 0
    requires s.procs[0].place != Freed && |End(cfg, s, steps).procs| > 0 && End(cfg, s, steps).procs[0].place == Freed
    ensures Reachable(cfg, u) && Inv(cfg, u) && Enabled(u, step) && u.procs[0].place != Freed
    ensures |Apply(cfg, u, step).procs| > 0 && Apply(cfg, u, step).procs[0].place == Freed
    decreases |steps|
  {
    assert steps != [];
    ReachOneMore(cfg, s, steps[0]);
    hide Reachable;
    var t := Apply(cfg, s, steps[0]);
    if t.procs[0].place == Freed {
      u, step := s, steps[0];
    } else {
      u, step := FindFree(cfg, t, steps[1..]);
    }
  }

  lemma FreesAtFetch(cfg: Config, u: System, step: Step)
    requires Inv(cfg, u) && Enabled(u, step) && |u.procs| > 0 && u.procs[0].place != Freed
    requires |Apply(cfg, u, step).procs| > 0 && Apply(cfg, u, step).procs[0].place == Freed
    ensures var t := Apply(cfg, u, step);
      step.CpuStep? && step.j < |t.cpus| && t.cpus[step.j].pc == Fetch && t.bar == u.bar && t.done == u.done
    ensures u.procs[0].pc == cfg.procs[0].size
  {
    hide PidsKnown, Dispatch, QueueOwns, CpusFine, Counted, Recorded, WorkIsSeen, B.Inv, CpuApply, ProcOk, Mlq.Valid;
    TouchesOne(cfg, u, step);
    match step
    case Inner(_) =>
    case LoaderStep =>
    case CpuStep(j) =>
      CpuStepShape(cfg, u, j);
      CpuFrees(cfg, u, j);
  }

  /** A CPU's step frees a process only by DoFree. */
  lemma CpuFrees(cfg: Config, u: System, j: nat)
    requires Wf(cfg, u) && Enabled(u, CpuStep(j)) && |u.procs| > 0 && u.procs[0].place != Freed
    requires |CpuApply(cfg, u, j).procs| == |u.procs| && CpuApply(cfg, u, j).procs[0].place == Freed
    ensures var t := CpuApply(cfg, u, j);
      j < |t.cpus| && t.cpus[j].pc == Fetch && t.bar == u.bar && t.done == u.done && u.procs[0].pc == cfg.procs[0].size
  {
    hide PidsKnown, Dispatch, Mlq.Valid;
  }

  /** One CPU and one process of three instructions or more can shut down: `done` is up when the
      process is freed, and its CPU tests it in that slot. */
  lemma SoloShutsDown(size: nat) returns (s: System)
    requires size >= 3
    ensures var cfg := Solo(size);
      Reachable(cfg, s) && Over(s) && Wf(cfg, s) && CanShutDown(cfg, s)
  {
    hide Reachable, Inv, Wf, IsRun, End, CanShutDown, Apply, Over;
    var cfg := Solo(size);
    var over := OverIsReached(cfg);
    InitInv(cfg);
    var first := Os.Init(cfg);
    InvWf(cfg, first);
    EmptyRun(cfg, first);
    var steps := RunTo(cfg, over);
    RunInv(cfg, first, steps);
    NotFreedAtStart(size);
    OneProc(size, over);
    var u, step := FindFree(cfg, first, steps);
    InvWf(cfg, u);
    ReachOneMore(cfg, u, step);
    s := Apply(cfg, u, step);
    InvWf(cfg, s);
    OneProc(size, u);
    OneProc(size, s);
    FreesAtFetch(cfg, u, step);
    FreedLate(size, u);
    SoloIsOver(size, s);
    ShutsDownIffClosing(cfg, s);
  }

  lemma RunTo(cfg: Config, s: System) returns (steps: seq<Step>)
    requires Reachable(cfg, s)
    ensures Wf(cfg, Os.Init(cfg)) && IsRun(cfg, Os.Init(cfg), steps) && End(cfg, Os.Init(cfg), steps) == s
    ensures Reachable(cfg, Os.Init(cfg))
  {
    hide Wf, IsRun, End;
    InitWf(cfg);
    EmptyRun(cfg, Os.Init(cfg));
    steps :| IsRun(cfg, Os.Init(cfg), steps) && End(cfg, Os.Init(cfg), steps) == s;
  }

  lemma NotFreedAtStart(size: nat)
    ensures Os.Init(Solo(size)).procs[0].place == NotYet
  {
  }

  lemma OneProc(size: nat, s: System)
    requires Inv(Solo(size), s)
    ensures |s.procs| == 1 && |s.cpus| == 1 && (Over(s) ==> s.procs[0].place == Freed)
  {
  }

  lemma SoloIsOver(size: nat, s: System)
    requires |s.procs| == 1 && s.procs[0].place == Freed && s.done
    ensures Over(s)
  {
  }

  /** Three instructions take till after the slot in which `done` goes up. */
  lemma FreedLate(size: nat, u: System)
    requires size >= 3 && Reachable(Solo(size), u) && |u.procs| == 1 && u.procs[0].pc == size
    ensures u.done
  {
    var cfg := Solo(size);
    hide Reachable;
    InstructionBudget(cfg, u);
    assert Pcs(u.procs) == u.procs[0].pc + Pcs(u.procs[1..]) >= size;
    assert LastSlotOfAdds(cfg) == 1;
    LateClockMeansDone(cfg, u);
  }
}
