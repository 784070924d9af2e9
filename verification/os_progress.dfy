/** How long the processes of a configuration take: in every slot after the last add some CPU
    executes an instruction, dispatches a process without code, or frees a process. */
module OsProgress {
  import opened Options
  import opened Arith
  import opened Mlq
  import opened Os
  import opened OsInvariant
  import opened OsTheorems

  // ---- Work left -----------------------------------------------------------------------

  /** The slots that must still make progress on a process: one for each instruction or, if it
      has none, one for its dispatch; and one to free it. */
  function Weight(spec: ProcSpec, proc: Proc): (w: nat)
    requires proc.pc <= spec.size
  {
    if proc.place == Freed then 0
    else if spec.size == 0 then if proc.place.Running? then 1 else 2
    else spec.size - proc.pc + 1
  }

  ghost function Weights(specs: seq<ProcSpec>, procs: seq<Proc>): (w: seq<int>)
    requires ProcsOk(specs, procs)
    ensures |w| == |specs|
    ensures forall p :: 0 <= p < |w| ==> ProcOk(specs[p], procs[p]) && w[p] == Weight(specs[p], procs[p])
  {
    assert forall p :: 0 <= p < |specs| ==> ProcOk(specs[p], procs[p]);
    seq(|specs|, p requires 0 <= p < |specs| => Weight(specs[p], procs[p]))
  }

  ghost function Remaining(specs: seq<ProcSpec>, procs: seq<Proc>): (w: int)
    requires ProcsOk(specs, procs)
  {
    Sum(Weights(specs, procs))
  }

  /** The work of all processes before they start. */
  function AllWork(specs: seq<ProcSpec>): (w: seq<int>)
    ensures |w| == |specs| && forall p :: 0 <= p < |w| ==> w[p] == if specs[p].size == 0 then 2 else specs[p].size + 1
  {
    seq(|specs|, p requires 0 <= p < |specs| => if specs[p].size == 0 then 2 else specs[p].size + 1)
  }

  lemma WorkBounds(specs: seq<ProcSpec>, procs: seq<Proc>)
    requires ProcsOk(specs, procs)
    ensures 0 <= Remaining(specs, procs) <= Sum(AllWork(specs))
    ensures Remaining(specs, procs) == 0 ==> forall p :: 0 <= p < |procs| ==> procs[p].place == Freed
  {
    var w := Weights(specs, procs);
    SumNonNegative(w);
    SumAtMost(w, AllWork(specs));
    forall p | 0 <= p < |procs| && Remaining(specs, procs) == 0
      ensures procs[p].place == Freed
    {
      SumUpdate(w, p, 0);
      SumNonNegative(w[p := 0]);
    }
  }

  lemma WorkLeftOnSomebody(specs: seq<ProcSpec>, procs: seq<Proc>) returns (p: Pid)
    requires ProcsOk(specs, procs) && Remaining(specs, procs) > 0
    ensures p < |procs| && procs[p].place != Freed
  {
    var w := Weights(specs, procs);
    if q :| 0 <= q < |procs| && procs[q].place != Freed {
      p := q;
    } else {
      SumBound(w, 0);
      assert false;
    }
  }

  lemma WorkOfOne(specs: seq<ProcSpec>, procs: seq<Proc>, p: Pid, proc: Proc)
    requires ProcsOk(specs, procs) && p < |procs| && ProcOk(specs[p], proc)
    ensures ProcOk(specs[p], procs[p]) && ProcsOk(specs, procs[p := proc])
    ensures Remaining(specs, procs[p := proc])
         == Remaining(specs, procs) - Weight(specs[p], procs[p]) + Weight(specs[p], proc)
  {
    assert Weights(specs, procs[p := proc]) == Weights(specs, procs)[p := Weight(specs[p], proc)];
    SumUpdate(Weights(specs, procs), p, Weight(specs[p], proc));
  }

  // ---- Progress within a slot ----------------------------------------------------------

  /** CPU j has yet to call next_slot in this slot. */
  predicate InSlot(s: System, j: nat)
    requires j < |s.cpus| && |s.bar.devs| == |s.cpus| + 1
  {
    s.bar.devs[j + 1].slots == s.bar.time
  }

  /** CPU j holds a process that it will run, free or put back in this slot. */
  predicate Holds(cfg: Config, s: System, j: nat)
    requires j < |s.cpus| && |s.bar.devs| == |s.cpus| + 1
  {
    && InSlot(s, j) && s.cpus[j].proc.Some? && s.cpus[j].pc in {Head, Check}
    && (s.cpus[j].pc == Check ==> s.cpus[j].proc.value < |cfg.procs| && cfg.procs[s.cpus[j].proc.value].size > 0)
  }

  /** CPU j will call get_proc in this slot. */
  predicate Looks(s: System, j: nat)
    requires j < |s.cpus| && |s.bar.devs| == |s.cpus| + 1
  {
    InSlot(s, j) && s.cpus[j].proc == None && s.cpus[j].pc in {Head, Fetch}
  }

  /** Somebody will still make progress in this slot. */
  ghost predicate Expected(cfg: Config, s: System)
    requires |s.bar.devs| == |s.cpus| + 1 && Mlq.Valid(s.ready)
  {
    || (exists j :: 0 <= j < |s.cpus| && Holds(cfg, s, j))
    || (!AllEmpty(s.ready) && exists j :: 0 <= j < |s.cpus| && Looks(s, j))
  }

  ghost function LastSlotOfAdds(cfg: Config): (t: nat) { Earliest(cfg.procs, |cfg.procs|) }

  /** Every slot since the last add, but perhaps the running one, took a unit of work. */
  ghost predicate OnTime(cfg: Config, s: System)
    requires |s.bar.devs| == |s.cpus| + 1 && Mlq.Valid(s.ready) && ProcsOk(cfg.procs, s.procs)
    requires s.loader.i <= |cfg.procs|
  {
    AllAdded(cfg, s) && Remaining(cfg.procs, s.procs) > 0 ==>
      var spent := Remaining(cfg.procs, s.procs) + (s.bar.time - LastSlotOfAdds(cfg));
      spent <= Sum(AllWork(cfg.procs)) && (spent == Sum(AllWork(cfg.procs)) ==> Expected(cfg, s))
  }

  /** Steps that use up a unit of work. */
  predicate Progresses(cfg: Config, s: System, step: Step)
    requires Wf(cfg, s) && Enabled(s, step)
  {
    step.CpuStep? &&
    match Act(cfg, s, step.j)
    case DoFree(_) => true
    case DoRun(p) => p < |cfg.procs| && cfg.procs[p].size > 0
    case DoGet =>
      var r := Dispatch(cfg, s.ready).0;
      r.Some? && r.value < |cfg.procs| && cfg.procs[r.value].size == 0
    case _ => false
  }

  lemma TouchedWeight(cfg: Config, s: System, step: Step, p: Pid)
    requires Wf(cfg, s) && Enabled(s, step) && Touched(cfg, s, step) == Some(p) && p < |s.procs|
    requires |Apply(cfg, s, step).procs| == |s.procs|
    requires ProcOk(cfg.procs[p], s.procs[p]) && ProcOk(cfg.procs[p], Apply(cfg, s, step).procs[p])
    requires step == LoaderStep ==> s.procs[p].place == NotYet
    requires step.CpuStep? && Act(cfg, s, step.j) == DoGet ==> s.procs[p].place == Queued
    requires step.CpuStep? && Act(cfg, s, step.j) != DoGet ==> s.procs[p].place.Running?
    requires step.CpuStep? && Act(cfg, s, step.j) == DoRun(p) ==>
      s.procs[p].pc < cfg.procs[p].size || cfg.procs[p].size == 0
    ensures var w, w' := Weight(cfg.procs[p], s.procs[p]), Weight(cfg.procs[p], Apply(cfg, s, step).procs[p]);
      w' == w - if Progresses(cfg, s, step) then 1 else 0
  {
    hide Mlq.Valid, PidsKnown, B.Enabled, B.Apply, Dispatch;
  }

  /** Where the process is that a step touches. */
  lemma TouchedPlace(cfg: Config, s: System, step: Step, p: Pid)
    requires Inv(cfg, s) && Enabled(s, step) && Touched(cfg, s, step) == Some(p) && p < |s.procs|
    ensures step == LoaderStep ==> s.procs[p].place == NotYet
    ensures step.CpuStep? && Act(cfg, s, step.j) == DoGet ==> s.procs[p].place == Queued
    ensures step.CpuStep? && Act(cfg, s, step.j) != DoGet ==> s.procs[p].place.Running?
    ensures step.CpuStep? && Act(cfg, s, step.j) == DoRun(p) ==>
      s.procs[p].pc < cfg.procs[p].size || cfg.procs[p].size == 0
  {
    OwnedTouched(cfg, s, step, p);
    if step.CpuStep? {
      assert CpuFine(cfg, s, step.j);
      if Act(cfg, s, step.j) == DoGet {
        DispatchEffect(cfg, s.ready);
        assert s.ready.levels[Choice(s.ready)][0] == p;
      }
    }
  }

  lemma WorkStep(cfg: Config, s: System, step: Step)
    requires Inv(cfg, s) && Enabled(s, step) && Inv(cfg, Apply(cfg, s, step))
    ensures Remaining(cfg.procs, Apply(cfg, s, step).procs)
         == Remaining(cfg.procs, s.procs) - if Progresses(cfg, s, step) then 1 else 0
  {
    hide Apply, Enabled, Touched, Remaining, Weight, ProcOk, B.Inv, QueueOwns, CpuFine, WorkIsSeen, Counted, Recorded;
    var t, touched := Apply(cfg, s, step), Touched(cfg, s, step);
    TouchesOne(cfg, s, step);
    if touched.Some? {
      var p := touched.value;
      TouchedPlace(cfg, s, step, p);
      assert ProcOk(cfg.procs[p], s.procs[p]) && ProcOk(cfg.procs[p], t.procs[p]);
      TouchedWeight(cfg, s, step, p);
      WorkOfOne(cfg.procs, s.procs, p, t.procs[p]);
    } else {
      NothingTouched(cfg, s, step);
    }
  }

  lemma NothingTouched(cfg: Config, s: System, step: Step)
    requires Wf(cfg, s) && Enabled(s, step) && Touched(cfg, s, step) == None
    ensures !Progresses(cfg, s, step)
  {
  }

  // ---- Steps that leave the clock alone ------------------------------------------------

  predicate TicksNow(s: System, step: Step) { step.Inner? && B.Ticks(s.bar, step.m) }

  lemma TimeMoves(cfg: Config, s: System, step: Step)
    requires Wf(cfg, s) && Enabled(s, step)
    ensures Apply(cfg, s, step).bar.time == s.bar.time + if TicksNow(s, step) then 1 else 0
  {
    StepMoves(cfg, s, step);
  }

  /** Threads and slots that a step does not move. */
  lemma OthersKeepTheirSlot(cfg: Config, s: System, step: Step, j: nat)
    requires Wf(cfg, s) && Enabled(s, step) && j < |s.cpus| && step != CpuStep(j) && !TicksNow(s, step)
    ensures var t := Apply(cfg, s, step);
      && |t.bar.devs| == |t.cpus| + 1 && |t.cpus| == |s.cpus|
      && Holds(cfg, t, j) == Holds(cfg, s, j) && Looks(t, j) == Looks(s, j)
  {
    OtherThreads(cfg, s, step, j);
    TimeMoves(cfg, s, step);
  }

  /** A CPU that is not in next_slot has not ended this slot. */
  lemma StepperIsInSlot(s: System, j: nat)
    requires B.Inv(s.bar) && |s.bar.devs| == |s.cpus| + 1 && Enabled(s, CpuStep(j))
    ensures InSlot(s, j)
  {
    assert B.DeviceInv(s.bar, j + 1);
  }

  /** Progress that is expected stays so until it is made: who takes a process from the queues
      holds it, who puts one back looks for another, and who finds nothing found no work. */
  lemma ExpectedStep(cfg: Config, s: System, step: Step)
    requires Inv(cfg, s) && Enabled(s, step) && Expected(cfg, s) && !cfg.asWritten
    requires !TicksNow(s, step) && !Progresses(cfg, s, step) && AllAdded(cfg, s)
    requires Inv(cfg, Apply(cfg, s, step))
    ensures Expected(cfg, Apply(cfg, s, step))
  {
    var t := Apply(cfg, s, step);
    InvWf(cfg, s);
    InvWf(cfg, t);
    if step.CpuStep? {
      hide *;
      CpuExpected(cfg, s, step.j);
    } else {
      hide Inv, Apply, Enabled, Holds, Looks, Wf, Mlq.Valid, AllEmpty;
      OtherCpusExpect(cfg, s, step, |s.cpus|);
      OtherQueuesStay(cfg, s, step);
    }
  }

  /** Once all processes are added only CPUs touch the queues. */
  lemma OtherQueuesStay(cfg: Config, s: System, step: Step)
    requires Inv(cfg, s) && Enabled(s, step) && AllAdded(cfg, s) && !step.CpuStep?
    ensures Wf(cfg, s) && Apply(cfg, s, step).ready == s.ready
  {
  }

  lemma OtherCpusExpect(cfg: Config, s: System, step: Step, j: nat)
    requires Wf(cfg, s) && Enabled(s, step) && !TicksNow(s, step) && (step.CpuStep? ==> step.j == j)
    requires Wf(cfg, Apply(cfg, s, step))
    ensures forall k :: 0 <= k < |s.cpus| && k != j && Holds(cfg, s, k) ==> Holds(cfg, Apply(cfg, s, step), k)
    ensures forall k :: 0 <= k < |s.cpus| && k != j && Looks(s, k) ==> Looks(Apply(cfg, s, step), k)
    ensures |Apply(cfg, s, step).cpus| == |s.cpus|
  {
    forall k | 0 <= k < |s.cpus| && k != j
      ensures Holds(cfg, s, k) ==> Holds(cfg, Apply(cfg, s, step), k)
      ensures Looks(s, k) ==> Looks(Apply(cfg, s, step), k)
    {
      OthersKeepTheirSlot(cfg, s, step, k);
    }
  }

  /** CPU j is one of those that were not expected to make progress, and the queues are as
      they were. */
  ghost predicate Unconcerned(cfg: Config, s: System, t: System, j: nat)
    requires j < |s.cpus| && |s.bar.devs| == |s.cpus| + 1 && Mlq.Valid(s.ready) && Mlq.Valid(t.ready)
  {
    !Holds(cfg, s, j) && (AllEmpty(s.ready) || !Looks(s, j)) && (AllEmpty(s.ready) || !AllEmpty(t.ready))
  }

  lemma StillExpected(cfg: Config, s: System, t: System, j: nat)
    requires j < |s.cpus| && |s.bar.devs| == |s.cpus| + 1 && Mlq.Valid(s.ready) && Mlq.Valid(t.ready)
    requires |t.cpus| == |s.cpus| && |t.bar.devs| == |t.cpus| + 1 && Expected(cfg, s)
    requires forall k :: 0 <= k < |s.cpus| && k != j && Holds(cfg, s, k) ==> Holds(cfg, t, k)
    requires forall k :: 0 <= k < |s.cpus| && k != j && Looks(s, k) ==> Looks(t, k)
    requires Holds(cfg, t, j) || (Looks(t, j) && !AllEmpty(t.ready)) || Unconcerned(cfg, s, t, j)
    ensures Expected(cfg, t)
  {
    hide AllEmpty, Mlq.Valid;
  }

  /** What the next action of CPU j makes of its own outlook. */
  lemma CpuOutlook(cfg: Config, s: System, j: nat)
    requires Wf(cfg, s) && Enabled(s, CpuStep(j)) && !cfg.asWritten && InSlot(s, j)
    requires CpuFine(cfg, s, j) && (s.cpus[j].pc == Fetch ==> s.cpus[j].proc == None)
    requires !Progresses(cfg, s, CpuStep(j)) && Wf(cfg, CpuApply(cfg, s, j))
    requires s.cpus[j].proc.Some? ==> var p := s.cpus[j].proc.value;
      p < |cfg.procs| && s.procs[p].pc <= cfg.procs[p].size
    requires Dispatch(cfg, s.ready).0 == None ==> AllEmpty(s.ready) && Dispatch(cfg, s.ready).1 == s.ready
    ensures var t := CpuApply(cfg, s, j);
      Holds(cfg, t, j) || (Looks(t, j) && !AllEmpty(t.ready)) || Unconcerned(cfg, s, t, j)
  {
    hide PidsKnown, Dispatch;
    match Act(cfg, s, j)
    case DoPut(p) => assert CpuApply(cfg, s, j).ready.levels[cfg.procs[p].prio] != [];
    case DoGet =>
    case DoFree(_) =>
    case DoRun(_) =>
    case DoGoto(_) =>
    case DoPost =>
    case DoDetach =>
  }

  lemma CpuExpected(cfg: Config, s: System, j: nat)
    requires Inv(cfg, s) && Enabled(s, CpuStep(j)) && Expected(cfg, s) && !cfg.asWritten
    requires !Progresses(cfg, s, CpuStep(j)) && Inv(cfg, Apply(cfg, s, CpuStep(j)))
    ensures Expected(cfg, Apply(cfg, s, CpuStep(j)))
  {
    hide Expected, Holds, Looks, Unconcerned, CpuApply, Act, QueueOwns, Counted, Recorded, WorkIsSeen;
    OtherCpusExpect(cfg, s, CpuStep(j), j);
    StepperIsInSlot(s, j);
    assert CpuFine(cfg, s, j);
    if s.cpus[j].proc.Some? { assert ProcOk(cfg.procs[s.cpus[j].proc.value], s.procs[s.cpus[j].proc.value]); }
    DispatchEffect(cfg, s.ready);
    CpuOutlook(cfg, s, j);
    StillExpected(cfg, s, CpuApply(cfg, s, j), j);
  }

  // ---- The tick ------------------------------------------------------------------------

  /** When the clock ticks every CPU has ended its slot. */
  lemma NothingExpectedAtTick(cfg: Config, s: System, step: Step)
    requires Inv(cfg, s) && Enabled(s, step) && TicksNow(s, step)
    ensures !Expected(cfg, s)
  {
    forall j | 0 <= j < |s.cpus|
      ensures !Holds(cfg, s, j) && !Looks(s, j)
    {
      assert B.DeviceInv(s.bar, j + 1) && CpuLinked(s.bar.devs[j + 1], s.cpus[j].pc);
    }
  }

  /** Then every CPU that has not stopped begins the next slot at its loop head. */
  lemma CpuAfterTick(cfg: Config, s: System, step: Step, j: nat)
    requires Inv(cfg, s) && Enabled(s, step) && TicksNow(s, step) && Inv(cfg, Apply(cfg, s, step))
    requires j < |s.cpus| && s.cpus[j].pc != Stopped
    ensures var t := Apply(cfg, s, step); t.cpus == s.cpus && InSlot(t, j) && t.cpus[j].pc == Head
  {
    var t := Apply(cfg, s, step);
    assert B.DeviceInv(t.bar, j + 1) && CpuLinked(t.bar.devs[j + 1], t.cpus[j].pc);
  }

  lemma ExpectedAfterTick(cfg: Config, s: System, step: Step)
    requires Inv(cfg, s) && Enabled(s, step) && TicksNow(s, step) && Inv(cfg, Apply(cfg, s, step))
    requires cfg.cpus > 0 && !cfg.asWritten && AllAdded(cfg, Apply(cfg, s, step))
    requires Remaining(cfg.procs, s.procs) > 0
    ensures Expected(cfg, Apply(cfg, s, step))
  {
    var t := Apply(cfg, s, step);
    var p := WorkLeftOnSomebody(cfg.procs, t.procs);
    if t.procs[p].place.Running? {
      var j := t.procs[p].place.cpu;
      CpuAfterTick(cfg, s, step, j);
      assert Holds(cfg, t, j);
    } else {
      assert t.procs[p].place == Queued && t.ready.levels[cfg.procs[p].prio] != [];
      assert !AllEmpty(t.ready);
      var j :| 0 <= j < |t.cpus| && !Committed(t.cpus[j]);
      CpuAfterTick(cfg, s, step, j);
      assert Holds(cfg, t, j) || Looks(t, j);
    }
  }

  // ---- Whole runs ----------------------------------------------------------------------

  lemma AllAddedBefore(cfg: Config, s: System, step: Step)
    requires Inv(cfg, s) && Enabled(s, step) && !TicksNow(s, step)
    requires Inv(cfg, Apply(cfg, s, step)) && AllAdded(cfg, Apply(cfg, s, step))
    ensures AllAdded(cfg, s)
  {
    TimeMoves(cfg, s, step);
    match step
    case Inner(_) =>
    case CpuStep(j) => CpuStepShape(cfg, s, j);
    case LoaderStep =>
      assert B.DeviceInv(s.bar, 0);
      EarliestAfterArrival(cfg.procs);
  }

  lemma EarliestAfterArrival(specs: seq<ProcSpec>)
    ensures forall i :: 0 <= i < |specs| ==> Earliest(specs, i + 1) == Arrival(specs, i) + 1
  {
  }

  lemma OnTimeTick(cfg: Config, s: System, step: Step)
    requires Inv(cfg, s) && Enabled(s, step) && OnTime(cfg, s) && cfg.cpus > 0 && !cfg.asWritten
    requires TicksNow(s, step) && Inv(cfg, Apply(cfg, s, step))
    ensures OnTime(cfg, Apply(cfg, s, step))
  {
    var t := Apply(cfg, s, step);
    WorkStep(cfg, s, step);
    TimeMoves(cfg, s, step);
    WorkBounds(cfg.procs, s.procs);
    hide Expected, Remaining, Earliest, AllWork;
    if AllAdded(cfg, t) && Remaining(cfg.procs, t.procs) > 0 {
      NothingExpectedAtTick(cfg, s, step);
      ExpectedAfterTick(cfg, s, step);
    }
  }

  lemma OnTimeStep(cfg: Config, s: System, step: Step)
    requires Inv(cfg, s) && Enabled(s, step) && OnTime(cfg, s) && cfg.cpus > 0 && !cfg.asWritten
    requires Inv(cfg, Apply(cfg, s, step))
    ensures OnTime(cfg, Apply(cfg, s, step))
  {
    hide Expected, Remaining, Earliest, AllWork, Progresses;
    if TicksNow(s, step) {
      OnTimeTick(cfg, s, step);
    } else {
      var t := Apply(cfg, s, step);
      WorkStep(cfg, s, step);
      TimeMoves(cfg, s, step);
      if AllAdded(cfg, t) {
        AllAddedBefore(cfg, s, step);
        if Expected(cfg, s) && !Progresses(cfg, s, step) { ExpectedStep(cfg, s, step); }
      }
    }
  }

  lemma {:induction false} OnTimeRun(cfg: Config, s: System, steps: seq<Step>)
    requires Inv(cfg, s) && IsRun(cfg, s, steps) && OnTime(cfg, s) && cfg.cpus > 0 && !cfg.asWritten
    ensures Inv(cfg, End(cfg, s, steps)) && OnTime(cfg, End(cfg, s, steps))
    decreases |steps|
  {
    hide Inv, OnTime, Apply, Enabled, Wf;
    InvWf(cfg, s);
    if steps == [] {
    } else {
      StepInv(cfg, s, steps[0]);
      OnTimeStep(cfg, s, steps[0]);
      OnTimeRun(cfg, Apply(cfg, s, steps[0]), steps[1..]);
    }
  }

  lemma OnTimeAtStart(cfg: Config)
    requires ValidConfig(cfg) && Inv(cfg, Os.Init(cfg))
    ensures OnTime(cfg, Os.Init(cfg))
  {
    if cfg.procs == [] { assert Weights(cfg.procs, Os.Init(cfg).procs) == []; }
  }

  lemma ReachableOnTime(cfg: Config, s: System)
    requires Reachable(cfg, s) && cfg.cpus > 0 && !cfg.asWritten
    ensures Inv(cfg, s) && OnTime(cfg, s)
  {
    InitInv(cfg);
    OnTimeAtStart(cfg);
    var steps :| IsRun(cfg, Os.Init(cfg), steps) && End(cfg, Os.Init(cfg), steps) == s;
    OnTimeRun(cfg, Os.Init(cfg), steps);
  }

  lemma LateClockMeansAllAdded(cfg: Config, s: System)
    requires Inv(cfg, s) && s.bar.time >= LastSlotOfAdds(cfg)
    ensures AllAdded(cfg, s)
  {
    assert B.DeviceInv(s.bar, 0);
    if s.loader.i < |cfg.procs| { ArrivalsIncrease(cfg.procs, s.loader.i, |cfg.procs|); }
  }

  /** Bounded completion: with at least one CPU and the meant scan, once the clock has passed the
      slot after the last arrival by the sum of size + 1 over all processes (2 for a process
      without code), every process is freed with all its instructions executed in order. This
      holds of every interleaving, whether or not the CPUs ever stop. */
  lemma AllProcessesFinishInTime(cfg: Config, s: System)
    requires Reachable(cfg, s) && cfg.cpus > 0 && !cfg.asWritten
    requires s.bar.time >= LastSlotOfAdds(cfg) + Sum(AllWork(cfg.procs))
    ensures |s.procs| == |cfg.procs|
    ensures forall p :: 0 <= p < |cfg.procs| ==>
      s.procs[p].place == Freed && s.procs[p].log == Upto(cfg.procs[p].size)
  {
    ReachableOnTime(cfg, s);
    WorkBounds(cfg.procs, s.procs);
    LateClockMeansAllAdded(cfg, s);
    forall p | 0 <= p < |cfg.procs|
      ensures s.procs[p].place == Freed && s.procs[p].log == Upto(cfg.procs[p].size)
    {
      assert ProcOk(cfg.procs[p], s.procs[p]);
    }
  }
}
