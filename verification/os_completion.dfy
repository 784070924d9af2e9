/** From the clock to the schedule: how many steps a run can take before every process is freed. */
module OsCompletion {
  import opened Arith
  import opened Os
  import opened OsInvariant
  import opened OsTheorems
  import opened OsProgress

  /** Steps of one slot and its tick, at most. */
  function SlotSteps(cfg: Config): (n: nat) { 64 * cfg.cpus + 89 }

  /** Steps of n slots, at most. */
  function StepsOf(cfg: Config, n: int): (steps: int) { n * SlotSteps(cfg) }

  lemma OneSlotLess(cfg: Config, n: int)
    ensures StepsOf(cfg, n - 1) == StepsOf(cfg, n) - SlotSteps(cfg)
    ensures n >= 0 ==> StepsOf(cfg, n) >= 0
  {
    if n >= 0 { MulAtLeast(SlotSteps(cfg), n, 0); }
  }

  /** Steps that are left until the clock passes slot x, spurious wakeups aside. */
  ghost function Fuel(cfg: Config, s: System, x: nat): (n: int)
    requires B.Inv(s.bar)
  {
    StepsLeft(s) + (if s.bar.stop then 0 else 1) + StepsOf(cfg, x - s.bar.time)
  }

  lemma StepsLeftBound(cfg: Config, s: System)
    requires Inv(cfg, s)
    ensures B.Inv(s.bar) && 0 <= StepsLeft(s) <= SlotSteps(cfg) - 1
  {
    InvWf(cfg, s);
    BarInv(cfg, s);
    hide Inv, StepsLeft, B.Inv, Wf;
    EverySlotEnds(cfg, s, []);
  }

  lemma FuelBounds(cfg: Config, s: System, x: nat)
    requires Inv(cfg, s)
    ensures B.Inv(s.bar) && 0 <= StepsLeft(s) <= SlotSteps(cfg) - 1
    ensures s.bar.time <= x ==> Fuel(cfg, s, x) >= 0
  {
    hide Inv, StepsLeft, B.Inv;
    StepsLeftBound(cfg, s);
    OneSlotLess(cfg, x - s.bar.time);
    hide StepsOf;
  }

  /** A step other than a tick. */
  lemma StepsLeftStep(cfg: Config, s: System, step: Step)
    requires Inv(cfg, s) && Enabled(s, step) && Inv(cfg, Apply(cfg, s, step)) && !TickStep(s, step)
    ensures var t := Apply(cfg, s, step);
      && t.bar.time == s.bar.time
      && (SlotStep(s, step) ==> StepsLeft(t) < StepsLeft(s) && t.bar.stop == s.bar.stop)
      && (SpuriousStep(step) ==> StepsLeft(t) <= StepsLeft(s) + 5 && t.bar.stop == s.bar.stop)
      && (step == Inner(B.Stop) ==> StepsLeft(t) == StepsLeft(s) && t.bar.stop && !s.bar.stop)
  {
    InvWf(cfg, s);
    BarInv(cfg, s);
    hide Inv, Wf, B.Inv, B.Work, B.Apply, B.Enabled, StepsLeft;
    TimeMoves(cfg, s, step);
    if SlotStep(s, step) {
      SlotStepWorks(cfg, s, step);
      StopFlagStays(cfg, s, step);
    } else {
      InnerStepsLeft(cfg, s, step.m);
    }
  }

  lemma StopFlagStays(cfg: Config, s: System, step: Step)
    requires Wf(cfg, s) && Enabled(s, step) && SlotStep(s, step)
    ensures Apply(cfg, s, step).bar.stop == s.bar.stop
  {
    hide Wf, Enabled, Apply;
    StepMoves(cfg, s, step);
  }

  lemma InnerStepsLeft(cfg: Config, s: System, m: B.Move)
    requires Inv(cfg, s) && Enabled(s, Inner(m)) && B.Inv(Apply(cfg, s, Inner(m)).bar)
    requires B.Spurious(m) || m == B.Stop
    ensures var t := Apply(cfg, s, Inner(m));
      && (B.Spurious(m) ==> StepsLeft(t) <= StepsLeft(s) + 5 && t.bar.stop == s.bar.stop)
      && (m == B.Stop ==> StepsLeft(t) == StepsLeft(s) && t.bar.stop && !s.bar.stop)
  {
    InvWf(cfg, s);
    BarInv(cfg, s);
    hide Inv, B.Inv, B.Work;
    if B.Spurious(m) { B.SpuriousWorks(s.bar, m); } else { B.StopWorks(s.bar); }
  }

  lemma FuelStep(cfg: Config, s: System, step: Step, x: nat)
    requires Inv(cfg, s) && Enabled(s, step) && Inv(cfg, Apply(cfg, s, step))
    ensures Fuel(cfg, Apply(cfg, s, step), x) <= Fuel(cfg, s, x) + if SpuriousStep(step) then 5 else -1
  {
    hide Inv, StepsLeft, Wf, Apply, Enabled, StepsOf, SlotSteps, TickStep, SpuriousStep, B.Inv;
    InvWf(cfg, s);
    BarInv(cfg, s);
    StepsLeftBound(cfg, s);
    var t := Apply(cfg, s, step);
    if TickStep(s, step) {
      TickTime(cfg, s, step);
      StepsLeftBound(cfg, t);
      OneSlotLess(cfg, x - s.bar.time);
    } else {
      StepsLeftStep(cfg, s, step);
    }
  }

  lemma TickTime(cfg: Config, s: System, step: Step)
    requires Inv(cfg, s) && Enabled(s, step) && TickStep(s, step)
    ensures Apply(cfg, s, step).bar.time == s.bar.time + 1 && Apply(cfg, s, step).bar.stop == s.bar.stop
  {
  }

  // ---- Whole runs ----------------------------------------------------------------------

  function SpuriousSteps(steps: seq<Step>): (n: nat) {
    if steps == [] then 0 else (if SpuriousStep(steps[0]) then 1 else 0) + SpuriousSteps(steps[1..])
  }

  lemma {:induction false} RunUsesFuel(cfg: Config, s: System, steps: seq<Step>, x: nat)
    requires Inv(cfg, s) && IsRun(cfg, s, steps)
    ensures Inv(cfg, End(cfg, s, steps))
    ensures Fuel(cfg, End(cfg, s, steps), x) + |steps| <= Fuel(cfg, s, x) + 6 * SpuriousSteps(steps)
    decreases |steps|
  {
    hide Inv, Enabled, Apply, Wf, Fuel;
    InvWf(cfg, s);
    if steps == [] {
    } else {
      StepInv(cfg, s, steps[0]);
      FuelStep(cfg, s, steps[0], x);
      RunUsesFuel(cfg, Apply(cfg, s, steps[0]), steps[1..], x);
    }
  }

  /** The slot by which every process is freed. */
  ghost function FinishTime(cfg: Config): (x: nat) {
    WorkIsPositive(cfg.procs);
    LastSlotOfAdds(cfg) + Sum(AllWork(cfg.procs))
  }

  lemma WorkIsPositive(specs: seq<ProcSpec>)
    ensures Sum(AllWork(specs)) >= 0
  {
    SumNonNegative(AllWork(specs));
  }

  ghost predicate AllFreed(cfg: Config, s: System) {
    |s.procs| == |cfg.procs| &&
    forall p :: 0 <= p < |cfg.procs| ==> s.procs[p].place == Freed && s.procs[p].log == Upto(cfg.procs[p].size)
  }

  ghost function StepBound(cfg: Config): (n: nat) {
    OneSlotLess(cfg, FinishTime(cfg) + 1);
    StepsOf(cfg, FinishTime(cfg) + 1)
  }

  /** Every run, on any schedule, finishes every process within StepBound(cfg) steps; each spurious
      wakeup allows it 6 more. */
  lemma LongRunsFinish(cfg: Config, steps: seq<Step>)
    requires ValidConfig(cfg) && Wf(cfg, Os.Init(cfg)) && IsRun(cfg, Os.Init(cfg), steps)
    requires cfg.cpus > 0 && !cfg.asWritten
    requires |steps| > StepBound(cfg) + 6 * SpuriousSteps(steps)
    ensures AllFreed(cfg, End(cfg, Os.Init(cfg), steps))
  {
    hide Inv, Wf, Fuel, IsRun, End, StepsLeft, AllFreed, FinishTime, StepsOf;
    var first, t, x := Os.Init(cfg), End(cfg, Os.Init(cfg), steps), FinishTime(cfg);
    InitInv(cfg);
    FuelAtStart(cfg, x);
    RunUsesFuel(cfg, first, steps, x);
    FuelBounds(cfg, t, x);
    ReachedByRun(cfg, steps);
    FinishedBy(cfg, t);
  }

  lemma FuelAtStart(cfg: Config, x: nat)
    requires ValidConfig(cfg) && Inv(cfg, Os.Init(cfg))
    ensures Fuel(cfg, Os.Init(cfg), x) <= StepsOf(cfg, x + 1)
  {
    hide Inv, StepsLeft, StepsOf;
    StepsLeftBound(cfg, Os.Init(cfg));
    OneSlotLess(cfg, x + 1);
  }

  lemma ReachedByRun(cfg: Config, steps: seq<Step>)
    requires ValidConfig(cfg) && Wf(cfg, Os.Init(cfg)) && IsRun(cfg, Os.Init(cfg), steps)
    ensures Reachable(cfg, End(cfg, Os.Init(cfg), steps))
  {
    hide IsRun, End, Wf;
  }

  lemma FinishedBy(cfg: Config, t: System)
    requires Reachable(cfg, t) && cfg.cpus > 0 && !cfg.asWritten && t.bar.time >= FinishTime(cfg)
    ensures AllFreed(cfg, t)
  {
    hide Reachable;
    AllProcessesFinishInTime(cfg, t);
  }

  /** And a run that cannot go on but for spurious wakeups has finished them too. */
  lemma StuckRunsFinish(cfg: Config, s: System)
    requires Reachable(cfg, s) && cfg.cpus > 0 && !cfg.asWritten
    requires forall step :: Enabled(s, step) ==> SpuriousStep(step) || step == Inner(B.Stop)
    ensures AllFreed(cfg, s)
  {
    if s.bar.timer != B.Exited {
      var step := SomeThreadCanStep(cfg, s);
      assert false;
    }
    TimerOutlivesThreads(cfg, s);
    NoProcessIsLost(cfg, s);
  }

  // ---- Going on ------------------------------------------------------------------------

  lemma {:induction false} RunOneMore(cfg: Config, s: System, steps: seq<Step>, step: Step)
    requires Wf(cfg, s) && IsRun(cfg, s, steps) && Enabled(End(cfg, s, steps), step)
    ensures IsRun(cfg, s, steps + [step])
    ensures End(cfg, s, steps + [step]) == Apply(cfg, End(cfg, s, steps), step)
    decreases |steps|
  {
    hide Wf, Apply, Enabled;
    if steps == [] {
      assert [step][1..] == [];
      ApplyWf(cfg, s, step);
      assert End(cfg, Apply(cfg, s, step), []) == Apply(cfg, s, step);
      assert steps + [step] == [step];
    } else {
      ApplyWf(cfg, s, steps[0]);
      RunOneMore(cfg, Apply(cfg, s, steps[0]), steps[1..], step);
      assert (steps + [step])[1..] == steps[1..] + [step];
    }
  }

  lemma ReachOneMore(cfg: Config, s: System, step: Step)
    requires Reachable(cfg, s) && Wf(cfg, s) && Enabled(s, step)
    ensures Reachable(cfg, Apply(cfg, s, step)) && Inv(cfg, Apply(cfg, s, step))
  {
    ReachableInv(cfg, s);
    StepInv(cfg, s, step);
    hide Wf, Apply, Enabled, Inv;
    InitWf(cfg);
    var steps :| IsRun(cfg, Os.Init(cfg), steps) && End(cfg, Os.Init(cfg), steps) == s;
    RunOneMore(cfg, Os.Init(cfg), steps, step);
  }

  /** Some schedule takes the clock to slot x, or to the end of the timer. */
  lemma {:induction false} RunOn(cfg: Config, s: System, x: nat) returns (t: System)
    requires Reachable(cfg, s) && Inv(cfg, s)
    ensures Reachable(cfg, t) && Inv(cfg, t) && (t.bar.time > x || t.bar.timer == B.Exited)
    decreases Fuel(cfg, s, x)
  {
    if s.bar.time > x || s.bar.timer == B.Exited {
      t := s;
    } else {
      var step := SomeThreadCanStep(cfg, s);
      ReachOneMore(cfg, s, step);
      FuelBounds(cfg, s, x);
      FuelStep(cfg, s, step, x);
      t := RunOn(cfg, Apply(cfg, s, step), x);
    }
  }
}
