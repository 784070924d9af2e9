/** What holds of every run of the loader, the CPUs and the timer, whatever is scheduled. */
module OsTheorems {
  import opened Options
  import opened Arith
  import opened Mlq
  import opened Os
  import opened OsInvariant
  import Queues

  // ---- No process is lost --------------------------------------------------------------

  ghost predicate ShutDown(s: System) {
    s.loader.pc == Finished && forall j :: 0 <= j < |s.cpus| ==> s.cpus[j].pc == Stopped
  }

  /** Once the loader has detached and every CPU has stopped, every configured process was
      freed with each of its instructions executed exactly once and in order. */
  lemma NoProcessIsLost(cfg: Config, s: System)
    requires Reachable(cfg, s) && ShutDown(s) && cfg.cpus > 0 && !cfg.asWritten
    ensures |s.procs| == |cfg.procs|
    ensures forall p :: 0 <= p < |cfg.procs| ==>
      s.procs[p].place == Freed && s.procs[p].log == Upto(cfg.procs[p].size)
    ensures Mlq.Valid(s.ready) && AllEmpty(s.ready)
  {
    ReachableInv(cfg, s);
    DoneMeansAllAdded(cfg, s);
    assert AllEmpty(s.ready);
    forall p | 0 <= p < |cfg.procs|
      ensures s.procs[p].place == Freed && s.procs[p].log == Upto(cfg.procs[p].size)
    {
      assert ProcOk(cfg.procs[p], s.procs[p]);
      assert s.ready.levels[cfg.procs[p].prio] == [];
    }
  }

  /** The CPU is needed: without one nothing is ever executed or freed. */
  lemma WithoutCpusNothingRuns(cfg: Config, s: System, p: Pid)
    requires Reachable(cfg, s) && cfg.cpus == 0 && p < |cfg.procs|
    ensures |s.procs| == |cfg.procs| && s.procs[p].pc == 0 && s.procs[p].place in {NotYet, Queued}
  {
    ReachableInv(cfg, s);
    InitWf(cfg);
    var steps :| IsRun(cfg, Os.Init(cfg), steps) && End(cfg, Os.Init(cfg), steps) == s;
    IdleRun(cfg, Os.Init(cfg), steps);
  }

  /** A CPU stops only after `done` went up, and `done` goes up only in a slot after the last add. */
  lemma StopsComeAfterTheLastAdd(cfg: Config, s: System, j: nat)
    requires Reachable(cfg, s) && j < |s.cpus| && s.cpus[j].pc in {Leave, Stopped}
    ensures s.done && |s.addedAt| == |cfg.procs|
    ensures forall p :: 0 <= p < |s.addedAt| ==> s.addedAt[p] < s.bar.time
  {
    ReachableInv(cfg, s);
    DoneMeansAllAdded(cfg, s);
    forall p | 0 <= p < |s.addedAt|
      ensures s.addedAt[p] < s.bar.time
    {
      ArrivalsIncrease(cfg.procs, p, |cfg.procs|);
    }
  }

  lemma {:induction false} ArrivalsIncrease(specs: seq<ProcSpec>, p: nat, i: nat)
    requires p < i <= |specs|
    ensures Arrival(specs, p) < Earliest(specs, i)
    decreases i
  {
    if p < i - 1 { ArrivalsIncrease(specs, p, i - 1); }
  }

  // ---- Single ownership ----------------------------------------------------------------

  ghost predicate Waits(cfg: Config, s: System, p: Pid)
    requires Wf(cfg, s) && p < |cfg.procs|
  {
    p in s.ready.levels[cfg.procs[p].prio]
  }

  ghost predicate Held(s: System, p: Pid) { exists j :: 0 <= j < |s.cpus| && s.cpus[j].proc == Some(p) }

  /** Every added process is in exactly one place: waiting once, at its own level; held by
      one CPU; or freed. Processes not added yet are nowhere. */
  lemma SingleOwnership(cfg: Config, s: System, p: Pid)
    requires Reachable(cfg, s) && p < |cfg.procs|
    ensures Wf(cfg, s)
    ensures p >= s.loader.i ==> !Waits(cfg, s, p) && !Held(s, p) && s.procs[p].place != Freed
    ensures p < s.loader.i ==>
      || (Waits(cfg, s, p) && !Held(s, p) && s.procs[p].place != Freed)
      || (!Waits(cfg, s, p) && Held(s, p) && s.procs[p].place != Freed)
      || (!Waits(cfg, s, p) && !Held(s, p) && s.procs[p].place == Freed)
    ensures forall l :: 0 <= l < MAX_PRIO ==>
      Distinct(s.ready.levels[l]) && (p in s.ready.levels[l] ==> l == cfg.procs[p].prio)
    ensures forall j, j' :: 0 <= j < |s.cpus| && 0 <= j' < |s.cpus| ==>
      s.cpus[j].proc == s.cpus[j'].proc == Some(p) ==> j == j'
  {
    ReachableInv(cfg, s);
    if s.procs[p].place.Running? { assert s.cpus[s.procs[p].place.cpu].proc == Some(p); }
  }

  /** No CPU runs, puts back or tests a process that was freed. */
  lemma NoUseAfterFree(cfg: Config, s: System, j: nat)
    requires Reachable(cfg, s) && j < |s.cpus| && s.cpus[j].proc.Some?
    ensures s.cpus[j].proc.value < |s.procs| && s.procs[s.cpus[j].proc.value].place == Running(j)
  {
    ReachableInv(cfg, s);
  }

  // ---- The queue array -----------------------------------------------------------------

  ghost function OfPriority(cfg: Config, l: nat): (r: set<Pid>) {
    set p | 0 <= p < |cfg.procs| && cfg.procs[p].prio == l
  }

  ghost predicate FitsQueues(cfg: Config) {
    forall l :: 0 <= l < MAX_PRIO ==> |OfPriority(cfg, l)| <= Queues.MAX_QUEUE_SIZE
  }

  ghost function Elements(q: seq<Pid>): (r: set<Pid>) { set x | x in q }

  lemma {:induction false} DistinctSize(q: seq<Pid>)
    requires Distinct(q)
    ensures |Elements(q)| == |q|
  {
    if q == [] {
    } else {
      DistinctSize(q[1..]);
      assert q == [q[0]] + q[1..];
      assert q[0] !in q[1..];
      assert Elements(q) == Elements(q[1..]) + {q[0]};
    }
  }

  lemma SubsetSize(a: set<Pid>, b: set<Pid>)
    requires a <= b
    ensures |a| <= |b|
  {
    assert |b| == |a| + |b - a| by { assert b == a + (b - a); }
  }

  /** With at most 10 processes of a priority, enqueue never writes past its array: whenever
      a step is about to put process p back or add it, its level has room. */
  lemma EnqueueHasRoom(cfg: Config, s: System, step: Step, p: Pid)
    requires Reachable(cfg, s) && FitsQueues(cfg) && Wf(cfg, s) && Enabled(s, step) && p < |cfg.procs|
    requires (step == LoaderStep && s.loader.pc == Adding && p == s.loader.i)
             || (step.CpuStep? && Act(cfg, s, step.j) == DoPut(p))
    ensures |s.ready.levels[cfg.procs[p].prio]| < Queues.MAX_QUEUE_SIZE
  {
    hide Inv, Reachable, Enabled, Act, B.Enabled;
    ReachableInv(cfg, s);
    NotQueuedYet(cfg, s, step, p);
    var l := cfg.procs[p].prio;
    var q := s.ready.levels[l];
    LevelFacts(cfg, s, l);
    hide Wf;
    DistinctSize(q + [p]);
    SubsetSize(Elements(q + [p]), OfPriority(cfg, l));
  }

  lemma NotQueuedYet(cfg: Config, s: System, step: Step, p: Pid)
    requires Inv(cfg, s) && Enabled(s, step) && p < |cfg.procs|
    requires (step == LoaderStep && s.loader.pc == Adding && p == s.loader.i)
             || (step.CpuStep? && Act(cfg, s, step.j) == DoPut(p))
    ensures |s.procs| == |cfg.procs| && s.procs[p].place != Queued
  {
    hide ProcsOk, CpusFine, LoaderFine, StopsAfterDone, WorkIsSeen, Counted, Recorded, QueueOwns, PidsKnown, B.Inv;
  }

  lemma LevelFacts(cfg: Config, s: System, l: nat)
    requires Inv(cfg, s) && l < MAX_PRIO
    ensures |s.ready.levels| == MAX_PRIO && |s.procs| == |cfg.procs| && Distinct(s.ready.levels[l])
    ensures forall p :: p in s.ready.levels[l] ==>
      p < |cfg.procs| && s.procs[p].place == Queued && cfg.procs[p].prio == l
  {
    hide ProcsOk, CpusFine, LoaderFine, StopsAfterDone, WorkIsSeen, Counted, Recorded, Linked, PidsKnown;
  }

  // ---- Arrivals ------------------------------------------------------------------------

  /** On every schedule process p is added in slot Arrival(p), and in no other. */
  lemma ExactArrivals(cfg: Config, s: System, p: Pid)
    requires Reachable(cfg, s) && p < s.loader.i
    ensures p < |s.addedAt| == s.loader.i <= |cfg.procs|
    ensures s.addedAt[p] == Arrival(cfg.procs, p) <= s.bar.time
    ensures p > 0 ==> s.addedAt[p - 1] < s.addedAt[p]
  {
    ReachableInv(cfg, s);
    assert B.DeviceInv(s.bar, 0);
    ArrivalsIncrease(cfg.procs, p, s.loader.i);
  }

  /** Closed form: the largest start_j + (i - j) over j <= i. */
  lemma {:induction false} ArrivalIsLargestDelay(specs: seq<ProcSpec>, i: nat) returns (j: nat)
    requires i < |specs|
    ensures j <= i && Arrival(specs, i) == specs[j].start + (i - j)
    ensures forall k :: 0 <= k <= i ==> specs[k].start + (i - k) <= Arrival(specs, i)
    decreases i
  {
    if i == 0 {
      j := 0;
    } else {
      j := ArrivalIsLargestDelay(specs, i - 1);
      if specs[i].start >= Arrival(specs, i - 1) + 1 { j := i; }
    }
  }

  // ---- The quantum ---------------------------------------------------------------------

  /** A process is put back after exactly timeSlot instructions, one in each of the timeSlot slots
      since its dispatch; so with a time slot of 0 or less none ever is. */
  lemma QuantumAtPut(cfg: Config, s: System, j: nat, p: Pid)
    requires Reachable(cfg, s)
    requires Wf(cfg, s) && Enabled(s, CpuStep(j)) && Act(cfg, s, j) == DoPut(p)
    ensures cfg.timeSlot >= 1 && s.cpus[j].ran == cfg.timeSlot
    ensures s.bar.devs[j + 1].slots == s.cpus[j].since + cfg.timeSlot
    ensures p < |s.procs| && s.procs[p].pc == s.cpus[j].base + cfg.timeSlot < cfg.procs[p].size
  {
    ReachableInv(cfg, s);
    assert CpuFine(cfg, s, j);
    assert ProcOk(cfg.procs[p], s.procs[p]);
  }

  /** A process is freed at its last instruction, within its quantum exactly when the time slot
      is positive; otherwise it ran from its first instruction to its last without a break. */
  lemma QuantumAtFree(cfg: Config, s: System, j: nat, p: Pid)
    requires Reachable(cfg, s)
    requires Wf(cfg, s) && Enabled(s, CpuStep(j)) && Act(cfg, s, j) == DoFree(p)
    ensures p < |s.procs| && s.procs[p].pc == cfg.procs[p].size
    ensures s.cpus[j].ran >= 1 && s.procs[p].pc - s.cpus[j].base <= s.cpus[j].ran
    ensures s.cpus[j].ran <= cfg.timeSlot <==> cfg.timeSlot >= 1
    ensures cfg.timeSlot <= 0 && cfg.procs[p].size > 0 ==> s.cpus[j].base == 0 && s.cpus[j].ran == cfg.procs[p].size
  {
    ReachableInv(cfg, s);
    assert CpuFine(cfg, s, j);
    if cfg.timeSlot <= 0 { ReachableNeverPutBack(cfg, s); }
  }

  /** With a time slot of 0 or less the counter starts at or below 0 and only falls. */
  lemma NoQuantumNoTimeLeft(cfg: Config, s: System, j: nat)
    requires Reachable(cfg, s) && cfg.timeSlot <= 0 && j < |s.cpus|
    ensures s.cpus[j].timeLeft <= 0
    ensures s.cpus[j].proc.Some? && s.cpus[j].ran > 0 ==> s.cpus[j].timeLeft == cfg.timeSlot - s.cpus[j].ran < 0
  {
    ReachableInv(cfg, s);
    assert CpuFine(cfg, s, j);
  }

  /** Every process that waits has run nothing yet, and every other ran on one CPU alone. */
  ghost predicate NeverPutBack(s: System) {
    && (forall p :: 0 <= p < |s.procs| && s.procs[p].place in {NotYet, Queued} ==> s.procs[p].pc == 0)
    && (forall j :: 0 <= j < |s.cpus| && s.cpus[j].proc.Some? ==> s.cpus[j].base == 0)
  }

  lemma GetNeverPutBack(cfg: Config, s: System, j: nat)
    requires Wf(cfg, s) && QueueOwns(cfg.procs, s.ready.levels, s.procs) && j < |s.cpus| && NeverPutBack(s)
    ensures NeverPutBack(CpuGet(cfg, s, j))
  {
    hide B.Inv, PidsKnown;
    DispatchEffect(cfg, s.ready);
    var r := Dispatch(cfg, s.ready).0;
    if r.Some? { assert s.ready.levels[Choice(s.ready)][0] == r.value; }
  }

  lemma CpuNeverPutBack(cfg: Config, s: System, j: nat)
    requires Wf(cfg, s) && Enabled(s, CpuStep(j)) && QueueOwns(cfg.procs, s.ready.levels, s.procs)
    requires CpuFine(cfg, s, j) && cfg.timeSlot <= 0 && NeverPutBack(s)
    requires s.cpus[j].proc.Some? ==> s.procs[s.cpus[j].proc.value].place == Running(j)
    ensures NeverPutBack(CpuApply(cfg, s, j))
  {
    hide QueueOwns, Dispatch, CpuGet, Mlq.Valid, PidsKnown, B.Apply, B.Enabled;
    if Act(cfg, s, j) == DoGet { GetNeverPutBack(cfg, s, j); }
  }

  lemma NeverPutBackStep(cfg: Config, s: System, step: Step)
    requires Inv(cfg, s) && Enabled(s, step) && cfg.timeSlot <= 0 && NeverPutBack(s)
    ensures NeverPutBack(Apply(cfg, s, step))
  {
    hide QueueOwns, ProcsOk, CpuOk, B.Inv, WorkIsSeen, Recorded, Counted;
    match step
    case Inner(_) =>
    case LoaderStep =>
    case CpuStep(j) =>
      assert CpuFine(cfg, s, j);
      CpuNeverPutBack(cfg, s, j);
  }

  lemma {:induction false} NeverPutBackRun(cfg: Config, s: System, steps: seq<Step>)
    requires Inv(cfg, s) && IsRun(cfg, s, steps) && cfg.timeSlot <= 0 && NeverPutBack(s)
    ensures NeverPutBack(End(cfg, s, steps))
    decreases |steps|
  {
    if steps == [] {
    } else {
      StepInv(cfg, s, steps[0]);
      NeverPutBackStep(cfg, s, steps[0]);
      NeverPutBackRun(cfg, Apply(cfg, s, steps[0]), steps[1..]);
    }
  }

  lemma ReachableNeverPutBack(cfg: Config, s: System)
    requires Reachable(cfg, s) && cfg.timeSlot <= 0
    ensures NeverPutBack(s)
  {
    InitInv(cfg);
    var steps :| IsRun(cfg, Os.Init(cfg), steps) && End(cfg, Os.Init(cfg), steps) == s;
    NeverPutBackRun(cfg, Os.Init(cfg), steps);
  }

  lemma NoProcessNoTimeLeft(cfg: Config, s: System, j: nat)
    requires Reachable(cfg, s) && j < |s.cpus|
    ensures s.cpus[j].proc == None ==> s.cpus[j].timeLeft == 0
    ensures cfg.timeSlot >= 1 ==> 0 <= s.cpus[j].timeLeft < cfg.timeSlot
  {
    ReachableInv(cfg, s);
    assert CpuFine(cfg, s, j);
  }

  /** One instruction per CPU and slot: instructions executed never exceed cpus * (time + 1). */
  lemma InstructionBudget(cfg: Config, s: System)
    requires Reachable(cfg, s)
    ensures Pcs(s.procs) <= cfg.cpus * (s.bar.time + 1)
  {
    hide Inv, Reachable, Wf;
    ReachableInv(cfg, s);
    forall j | 0 <= j < |s.cpus|
      ensures s.cpus[j].instrs <= s.bar.time + 1
    {
      OneInstrPerSlot(cfg, s, j);
    }
    InvWf(cfg, s);
    InstrsArePcs(cfg, s);
    InstrsAtMost(s.cpus, s.bar.time + 1);
  }

  lemma InstrsArePcs(cfg: Config, s: System)
    requires Inv(cfg, s)
    ensures Instrs(s.cpus) == Pcs(s.procs)
  {
  }

  lemma OneInstrPerSlot(cfg: Config, s: System, j: nat)
    requires Inv(cfg, s) && j < |s.cpus|
    ensures s.cpus[j].instrs <= s.bar.time + 1
  {
    assert CpuFine(cfg, s, j) && CpuLinked(s.bar.devs[j + 1], s.cpus[j].pc) && B.DeviceInv(s.bar, j + 1);
  }

  lemma {:induction false} InstrsAtMost(cpus: seq<Cpu>, bound: nat)
    requires forall j :: 0 <= j < |cpus| ==> cpus[j].instrs <= bound
    ensures Instrs(cpus) <= |cpus| * bound
  {
    if cpus == [] {
    } else {
      InstrsAtMost(cpus[1..], bound);
    }
  }

  // ---- Progress ------------------------------------------------------------------------

  predicate SpuriousStep(step: Step) { step.Inner? && B.Spurious(step.m) }

  /** No deadlock: until the timer has exited, some thread can go on without a spurious wakeup. */
  lemma SomeThreadCanStep(cfg: Config, s: System) returns (step: Step)
    requires Reachable(cfg, s) && s.bar.timer != B.Exited
    ensures Enabled(s, step) && !SpuriousStep(step) && step != Inner(B.Stop)
  {
    hide Inv, Reachable, B.Inv, B.Enabled;
    ReachableInv(cfg, s);
    BarInv(cfg, s);
    var m := B.NoDeadlock(s.bar);
    if m.Post? {
      step := if m.d == 0 then LoaderStep else CpuStep(m.d - 1);
      PosterCanStep(cfg, s, m.d);
    } else {
      step := Inner(m);
    }
  }

  /** A device outside next_slot has a thread that has not finished. */
  lemma PosterCanStep(cfg: Config, s: System, d: nat)
    requires Inv(cfg, s) && B.Enabled(s.bar, B.Post(d))
    ensures Enabled(s, if d == 0 then LoaderStep else CpuStep(d - 1))
  {
    if d > 0 { assert CpuLinked(s.bar.devs[d], s.cpus[d - 1].pc); }
  }

  function CpuRank(pc: CpuPc): (r: nat) {
    match pc case Head => 4 case Fetch => 3 case Check => 2 case Enter => 1 case Leave => 1 case Stopped => 0
  }

  function LoaderRank(pc: LoaderPc): (r: nat) {
    match pc case Look => 3 case Adding => 2 case Entering => 1 case Leaving => 1 case Finished => 0
  }

  ghost function CpuRanks(cpus: seq<Cpu>): (r: nat) {
    if cpus == [] then 0 else CpuRank(cpus[0].pc) + CpuRanks(cpus[1..])
  }

  lemma {:induction false} CpuRanksUpdate(cpus: seq<Cpu>, j: nat, c: Cpu)
    requires j < |cpus|
    ensures CpuRanks(cpus[j := c]) == CpuRanks(cpus) - CpuRank(cpus[j].pc) + CpuRank(c.pc)
  {
    if j == 0 {
      assert cpus[j := c][1..] == cpus[1..];
    } else {
      assert cpus[j := c][1..] == cpus[1..][j - 1 := c];
      CpuRanksUpdate(cpus[1..], j - 1, c);
    }
  }

  lemma {:induction false} CpuRanksAtMost(cpus: seq<Cpu>)
    ensures CpuRanks(cpus) <= 4 * |cpus|
  {
    if cpus == [] {
    } else {
      CpuRanksAtMost(cpus[1..]);
    }
  }

  /** An upper bound on the steps left in this slot. */
  ghost function StepsLeft(s: System): (r: nat)
    requires B.Inv(s.bar)
  {
    5 * B.Work(s.bar) + CpuRanks(s.cpus) + LoaderRank(s.loader.pc)
  }

  predicate TickStep(s: System, step: Step) { step == Inner(B.Timer) && B.Ticks(s.bar, B.Timer) }

  predicate SlotStep(s: System, step: Step) {
    !SpuriousStep(step) && !TickStep(s, step) && step != Inner(B.Stop)
  }

  lemma CpuRankDrops(cfg: Config, s: System, j: nat)
    requires Wf(cfg, s) && Enabled(s, CpuStep(j))
    ensures |CpuApply(cfg, s, j).cpus| == |s.cpus|
    ensures s.cpus[j].pc != Enter ==> CpuRank(CpuApply(cfg, s, j).cpus[j].pc) < CpuRank(s.cpus[j].pc)
  {
    if Act(cfg, s, j) == DoGet { GetMovesOn(cfg, s, j); }
  }

  lemma GetMovesOn(cfg: Config, s: System, j: nat)
    requires Wf(cfg, s) && j < |s.cpus|
    ensures |CpuGet(cfg, s, j).cpus| == |s.cpus|
    ensures CpuGet(cfg, s, j).cpus[j].pc in {Check, Enter}
    ensures s.cpus[j].pc != Head ==> CpuGet(cfg, s, j).cpus[j].pc == Check
  {
  }

  lemma SlotStepWorks(cfg: Config, s: System, step: Step)
    requires Inv(cfg, s) && Enabled(s, step) && SlotStep(s, step)
    ensures Inv(cfg, Apply(cfg, s, step)) && StepsLeft(Apply(cfg, s, step)) < StepsLeft(s)
  {
    hide Inv, Wf, Enabled, Apply, CpuRanks, B.Inv, B.Work, B.Enabled, B.Apply;
    InvWf(cfg, s);
    StepInv(cfg, s, step);
    BarInv(cfg, s);
    BarInv(cfg, Apply(cfg, s, step));
    var m := MoveOf(s, step);
    StepMoves(cfg, s, step);
    if m.Some? { B.MoveWorks(s.bar, m.value); }
    RanksStep(cfg, s, step);
  }

  lemma RanksStep(cfg: Config, s: System, step: Step)
    requires Wf(cfg, s) && Enabled(s, step)
    ensures var t := Apply(cfg, s, step);
      var ranks, ranks' := CpuRanks(s.cpus) + LoaderRank(s.loader.pc), CpuRanks(t.cpus) + LoaderRank(t.loader.pc);
      if MoveOf(s, step).Some? then ranks' <= ranks + 4 else ranks' < ranks
  {
    if step.CpuStep? {
      CpuStepShape(cfg, s, step.j);
      CpuRanksUpdate(s.cpus, step.j, Apply(cfg, s, step).cpus[step.j]);
      CpuRankDrops(cfg, s, step.j);
    }
  }

  ghost predicate WithinSlot(cfg: Config, s: System, steps: seq<Step>)
    requires Wf(cfg, s) && IsRun(cfg, s, steps)
    decreases |steps|
  {
    steps == [] || (
      && SlotStep(s, steps[0])
      && (ApplyWf(cfg, s, steps[0]); WithinSlot(cfg, Apply(cfg, s, steps[0]), steps[1..])))
  }

  /** No livelock: without spurious wakeups every slot ends within a fixed number of steps. */
  lemma {:induction false} EverySlotEnds(cfg: Config, s: System, steps: seq<Step>)
    requires Inv(cfg, s) && IsRun(cfg, s, steps) && WithinSlot(cfg, s, steps)
    ensures |steps| <= StepsLeft(s) <= 64 * cfg.cpus + 88
    decreases |steps|
  {
    CpuRanksAtMost(s.cpus);
    B.EverySlotEnds(s.bar, []);
    if steps == [] {
    } else {
      SlotStepWorks(cfg, s, steps[0]);
      EverySlotEnds(cfg, Apply(cfg, s, steps[0]), steps[1..]);
    }
  }

  /** The timer thread is still there whenever somebody may wait for it. */
  lemma TimerOutlivesThreads(cfg: Config, s: System)
    requires Reachable(cfg, s) && s.bar.timer == B.Exited
    ensures ShutDown(s)
  {
    ReachableInv(cfg, s);
    ExitedMeansShutDown(cfg, s);
  }

  lemma ExitedMeansShutDown(cfg: Config, s: System)
    requires Inv(cfg, s) && s.bar.timer == B.Exited
    ensures ShutDown(s)
  {
    forall j | 0 <= j < |s.cpus|
      ensures s.cpus[j].pc == Stopped
    {
      assert CpuLinked(s.bar.devs[j + 1], s.cpus[j].pc);
    }
  }

  ghost function Moves(steps: seq<Step>): (r: seq<B.Move>)
    requires forall i :: 0 <= i < |steps| ==> steps[i].Inner?
  {
    seq(|steps|, i requires 0 <= i < |steps| => steps[i].m)
  }

  /** After the last thread has stopped at most 4n + 11 steps and two ticks follow; after
      stop_timer at most 2n + 6 steps, and a tick only if the timer had begun a round. */
  lemma ShutdownIsBounded(cfg: Config, s: System, steps: seq<Step>)
    requires Inv(cfg, s) && ShutDown(s) && IsRun(cfg, s, steps)
    ensures |steps| <= 4 * cfg.cpus + 11
    ensures s.bar.time <= End(cfg, s, steps).bar.time <= s.bar.time + 2
    ensures s.bar.stop ==> |steps| <= 2 * cfg.cpus + 6
    ensures s.bar.stop ==> End(cfg, s, steps).bar.time <= s.bar.time + if B.InRound(s.bar.timer) then 1 else 0
  {
    OnlyBarrierMoves(cfg, s, steps);
    AllThreadsGone(cfg, s);
    B.TimerExitsSoon(s.bar, Moves(steps));
  }

  lemma AllThreadsGone(cfg: Config, s: System)
    requires Inv(cfg, s) && ShutDown(s)
    ensures B.AllGone(s.bar)
  {
    forall d | 0 <= d < |s.bar.devs|
      ensures s.bar.devs[d].pc == B.Gone
    {
      if d > 0 { assert CpuLinked(s.bar.devs[d], s.cpus[d - 1].pc); }
    }
  }

  lemma {:induction false} OnlyBarrierMoves(cfg: Config, s: System, steps: seq<Step>)
    requires Inv(cfg, s) && ShutDown(s) && IsRun(cfg, s, steps)
    ensures forall i :: 0 <= i < |steps| ==> steps[i].Inner?
    ensures B.IsRun(s.bar, Moves(steps)) && B.End(s.bar, Moves(steps)) == End(cfg, s, steps).bar
    decreases |steps|
  {
    if steps == [] {
    } else {
      AllThreadsGone(cfg, s);
      var t := Apply(cfg, s, steps[0]);
      assert steps[0].Inner? && B.Enabled(s.bar, steps[0].m) && t.bar == B.Apply(s.bar, steps[0].m) && ShutDown(t);
      hide Inv, ShutDown, Apply, B.Apply, B.Enabled, Wf;
      StepInv(cfg, s, steps[0]);
      OnlyBarrierMoves(cfg, t, steps[1..]);
      assert Moves(steps)[1..] == Moves(steps[1..]);
    }
  }

  // ---- The scheduler inside the system -------------------------------------------------

  /** Two processes of one priority leave in the order their add or put took the lock. */
  lemma LevelsAreFifo(cfg: Config, s: System, l: nat)
    requires Reachable(cfg, s) && !cfg.asWritten && l < MAX_PRIO
    ensures ValidOps(s.ops) && Mlq.Valid(s.ready)
    ensures TakenFrom(Mlq.Init(), s.ops, l) + s.ready.levels[l] == AddedTo(s.ops, l)
  {
    ReachableInv(cfg, s);
    LevelIsFifo(Mlq.Init(), s.ops, l);
    assert Mlq.Init().levels[l] == [];
  }

  /** The critical section of a step under queue_lock, if it has one. */
  function StepOps(cfg: Config, s: System, step: Step): (r: seq<Op>)
    requires Wf(cfg, s) && Enabled(s, step)
  {
    match step
    case Inner(_) => []
    case LoaderStep => if s.loader.pc == Adding then [PutOp(s.loader.i, cfg.procs[s.loader.i].prio)] else []
    case CpuStep(j) =>
      match Act(cfg, s, j)
      case DoGet => [GetOp]
      case DoPut(p) => [PutOp(p, cfg.procs[p].prio)]
      case _ => []
  }

  lemma StepRecordsOps(cfg: Config, s: System, step: Step)
    requires Wf(cfg, s) && Enabled(s, step) && !cfg.asWritten
    ensures var ops := StepOps(cfg, s, step);
      && ValidOps(ops) && |ops| <= 1 && Apply(cfg, s, step).ops == s.ops + ops
      && Apply(cfg, s, step).ready == (if ops == [] then s.ready else Mlq.Step(s.ready, ops[0]))
  {
  }

  lemma QueuesValid(cfg: Config, s: System)
    requires Wf(cfg, s)
    ensures Mlq.Valid(s.ready)
  {
  }

  /** The critical sections of a run, in order. */
  ghost function OpsOf(cfg: Config, s: System, steps: seq<Step>): (ops: seq<Op>)
    requires Wf(cfg, s) && IsRun(cfg, s, steps)
    decreases |steps|
  {
    if steps == [] then []
    else
      ApplyWf(cfg, s, steps[0]);
      StepOps(cfg, s, steps[0]) + OpsOf(cfg, Apply(cfg, s, steps[0]), steps[1..])
  }

  /** Along any run the queues evolve by the critical sections that it records. */
  lemma {:induction false} RunExtendsOps(cfg: Config, s: System, steps: seq<Step>)
    requires Wf(cfg, s) && !cfg.asWritten && IsRun(cfg, s, steps)
    ensures ValidOps(OpsOf(cfg, s, steps)) && End(cfg, s, steps).ops == s.ops + OpsOf(cfg, s, steps)
    ensures Mlq.Valid(s.ready) && End(cfg, s, steps).ready == Run(s.ready, OpsOf(cfg, s, steps))
    decreases |steps|
  {
    hide Wf, Enabled, Apply, StepOps, Mlq.Valid, Mlq.Step;
    QueuesValid(cfg, s);
    if steps == [] {
    } else {
      ApplyWf(cfg, s, steps[0]);
      StepRecordsOps(cfg, s, steps[0]);
      var first, rest := StepOps(cfg, s, steps[0]), OpsOf(cfg, Apply(cfg, s, steps[0]), steps[1..]);
      RunExtendsOps(cfg, Apply(cfg, s, steps[0]), steps[1..]);
      assert s.ops + (first + rest) == (s.ops + first) + rest;
      PrependOps(s.ready, first, rest);
    }
  }

  lemma PrependOps(ready: Mlq.State, first: seq<Op>, rest: seq<Op>)
    requires Mlq.Valid(ready) && ValidOps(first) && ValidOps(rest) && |first| <= 1
    ensures Run(ready, first + rest) == Run(if first == [] then ready else Mlq.Step(ready, first[0]), rest)
  {
    if first == [] { assert first + rest == rest; } else { assert (first + rest)[1..] == rest; }
  }

  /** Bounded waiting in the running system: once the CPUs have called get_proc
      WaitBound(l, k) times since s, whatever else happened, the process that waited at
      index k of level l was the k-th taken from that level. */
  lemma WaitingIsBounded(cfg: Config, s: System, steps: seq<Step>, l: nat, k: nat)
    requires Inv(cfg, s) && !cfg.asWritten && IsRun(cfg, s, steps)
    requires l < MAX_PRIO && k < |s.ready.levels[l]|
    ensures ValidOps(OpsOf(cfg, s, steps)) && End(cfg, s, steps).ops == s.ops + OpsOf(cfg, s, steps)
    ensures var more := OpsOf(cfg, s, steps); Gets(more) >= WaitBound(l, k) ==>
      |TakenFrom(s.ready, more, l)| > k && TakenFrom(s.ready, more, l)[k] == s.ready.levels[l][k]
  {
    RunExtendsOps(cfg, s, steps);
    var more := OpsOf(cfg, s, steps);
    if Gets(more) >= WaitBound(l, k) { BoundedWaiting(s.ready, more, l, k); }
  }

  // ---- The scan as written -------------------------------------------------------------

  ghost predicate Idle(s: System) {
    && (forall j :: 0 <= j < |s.cpus| ==> s.cpus[j].proc == None && s.cpus[j].pc in {Head, Enter})
    && (forall p :: 0 <= p < |s.procs| ==> s.procs[p].pc == 0 && s.procs[p].place in {NotYet, Queued})
  }

  lemma IdleStep(cfg: Config, s: System, step: Step)
    requires Wf(cfg, s) && Enabled(s, step) && (cfg.asWritten || cfg.cpus == 0) && Idle(s)
    ensures Idle(Apply(cfg, s, step))
  {
  }

  lemma {:induction false} IdleRun(cfg: Config, s: System, steps: seq<Step>)
    requires Wf(cfg, s) && IsRun(cfg, s, steps) && (cfg.asWritten || cfg.cpus == 0) && Idle(s)
    ensures Idle(End(cfg, s, steps))
    decreases |steps|
  {
    if steps == [] {
    } else {
      ApplyWf(cfg, s, steps[0]);
      IdleStep(cfg, s, steps[0]);
      IdleRun(cfg, Apply(cfg, s, steps[0]), steps[1..]);
    }
  }

  /** With the dispatch scans as the text has them no process is ever dispatched, no
      instruction is ever executed and no CPU ever stops. */
  lemma AsWrittenNothingRuns(cfg: Config, s: System)
    requires Reachable(cfg, s) && cfg.asWritten
    ensures forall p :: 0 <= p < |s.procs| ==> s.procs[p].pc == 0 && s.procs[p].place in {NotYet, Queued}
    ensures forall j :: 0 <= j < |s.cpus| ==> s.cpus[j].proc == None && s.cpus[j].pc != Stopped
  {
    InitWf(cfg);
    var steps :| IsRun(cfg, Os.Init(cfg), steps) && End(cfg, Os.Init(cfg), steps) == s;
    IdleRun(cfg, Os.Init(cfg), steps);
  }
}
