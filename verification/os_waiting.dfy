/** How many slots a process waits: every CPU that has not given up calls get_proc once in every
    quantum. */
module OsWaiting {
  import opened Options
  import opened Arith
  import opened Mlq
  import opened Os
  import opened OsInvariant
  import opened OsTheorems

  /** The size of the longest process, at least 1. */
  function Longest(specs: seq<ProcSpec>): (n: nat)
    ensures n >= 1 && forall p :: 0 <= p < |specs| ==> specs[p].size <= n
  {
    if specs == [] then 1
    else
      var n := Longest(specs[..|specs| - 1]);
      var last := specs[|specs| - 1].size;
      if last > n then last else n
  }

  /** The most slots for which a CPU keeps a process: its time slot or, if that is 0 or less, as
      many as the process has instructions. */
  function Quantum(cfg: Config): (n: nat)
    ensures n >= 1
  {
    if cfg.timeSlot >= 1 then cfg.timeSlot else Longest(cfg.procs)
  }

  /** Calls of next_slot that the CPU can still make with its process. */
  function SlotsLeft(timeSlot: int, c: Cpu, spec: ProcSpec, ppc: nat): (n: int) {
    if timeSlot >= 1 then if c.pc == Check && c.ran == 0 then timeSlot else c.timeLeft
    else if spec.size == 0 then if c.pc == Check then 1 else 0
    else spec.size - ppc
  }

  /** Calls of next_slot that CPU j can still make before its next call of get_proc. */
  function SlotsToGet(cfg: Config, s: System, j: nat): (n: int)
    requires j < |s.cpus|
  {
    var c := s.cpus[j];
    (if c.pc == Enter then 1 else 0) +
    match c.proc
    case None => 0
    case Some(p) =>
      if p < |cfg.procs| && p < |s.procs| then SlotsLeft(cfg.timeSlot, c, cfg.procs[p], s.procs[p].pc) else 0
  }

  lemma SlotsToGetBounds(cfg: Config, s: System, j: nat)
    requires Inv(cfg, s) && j < |s.cpus|
    ensures 0 <= SlotsToGet(cfg, s, j) <= Quantum(cfg) + 1
  {
    assert CpuFine(cfg, s, j);
    if s.cpus[j].proc.Some? {
      var p := s.cpus[j].proc.value;
      assert ProcOk(cfg.procs[p], s.procs[p]) && cfg.procs[p].size <= Longest(cfg.procs);
    }
  }

  /** The slots of n quanta. */
  function Quanta(quantum: nat, n: nat): (slots: int) { quantum * n }

  lemma QuantaOf(quantum: nat, n: nat)
    ensures Quanta(quantum, n) >= 0
    ensures Quanta(quantum, 0) == 0 && Quanta(quantum, 1) == quantum
  {
  }

  /** What CPU j has ended and can still end. */
  function Pace(cfg: Config, s: System, j: nat): (n: int)
    requires j < |s.cpus| && |s.bar.devs| == |s.cpus| + 1
  {
    s.bar.devs[j + 1].slots + SlotsToGet(cfg, s, j)
  }

  lemma CpuPace(cfg: Config, s: System, j: nat)
    requires Wf(cfg, s) && Enabled(s, CpuStep(j)) && CpuFine(cfg, s, j)
    requires s.cpus[j].proc.Some? ==> var p := s.cpus[j].proc.value; s.procs[p].pc <= cfg.procs[p].size
    requires !Committed(s.cpus[j]) && (s.cpus[j].pc == Fetch ==> s.cpus[j].proc == None)
    requires Act(cfg, s, j) == DoGet ==> Dispatch(cfg, s.ready).0.Some?
    ensures var t := CpuApply(cfg, s, j);
      && |t.bar.devs| == |t.cpus| + 1 && |t.cpus| == |s.cpus| && !Committed(t.cpus[j])
      && Pace(cfg, t, j) <= Pace(cfg, s, j) + if Act(cfg, s, j) == DoGet then Quantum(cfg) else 0
  {
    if Act(cfg, s, j) == DoGet {
      DispatchedIsKnown(cfg, s);
      LongestIsLongest(cfg.procs, Dispatch(cfg, s.ready).0.value);
    }
    hide PidsKnown, Mlq.Valid, Dispatch, Longest;
  }

  lemma LongestIsLongest(specs: seq<ProcSpec>, p: nat)
    ensures p < |specs| ==> specs[p].size <= Longest(specs)
  {
  }

  lemma WorkIsDispatched(cfg: Config, ready: Mlq.State, l: nat)
    requires Mlq.Valid(ready) && !cfg.asWritten && l < MAX_PRIO && ready.levels[l] != []
    ensures Dispatch(cfg, ready).0.Some?
  {
    GetIsWorkConserving(ready);
  }

  lemma StepGets(cfg: Config, s: System, step: Step)
    requires Wf(cfg, s) && Enabled(s, step)
    ensures Gets(StepOps(cfg, s, step)) == if step.CpuStep? && Act(cfg, s, step.j) == DoGet then 1 else 0
  {
    hide Wf, Enabled, Act;
  }

  lemma CpuPaceFacts(cfg: Config, s: System, j: nat)
    requires Inv(cfg, s) && j < |s.cpus|
    ensures Wf(cfg, s) && |s.bar.devs| == |s.cpus| + 1 && CpuFine(cfg, s, j)
    ensures s.cpus[j].pc == Fetch ==> s.cpus[j].proc == None
    ensures CpusOwn(s.cpus, s.procs)
    ensures s.cpus[j].proc.Some? ==> var p := s.cpus[j].proc.value;
      p < |s.procs| && p < |cfg.procs| && s.procs[p].pc <= cfg.procs[p].size
  {
    if s.cpus[j].proc.Some? { assert ProcOk(cfg.procs[s.cpus[j].proc.value], s.procs[s.cpus[j].proc.value]); }
  }

  lemma OthersPace(cfg: Config, s: System, step: Step, j: nat)
    requires Wf(cfg, s) && Enabled(s, step) && j < |s.cpus| && step != CpuStep(j) && |s.bar.devs| == |s.cpus| + 1
    requires CpusOwn(s.cpus, s.procs)
    ensures var t := Apply(cfg, s, step);
      && |t.bar.devs| == |t.cpus| + 1 && |t.cpus| == |s.cpus|
      && t.cpus[j] == s.cpus[j] && Pace(cfg, t, j) == Pace(cfg, s, j)
  {
    assert s.cpus[j].proc.Some? && step.CpuStep? ==> s.cpus[step.j].proc != s.cpus[j].proc;
    hide Wf, Enabled, Apply;
    OtherThreads(cfg, s, step, j);
    OtherProcsStay(cfg, s, step);
  }

  /** While level l has work no CPU gives up, and only a get_proc lets CPU j end more slots. */
  lemma PaceStep(cfg: Config, s: System, step: Step, j: nat, l: nat)
    requires Inv(cfg, s) && Enabled(s, step) && !cfg.asWritten
    requires j < |s.cpus| && !Committed(s.cpus[j]) && l < MAX_PRIO && s.ready.levels[l] != []
    ensures var t := Apply(cfg, s, step);
      && |t.bar.devs| == |t.cpus| + 1 && |t.cpus| == |s.cpus| && !Committed(t.cpus[j])
      && Pace(cfg, t, j) <= Pace(cfg, s, j) + Quanta(Quantum(cfg), Gets(StepOps(cfg, s, step)))
  {
    CpuPaceFacts(cfg, s, j);
    hide Inv, CpuFine, Committed, Act, CpuApply, Enabled, StepOps, Gets, Quanta;
    StepGets(cfg, s, step);
    if step == CpuStep(j) {
      WorkIsDispatched(cfg, s.ready, l);
      CpuPace(cfg, s, j);
    } else {
      OthersPace(cfg, s, step, j);
    }
    QuantaOf(Quantum(cfg), Gets(StepOps(cfg, s, step)));
  }

  lemma GetsJoin(first: seq<Op>, rest: seq<Op>)
    requires |first| <= 1
    ensures Gets(first + rest) == Gets(first) + Gets(rest)
  {
    if first == [] { assert first + rest == rest; } else { assert (first + rest)[1..] == rest; }
  }

  /** What is taken first moves the process up; the rest is taken from there. */
  lemma TakenJoin(ready: Mlq.State, first: seq<Op>, rest: seq<Op>, l: nat, k: nat) returns (k': nat)
    requires Mlq.Valid(ready) && ValidOps(first) && ValidOps(rest) && |first| <= 1 && ValidOps(first + rest)
    requires l < MAX_PRIO && k < |ready.levels[l]| && |TakenFrom(ready, first + rest, l)| <= k
    ensures var next := if first == [] then ready else Mlq.Step(ready, first[0]);
      k' < |next.levels[l]| && |TakenFrom(next, rest, l)| <= k'
  {
    if first == [] {
      assert first + rest == rest;
      k' := k;
    } else {
      assert (first + rest)[1..] == rest && (first + rest)[0] == first[0];
      LevelStep(ready, first[0], l);
      k' := k - |Taken(ready, first[0], l)|;
      assert |Mlq.Step(ready, first[0]).levels[l]| + |Taken(ready, first[0], l)|
          == |ready.levels[l]| + |Added(first[0], l)|;
    }
  }

  /** As long as the process at index k of level l waits, CPU j keeps calling get_proc. */
  lemma {:induction false} PaceRun(cfg: Config, s: System, steps: seq<Step>, j: nat, l: nat, k: nat)
    requires Inv(cfg, s) && !cfg.asWritten && IsRun(cfg, s, steps)
    requires j < |s.cpus| && !Committed(s.cpus[j]) && l < MAX_PRIO && k < |s.ready.levels[l]|
    requires ValidOps(OpsOf(cfg, s, steps)) && |TakenFrom(s.ready, OpsOf(cfg, s, steps), l)| <= k
    ensures var t := End(cfg, s, steps);
      && Inv(cfg, t) && |t.cpus| == |s.cpus| && !Committed(t.cpus[j])
      && Pace(cfg, t, j) <= Pace(cfg, s, j) + Quanta(Quantum(cfg), Gets(OpsOf(cfg, s, steps)))
    decreases |steps|
  {
    hide Inv, Wf, Enabled, Apply, Committed, Pace, StepOps, Mlq.Valid, Mlq.Step, TakenFrom, Gets, ValidOps, Quanta;
    CpuPaceFacts(cfg, s, j);
    QueuesValid(cfg, s);
    if steps == [] {
      NoGets();
      QuantaOf(Quantum(cfg), 0);
    } else {
      var step, next := steps[0], Apply(cfg, s, steps[0]);
      StepInv(cfg, s, step);
      PaceStep(cfg, s, step, j, l);
      CpuPaceFacts(cfg, next, j);
      var first, rest := StepOps(cfg, s, step), OpsOf(cfg, next, steps[1..]);
      RunExtendsOps(cfg, next, steps[1..]);
      StepRecordsOps(cfg, s, step);
      GetsJoin(first, rest);
      var k' := TakenJoin(s.ready, first, rest, l, k);
      PaceRun(cfg, next, steps[1..], j, l, k');
      Spread(Quantum(cfg), Gets(first), Gets(rest));
    }
  }

  lemma NoGets()
    ensures Gets([]) == 0
  {
  }

  lemma Spread(a: nat, b: nat, c: nat)
    ensures Quanta(a, b + c) == Quanta(a, b) + Quanta(a, c)
  {
  }

  lemma MoreQuanta(quantum: nat, m: nat, n: nat)
    ensures m < n ==> Quanta(quantum, m) + quantum <= Quanta(quantum, n)
  {
    if m < n { MulAtLeast(quantum, n, m + 1); }
  }

  lemma SlotsFollowClock(cfg: Config, s: System, j: nat)
    requires Inv(cfg, s) && j < |s.cpus| && s.cpus[j].pc != Stopped
    ensures |s.bar.devs| == |s.cpus| + 1 && s.bar.time <= s.bar.devs[j + 1].slots <= s.bar.time + 1
  {
    assert B.DeviceInv(s.bar, j + 1) && CpuLinked(s.bar.devs[j + 1], s.cpus[j].pc);
  }

  lemma SomeCpuLooks(cfg: Config, s: System, l: nat) returns (j: nat)
    requires Inv(cfg, s) && !cfg.asWritten && cfg.cpus > 0 && AllAdded(cfg, s)
    requires l < MAX_PRIO && s.ready.levels[l] != []
    ensures j < |s.cpus| && !Committed(s.cpus[j]) && s.cpus[j].pc != Stopped
  {
    assert !AllEmpty(s.ready);
    j :| 0 <= j < |s.cpus| && !Committed(s.cpus[j]);
  }

  lemma CommittedIfStopped(c: Cpu)
    ensures c.pc == Stopped ==> Committed(c)
  {
  }

  /** Bounded waiting in slots: after the last add, the process at index k of level l has been
      dispatched, as the k-th taken from its level, once the clock has advanced by
      WaitBound(l, k) quanta and 3 slots, on every schedule. */
  lemma WaitingIsBoundedInSlots(cfg: Config, s: System, steps: seq<Step>, l: nat, k: nat)
    requires Inv(cfg, s) && !cfg.asWritten && cfg.cpus > 0 && AllAdded(cfg, s)
    requires IsRun(cfg, s, steps) && l < MAX_PRIO && k < |s.ready.levels[l]|
    requires End(cfg, s, steps).bar.time >= s.bar.time + Quanta(Quantum(cfg), WaitBound(l, k)) + 3
    ensures ValidOps(OpsOf(cfg, s, steps))
    ensures var more := OpsOf(cfg, s, steps);
      |TakenFrom(s.ready, more, l)| > k && TakenFrom(s.ready, more, l)[k] == s.ready.levels[l][k]
  {
    hide Inv, Wf, IsRun, OpsOf, End, Committed, TakenFrom, Gets, WaitBound, AllAdded, Quanta, Mlq.Valid, ValidOps;
    var j := SomeCpuLooks(cfg, s, l);
    CpuPaceFacts(cfg, s, j);
    QueuesValid(cfg, s);
    var more, t := OpsOf(cfg, s, steps), End(cfg, s, steps);
    RunExtendsOps(cfg, s, steps);
    if |TakenFrom(s.ready, more, l)| <= k {
      PaceRun(cfg, s, steps, j, l, k);
      CommittedIfStopped(t.cpus[j]);
      SlotsFollowClock(cfg, s, j);
      SlotsFollowClock(cfg, t, j);
      SlotsToGetBounds(cfg, s, j);
      SlotsToGetBounds(cfg, t, j);
      MoreQuanta(Quantum(cfg), Gets(more), WaitBound(l, k));
      WaitingIsBounded(cfg, s, steps, l, k);
    }
    TakenInOrder(s.ready, more, l, k);
  }
}
