/** os.c: the CPU threads, the loader thread and the timer as one transition system.

    A step is one lock region, one shared read or write, or one move of the barrier; any
    step of any thread may come next. Devices are numbered as in dev_list, which attach_event
    fills from the front: the loader is device 0 and CPU j of this model is device j + 1.
    Fields marked (history) are read by no step; they only record what happened. */
module Os {
  import opened Options
  import opened Mlq
  import B = Barrier

  datatype ProcSpec = ProcSpec(start: nat, prio: nat, size: nat)

  /** `asWritten` selects the dispatch scan of sched.c's text instead of the meant one. */
  datatype Config = Config(timeSlot: int, cpus: nat, procs: seq<ProcSpec>, asWritten: bool)

  predicate ValidConfig(cfg: Config) {
    forall p :: 0 <= p < |cfg.procs| ==> cfg.procs[p].prio < MAX_PRIO
  }

  /** cpu_routine: at the loop head; before the get_proc that follows free or put_proc; at
      the recheck; before next_slot; before detach_event; past it. */
  datatype CpuPc = Head | Fetch | Check | Enter | Leave | Stopped

  datatype Cpu = Cpu(
    pc: CpuPc, proc: Option<Pid>, timeLeft: int,
    ran: nat,      // (history) calls of run since the last dispatch
    base: nat,     // (history) the process's program counter at its last dispatch
    since: nat,    // (history) the slots it had ended at its last dispatch
    instrs: nat)   // (history) instructions executed

  /** ld_routine: at the tests of its two loops; before add_proc; before next_slot; before
      detach_event; past it. */
  datatype LoaderPc = Look | Adding | Entering | Leaving | Finished

  datatype Loader = Loader(pc: LoaderPc, i: nat)

  datatype Place = NotYet | Queued | Running(cpu: nat) | Freed

  datatype Proc = Proc(
    pc: nat,
    place: Place,    // (history) who owns the pcb
    log: seq<nat>)   // (history) the instructions executed, in order

  datatype System = System(
    bar: B.State, ready: Mlq.State, done: bool, cpus: seq<Cpu>, loader: Loader, procs: seq<Proc>,
    addedAt: seq<nat>,   // (history) the slot in which process i was added
    ops: seq<Op>)        // (history) the critical sections under queue_lock, in order

  datatype Step = Inner(m: B.Move) | CpuStep(j: nat) | LoaderStep

  function Init(cfg: Config): (r: System) {
    System(B.Init(cfg.cpus + 1), Mlq.Init(), false,
          seq(cfg.cpus, _ => Cpu(Head, None, 0, 0, 0, 0, 0)), Loader(Look, 0),
          seq(|cfg.procs|, _ => Proc(0, NotYet, [])), [], [])
  }

  /** What keeps every step defined. */
  ghost predicate Wf(cfg: Config, s: System) {
    && ValidConfig(cfg)
    && |s.cpus| == cfg.cpus && |s.bar.devs| == cfg.cpus + 1
    && |s.procs| == |cfg.procs| && s.loader.i <= |cfg.procs|
    && (s.loader.pc == Adding ==> s.loader.i < |cfg.procs|)
    && Mlq.Valid(s.ready)
    && PidsKnown(cfg, s.ready)
    && (forall j :: 0 <= j < |s.cpus| && s.cpus[j].proc.Some? ==> s.cpus[j].proc.value < |cfg.procs|)
  }

  predicate Enabled(s: System, step: Step) {
    match step
    case Inner(m) => !m.Post? && !m.Detach? && B.Enabled(s.bar, m)
    case CpuStep(j) => j < |s.cpus| && s.cpus[j].pc != Stopped && B.Enabled(s.bar, B.Post(j + 1))
    case LoaderStep => s.loader.pc != Finished && B.Enabled(s.bar, B.Post(0))
  }

  function SetCpu(s: System, j: nat, c: Cpu): (r: System)
    requires j < |s.cpus|
  {
    s.(cpus := s.cpus[j := c])
  }

  function SetProc(s: System, p: Pid, proc: Proc): (r: System)
    requires p < |s.procs|
  {
    s.(procs := s.procs[p := proc])
  }

  function Dispatch(cfg: Config, ready: Mlq.State): (r: (Option<Pid>, Mlq.State))
    requires Mlq.Valid(ready)
  {
    if cfg.asWritten then GetAsWritten(ready) else Get(ready)
  }

  /** proc = get_proc(); a failed first load goes straight to next_slot. */
  function CpuGet(cfg: Config, s: System, j: nat): (r: System)
    requires Wf(cfg, s) && j < |s.cpus|
  {
    var (r, ready) := Dispatch(cfg, s.ready);
    var t := s.(ready := ready, ops := s.ops + [GetOp]);
    match r
    case None =>
      SetCpu(t, j, s.cpus[j].(proc := None, pc := if s.cpus[j].pc == Head then Enter else Check))
    case Some(p) =>
      DispatchedIsKnown(cfg, s);
      var c := s.cpus[j].(proc := r, pc := Check, ran := 0, base := s.procs[p].pc, since := s.bar.devs[j + 1].slots);
      SetProc(SetCpu(t, j, c), p, s.procs[p].(place := Running(j)))
  }

  lemma DispatchedIsKnown(cfg: Config, s: System)
    requires Wf(cfg, s) && Dispatch(cfg, s.ready).0.Some?
    ensures Dispatch(cfg, s.ready).0.value < |s.procs|
  {
    GetIsWorkConserving(s.ready);
  }

  /** free(proc); the pcb is not touched again by this CPU. */
  function CpuFree(cfg: Config, s: System, j: nat, p: Pid): (r: System)
    requires Wf(cfg, s) && j < |s.cpus| && p < |s.procs|
  {
    SetProc(SetCpu(s, j, s.cpus[j].(pc := Fetch, proc := None, timeLeft := 0)),
            p, s.procs[p].(place := Freed))
  }

  /** put_proc(proc). */
  function CpuPut(cfg: Config, s: System, j: nat, p: Pid): (r: System)
    requires Wf(cfg, s) && j < |s.cpus| && p < |s.procs|
  {
    var prio := cfg.procs[p].prio;
    SetProc(SetCpu(s, j, s.cpus[j].(pc := Fetch, proc := None)), p, s.procs[p].(place := Queued))
      .(ready := Put(s.ready, p, prio), ops := s.ops + [PutOp(p, prio)])
  }

  /** The dispatch of a full quantum if none is left, then run(proc) and time_left--.
      run executes nothing once the program counter is at the end. */
  function CpuRun(cfg: Config, s: System, j: nat, p: Pid): (r: System)
    requires Wf(cfg, s) && j < |s.cpus| && p < |s.procs|
  {
    var c, proc := s.cpus[j], s.procs[p];
    var runs := proc.pc < cfg.procs[p].size;
    var c' := c.(pc := Enter, ran := c.ran + 1, instrs := c.instrs + if runs then 1 else 0,
                 timeLeft := (if c.timeLeft == 0 then cfg.timeSlot else c.timeLeft) - 1);
    SetProc(SetCpu(s, j, c'), p, if runs then proc.(pc := proc.pc + 1, log := proc.log + [proc.pc]) else proc)
  }

  /** What cpu_routine does next. */
  datatype Action = DoGet | DoFree(p: Pid) | DoPut(p: Pid) | DoRun(p: Pid) | DoGoto(pc: CpuPc) | DoPost | DoDetach

  function Act(cfg: Config, s: System, j: nat): (r: Action)
    requires Wf(cfg, s) && j < |s.cpus|
  {
    var c := s.cpus[j];
    match c.pc
    case Head =>
      if c.proc == None then DoGet
      else
        var p := c.proc.value;
        if s.procs[p].pc == cfg.procs[p].size then DoFree(p)
        else if c.timeLeft == 0 then DoPut(p)
        else DoGoto(Check)
    case Fetch => DoGet
    case Check =>
      if c.proc == None then DoGoto(if s.done then Leave else Enter) else DoRun(c.proc.value)
    case Enter => DoPost
    case Leave => DoDetach
    case Stopped => DoGoto(Stopped)
  }

  /** One step of cpu_routine. */
  function CpuApply(cfg: Config, s: System, j: nat): (r: System)
    requires Wf(cfg, s) && Enabled(s, CpuStep(j))
  {
    match Act(cfg, s, j)
    case DoGet => CpuGet(cfg, s, j)
    case DoFree(p) => CpuFree(cfg, s, j, p)
    case DoPut(p) => CpuPut(cfg, s, j, p)
    case DoRun(p) => CpuRun(cfg, s, j, p)
    case DoGoto(pc) => SetCpu(s, j, s.cpus[j].(pc := pc))
    case DoPost => SetCpu(s, j, s.cpus[j].(pc := Head)).(bar := B.Apply(s.bar, B.Post(j + 1)))
    case DoDetach => SetCpu(s, j, s.cpus[j].(pc := Stopped)).(bar := B.Apply(s.bar, B.Detach(j + 1)))
  }

  /** add_proc(proc), i++. */
  function LoaderAdd(cfg: Config, s: System): (r: System)
    requires Wf(cfg, s) && s.loader.i < |cfg.procs|
  {
    var p := s.loader.i;
    var prio := cfg.procs[p].prio;
    SetProc(s, p, s.procs[p].(place := Queued))
      .(loader := Loader(Entering, p + 1), addedAt := s.addedAt + [s.bar.time],
        ready := Put(s.ready, p, prio), ops := s.ops + [PutOp(p, prio)])
  }

  /** One step of ld_routine. */
  function LoaderApply(cfg: Config, s: System): (r: System)
    requires Wf(cfg, s) && Enabled(s, LoaderStep)
  {
    var i := s.loader.i;
    match s.loader.pc
    case Look =>
      if i == |cfg.procs| then s.(done := true, loader := Loader(Leaving, i))
      else s.(loader := Loader(if s.bar.time < cfg.procs[i].start then Entering else Adding, i))
    case Adding => LoaderAdd(cfg, s)
    case Entering => s.(loader := Loader(Look, i), bar := B.Apply(s.bar, B.Post(0)))
    case Leaving => s.(loader := Loader(Finished, i), bar := B.Apply(s.bar, B.Detach(0)))
    case Finished => s
  }

  function Apply(cfg: Config, s: System, step: Step): (r: System)
    requires Wf(cfg, s) && Enabled(s, step)
  {
    match step
    case Inner(m) => s.(bar := B.Apply(s.bar, m))
    case CpuStep(j) => CpuApply(cfg, s, j)
    case LoaderStep => LoaderApply(cfg, s)
  }

  lemma InitWf(cfg: Config)
    requires ValidConfig(cfg)
    ensures Wf(cfg, Init(cfg))
  {
  }

  /** get_proc either finds nothing and changes nothing, or pops the front of one level. */
  lemma DispatchEffect(cfg: Config, ready: Mlq.State)
    requires Mlq.Valid(ready)
    ensures var (r, next) := Dispatch(cfg, ready);
      && Mlq.Valid(next)
      && (r == None ==> next == ready)
      && (r == None && !cfg.asWritten ==> AllEmpty(ready))
      && (r.Some? ==>
            var l := Choice(ready);
            && l < MAX_PRIO && ready.levels[l] != [] && r.value == ready.levels[l][0]
            && next.levels == ready.levels[l := ready.levels[l][1..]])
  {
    GetIsWorkConserving(ready);
  }

  ghost predicate PidsKnown(cfg: Config, ready: Mlq.State)
    requires Mlq.Valid(ready)
  {
    forall l, k :: 0 <= l < MAX_PRIO && 0 <= k < |ready.levels[l]| ==> ready.levels[l][k] < |cfg.procs|
  }

  lemma DispatchKeepsPids(cfg: Config, ready: Mlq.State)
    requires Mlq.Valid(ready) && PidsKnown(cfg, ready)
    ensures Mlq.Valid(Dispatch(cfg, ready).1) && PidsKnown(cfg, Dispatch(cfg, ready).1)
  {
    var (r, next) := Dispatch(cfg, ready);
    DispatchEffect(cfg, ready);
    if r.Some? {
      var l := Choice(ready);
      assert forall k :: 0 <= k < |next.levels[l]| ==> next.levels[l][k] == ready.levels[l][k + 1];
    }
  }

  lemma PutKeepsPids(cfg: Config, ready: Mlq.State, p: Pid, prio: nat)
    requires Mlq.Valid(ready) && PidsKnown(cfg, ready) && p < |cfg.procs| && prio < MAX_PRIO
    ensures PidsKnown(cfg, Put(ready, p, prio))
  {
  }

  lemma ApplyWf(cfg: Config, s: System, step: Step)
    requires Wf(cfg, s) && Enabled(s, step)
    ensures Wf(cfg, Apply(cfg, s, step))
  {
    match step
    case Inner(m) => B.GoneStaysGone(s.bar, m);
    case CpuStep(j) => CpuWf(cfg, s, j);
    case LoaderStep =>
      if s.loader.pc == Adding { PutKeepsPids(cfg, s.ready, s.loader.i, cfg.procs[s.loader.i].prio); }
  }

  lemma CpuWf(cfg: Config, s: System, j: nat)
    requires Wf(cfg, s) && Enabled(s, CpuStep(j))
    ensures Wf(cfg, CpuApply(cfg, s, j))
  {
    match Act(cfg, s, j)
    case DoGet => CpuGetWf(cfg, s, j);
    case DoFree(p) => CpuProcWf(cfg, s, j, p);
    case DoPut(p) => CpuProcWf(cfg, s, j, p);
    case DoRun(p) => CpuProcWf(cfg, s, j, p);
    case _ =>
  }

  lemma CpuProcWf(cfg: Config, s: System, j: nat, p: Pid)
    requires Wf(cfg, s) && j < |s.cpus| && s.cpus[j].proc == Some(p) && p < |s.procs|
    ensures Wf(cfg, CpuFree(cfg, s, j, p)) && Wf(cfg, CpuPut(cfg, s, j, p)) && Wf(cfg, CpuRun(cfg, s, j, p))
  {
    PutKeepsPids(cfg, s.ready, p, cfg.procs[p].prio);
  }

  lemma CpuGetWf(cfg: Config, s: System, j: nat)
    requires Wf(cfg, s) && j < |s.cpus|
    ensures Wf(cfg, CpuGet(cfg, s, j))
  {
    DispatchKeepsPids(cfg, s.ready);
    if Dispatch(cfg, s.ready).0.Some? { DispatchedIsKnown(cfg, s); }
  }

  // ---- Runs ----------------------------------------------------------------------------

  ghost predicate IsRun(cfg: Config, s: System, steps: seq<Step>)
    requires Wf(cfg, s)
    decreases |steps|
  {
    steps == [] || (
      && Enabled(s, steps[0])
      && (ApplyWf(cfg, s, steps[0]); IsRun(cfg, Apply(cfg, s, steps[0]), steps[1..])))
  }

  ghost function End(cfg: Config, s: System, steps: seq<Step>): (t: System)
    requires Wf(cfg, s) && IsRun(cfg, s, steps)
    ensures Wf(cfg, t)
    decreases |steps|
  {
    if steps == [] then s
    else
      ApplyWf(cfg, s, steps[0]);
      End(cfg, Apply(cfg, s, steps[0]), steps[1..])
  }

  ghost predicate Reaches(cfg: Config, s: System, t: System)
    requires Wf(cfg, s)
  {
    exists steps :: IsRun(cfg, s, steps) && End(cfg, s, steps) == t
  }

  /** Some interleaving of the threads leads from the initial state to s. */
  ghost predicate Reachable(cfg: Config, s: System) {
    ValidConfig(cfg) && (InitWf(cfg); Reaches(cfg, Init(cfg), s))
  }
}
