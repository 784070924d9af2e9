/** What every step of every thread keeps. */
module OsInvariant {
  import opened Options
  import opened Arith
  import opened Mlq
  import opened Os

  // ---- Program counters and the barrier ------------------------------------------------

  predicate CpuLinked(dev: B.Device, pc: CpuPc) {
    && (dev.pc == B.Gone <==> pc == Stopped)
    && (dev.pc == B.Testing || dev.pc.Asleep? ==> pc == Head)
  }

  predicate LoaderLinked(dev: B.Device, pc: LoaderPc) {
    && (dev.pc == B.Gone <==> pc == Finished)
    && (dev.pc == B.Testing || dev.pc.Asleep? ==> pc == Look)
  }

  predicate Linked(bar: B.State, cpus: seq<Cpu>, loader: Loader) {
    && B.Inv(bar)
    && |bar.devs| == |cpus| + 1
    && LoaderLinked(bar.devs[0], loader.pc)
    && forall j :: 0 <= j < |cpus| ==> CpuLinked(bar.devs[j + 1], cpus[j].pc)
  }

  /** A move of the barrier itself leaves every thread's program where it is. */
  lemma InnerLinked(bar: B.State, m: B.Move, cpus: seq<Cpu>, loader: Loader)
    requires Linked(bar, cpus, loader) && B.Enabled(bar, m) && !m.Post? && !m.Detach?
    ensures Linked(B.Apply(bar, m), cpus, loader)
  {
    B.MoveInv(bar, m);
    InnerKeepsThreads(bar, m);
    var t := B.Apply(bar, m);
    forall j | 0 <= j < |cpus|
      ensures CpuLinked(t.devs[j + 1], cpus[j].pc)
    {
      assert CpuLinked(bar.devs[j + 1], cpus[j].pc);
    }
  }

  lemma InnerKeepsThreads(bar: B.State, m: B.Move)
    requires B.Enabled(bar, m) && !m.Post? && !m.Detach?
    ensures |B.Apply(bar, m).devs| == |bar.devs|
    ensures forall d :: 0 <= d < |bar.devs| ==>
      var pc, pc' := bar.devs[d].pc, B.Apply(bar, m).devs[d].pc;
      && (pc == B.Gone <==> pc' == B.Gone)
      && (pc == B.Out ==> pc' == B.Out)
  {
  }

  lemma CpuPostLinked(bar: B.State, cpus: seq<Cpu>, loader: Loader, j: nat, c: Cpu)
    requires Linked(bar, cpus, loader) && j < |cpus| && B.Enabled(bar, B.Post(j + 1)) && c.pc == Head
    ensures Linked(B.Apply(bar, B.Post(j + 1)), cpus[j := c], loader)
  {
    B.MoveInv(bar, B.Post(j + 1));
  }

  lemma CpuDetachLinked(bar: B.State, cpus: seq<Cpu>, loader: Loader, j: nat, c: Cpu)
    requires Linked(bar, cpus, loader) && j < |cpus| && B.Enabled(bar, B.Detach(j + 1)) && c.pc == Stopped
    ensures Linked(B.Apply(bar, B.Detach(j + 1)), cpus[j := c], loader)
  {
    B.MoveInv(bar, B.Detach(j + 1));
  }

  lemma LoaderLinkedMoves(bar: B.State, cpus: seq<Cpu>, loader: Loader, l: Loader)
    requires Linked(bar, cpus, loader) && B.Enabled(bar, B.Post(0))
    ensures l.pc == Look ==> Linked(B.Apply(bar, B.Post(0)), cpus, l)
    ensures l.pc == Finished ==> Linked(B.Apply(bar, B.Detach(0)), cpus, l)
    ensures l.pc != Finished ==> Linked(bar, cpus, l)
  {
    B.MoveInv(bar, B.Post(0));
    B.MoveInv(bar, B.Detach(0));
  }

  /** What a step does to the barrier: nothing, or one move of the stepping thread. */
  function MoveOf(s: System, step: Step): (r: Option<B.Move>) {
    match step
    case Inner(m) => Some(m)
    case CpuStep(j) =>
      if j < |s.cpus| && s.cpus[j].pc == Enter then Some(B.Post(j + 1))
      else if j < |s.cpus| && s.cpus[j].pc == Leave then Some(B.Detach(j + 1))
      else None
    case LoaderStep =>
      if s.loader.pc == Entering then Some(B.Post(0))
      else if s.loader.pc == Leaving then Some(B.Detach(0))
      else None
  }

  lemma StepMoves(cfg: Config, s: System, step: Step)
    requires Wf(cfg, s) && Enabled(s, step)
    ensures var m := MoveOf(s, step);
      if m.Some? then B.Enabled(s.bar, m.value) && Apply(cfg, s, step).bar == B.Apply(s.bar, m.value)
      else Apply(cfg, s, step).bar == s.bar
  {
    if step.CpuStep? { CpuStepShape(cfg, s, step.j); }
  }

  lemma LinkedStep(cfg: Config, s: System, step: Step)
    requires Wf(cfg, s) && Enabled(s, step) && Linked(s.bar, s.cpus, s.loader)
    ensures var t := Apply(cfg, s, step); Linked(t.bar, t.cpus, t.loader)
  {
    hide PidsKnown, Mlq.Valid, Dispatch, B.Apply, B.Inv, CpuApply;
    var t := Apply(cfg, s, step);
    match step
    case Inner(m) => InnerLinked(s.bar, m, s.cpus, s.loader);
    case LoaderStep => LoaderLinkedMoves(s.bar, s.cpus, s.loader, t.loader);
    case CpuStep(j) =>
      CpuStepShape(cfg, s, j);
      if s.cpus[j].pc == Enter {
        CpuPostLinked(s.bar, s.cpus, s.loader, j, t.cpus[j]);
      } else if s.cpus[j].pc == Leave {
        CpuDetachLinked(s.bar, s.cpus, s.loader, j, t.cpus[j]);
      }
  }

  /** What a CPU's step can touch. */
  lemma CpuStepShape(cfg: Config, s: System, j: nat)
    requires Wf(cfg, s) && Enabled(s, CpuStep(j))
    ensures var t := CpuApply(cfg, s, j);
      && |t.cpus| == |s.cpus| && t.cpus == s.cpus[j := t.cpus[j]]
      && t.loader == s.loader && t.done == s.done && t.addedAt == s.addedAt
      && (s.cpus[j].pc == Enter ==> t.bar == B.Apply(s.bar, B.Post(j + 1)) && t.cpus[j].pc == Head)
      && (s.cpus[j].pc == Leave ==> t.bar == B.Apply(s.bar, B.Detach(j + 1)) && t.cpus[j].pc == Stopped)
      && (s.cpus[j].pc != Enter && s.cpus[j].pc != Leave ==> t.bar == s.bar && t.cpus[j].pc != Stopped)
  {
    hide PidsKnown, Mlq.Valid, Dispatch, B.Apply, B.Enabled, ValidConfig;
  }

  // ---- Who owns a process --------------------------------------------------------------

  ghost predicate QueueOwns(specs: seq<ProcSpec>, levels: seq<seq<Pid>>, procs: seq<Proc>) {
    && |procs| == |specs| && |levels| == MAX_PRIO
    && (forall p :: 0 <= p < |specs| ==> specs[p].prio < MAX_PRIO)
    && (forall l, k :: 0 <= l < MAX_PRIO && 0 <= k < |levels[l]| ==>
          var p := levels[l][k]; p < |procs| && procs[p].place == Queued && specs[p].prio == l)
    && (forall l :: 0 <= l < MAX_PRIO ==> Distinct(levels[l]))
    && (forall p :: 0 <= p < |procs| && procs[p].place == Queued ==> p in levels[specs[p].prio])
  }

  lemma PutOwned(specs: seq<ProcSpec>, levels: seq<seq<Pid>>, procs: seq<Proc>, p: Pid, proc: Proc)
    requires QueueOwns(specs, levels, procs) && p < |procs|
    requires procs[p].place != Queued && proc.place == Queued
    ensures var l := specs[p].prio; QueueOwns(specs, levels[l := levels[l] + [p]], procs[p := proc])
  {
    var l := specs[p].prio;
    var q := levels[l] + [p];
    assert q[|levels[l]|] == p;
    assert forall x :: x in levels[l] ==> x in q;
  }

  lemma TakeOwned(specs: seq<ProcSpec>, levels: seq<seq<Pid>>, procs: seq<Proc>, l: nat, proc: Proc)
    requires QueueOwns(specs, levels, procs) && l < MAX_PRIO && levels[l] != [] && proc.place != Queued
    ensures levels[l][0] < |procs|
    ensures QueueOwns(specs, levels[l := levels[l][1..]], procs[levels[l][0] := proc])
  {
    var p, tail := levels[l][0], levels[l][1..];
    assert levels[l] == [p] + tail;
    assert Distinct(levels[l]);
    assert forall k :: 0 <= k < |tail| ==> tail[k] == levels[l][k + 1];
    assert Distinct(tail) && p !in tail;
  }

  lemma KeepOwned(specs: seq<ProcSpec>, levels: seq<seq<Pid>>, procs: seq<Proc>, p: Pid, proc: Proc)
    requires QueueOwns(specs, levels, procs) && p < |procs|
    requires procs[p].place != Queued && proc.place != Queued
    ensures QueueOwns(specs, levels, procs[p := proc])
  {
  }

  predicate CpusOwn(cpus: seq<Cpu>, procs: seq<Proc>) {
    && (forall j :: 0 <= j < |cpus| && cpus[j].proc.Some? ==>
          cpus[j].proc.value < |procs| && procs[cpus[j].proc.value].place == Running(j))
    && (forall p :: 0 <= p < |procs| && procs[p].place.Running? ==>
          procs[p].place.cpu < |cpus| && cpus[procs[p].place.cpu].proc == Some(p))
    && (forall j :: 0 <= j < |cpus| && cpus[j].pc in {Fetch, Leave, Stopped} ==> cpus[j].proc == None)
  }

  lemma LoadOwned(cpus: seq<Cpu>, procs: seq<Proc>, j: nat, c: Cpu, p: Pid, proc: Proc)
    requires CpusOwn(cpus, procs) && j < |cpus| && cpus[j].proc == None && p < |procs|
    requires !procs[p].place.Running? && proc.place == Running(j)
    requires c.proc == Some(p) && c.pc !in {Fetch, Leave, Stopped}
    ensures CpusOwn(cpus[j := c], procs[p := proc])
  {
  }

  lemma UnloadOwned(cpus: seq<Cpu>, procs: seq<Proc>, j: nat, c: Cpu, p: Pid, proc: Proc)
    requires CpusOwn(cpus, procs) && j < |cpus| && cpus[j].proc == Some(p) && p < |procs|
    requires !proc.place.Running? && c.proc == None
    ensures CpusOwn(cpus[j := c], procs[p := proc])
  {
  }

  lemma MoveOwned(cpus: seq<Cpu>, procs: seq<Proc>, j: nat, c: Cpu)
    requires CpusOwn(cpus, procs) && j < |cpus| && c.proc == cpus[j].proc
    requires c.pc in {Fetch, Leave, Stopped} ==> c.proc == None
    ensures CpusOwn(cpus[j := c], procs)
  {
  }

  ghost predicate Owned(cfg: Config, s: System) {
    && QueueOwns(cfg.procs, s.ready.levels, s.procs)
    && CpusOwn(s.cpus, s.procs)
    && (forall p :: 0 <= p < |s.procs| ==> (s.procs[p].place == NotYet <==> p >= s.loader.i))
  }

  lemma GetOwned(cfg: Config, s: System, j: nat)
    requires Wf(cfg, s) && Owned(cfg, s) && j < |s.cpus| && s.cpus[j].proc == None
    ensures Owned(cfg, CpuGet(cfg, s, j))
  {
    var t := CpuGet(cfg, s, j);
    DispatchEffect(cfg, s.ready);
    var (r, next) := Dispatch(cfg, s.ready);
    if r.Some? {
      var l, p := Choice(s.ready), r.value;
      assert s.ready.levels[l][0] == p;
      TakeOwned(cfg.procs, s.ready.levels, s.procs, l, t.procs[p]);
      LoadOwned(s.cpus, s.procs, j, t.cpus[j], p, t.procs[p]);
    }
  }

  lemma FreeOwned(cfg: Config, s: System, j: nat, p: Pid)
    requires Wf(cfg, s) && Owned(cfg, s) && j < |s.cpus| && s.cpus[j].proc == Some(p)
    ensures Owned(cfg, CpuFree(cfg, s, j, p))
  {
    hide PidsKnown, QueueOwns;
    assert s.procs[p].place == Running(j);
    var t := CpuFree(cfg, s, j, p);
    KeepOwned(cfg.procs, s.ready.levels, s.procs, p, t.procs[p]);
    UnloadOwned(s.cpus, s.procs, j, t.cpus[j], p, t.procs[p]);
  }

  lemma PutBackOwned(cfg: Config, s: System, j: nat, p: Pid)
    requires Wf(cfg, s) && Owned(cfg, s) && j < |s.cpus| && s.cpus[j].proc == Some(p)
    ensures Owned(cfg, CpuPut(cfg, s, j, p))
  {
    hide PidsKnown, QueueOwns;
    assert s.procs[p].place == Running(j);
    var t := CpuPut(cfg, s, j, p);
    PutOwned(cfg.procs, s.ready.levels, s.procs, p, t.procs[p]);
    UnloadOwned(s.cpus, s.procs, j, t.cpus[j], p, t.procs[p]);
  }

  lemma RunOwned(cfg: Config, s: System, j: nat, p: Pid)
    requires Wf(cfg, s) && Owned(cfg, s) && j < |s.cpus| && s.cpus[j].proc == Some(p)
    requires s.cpus[j].pc == Check
    ensures Owned(cfg, CpuRun(cfg, s, j, p))
  {
    hide PidsKnown, QueueOwns;
    assert s.procs[p].place == Running(j);
    var t := CpuRun(cfg, s, j, p);
    KeepOwned(cfg.procs, s.ready.levels, s.procs, p, t.procs[p]);
  }

  lemma AddOwned(cfg: Config, s: System)
    requires Wf(cfg, s) && Owned(cfg, s) && s.loader.i < |cfg.procs|
    ensures Owned(cfg, LoaderAdd(cfg, s))
  {
    var p := s.loader.i;
    PutOwned(cfg.procs, s.ready.levels, s.procs, p, s.procs[p].(place := Queued));
  }

  lemma CpuOwned(cfg: Config, s: System, j: nat)
    requires Wf(cfg, s) && Enabled(s, CpuStep(j)) && Owned(cfg, s)
    ensures Owned(cfg, CpuApply(cfg, s, j))
  {
    hide QueueOwns, PidsKnown, CpuGet, CpuFree, CpuPut, CpuRun, Mlq.Valid;
    match Act(cfg, s, j)
    case DoGet => GetOwned(cfg, s, j);
    case DoFree(p) => FreeOwned(cfg, s, j, p);
    case DoPut(p) => PutBackOwned(cfg, s, j, p);
    case DoRun(p) => RunOwned(cfg, s, j, p);
    case _ => MoveOwned(s.cpus, s.procs, j, CpuApply(cfg, s, j).cpus[j]);
  }

  lemma OwnedStep(cfg: Config, s: System, step: Step)
    requires Wf(cfg, s) && Enabled(s, step) && Owned(cfg, s)
    ensures Owned(cfg, Apply(cfg, s, step))
  {
    match step
    case Inner(_) =>
    case LoaderStep => if s.loader.pc == Adding { AddOwned(cfg, s); }
    case CpuStep(j) => CpuOwned(cfg, s, j);
  }

  // ---- What a process has executed -----------------------------------------------------

  function Upto(n: nat): (r: seq<nat>) { seq(n, i => i) }

  predicate ProcOk(spec: ProcSpec, proc: Proc) {
    && proc.pc <= spec.size
    && proc.log == Upto(proc.pc)
    && (proc.place == NotYet ==> proc.pc == 0)
    && (proc.place == Freed ==> proc.pc == spec.size)
    && (proc.place == Queued || proc.place == NotYet ==> proc.pc < spec.size || spec.size == 0)
  }

  ghost predicate ProcsOk(specs: seq<ProcSpec>, procs: seq<Proc>) {
    |procs| == |specs| && forall p :: 0 <= p < |procs| ==> ProcOk(specs[p], procs[p])
  }

  /** The one pcb a step writes. */
  function Touched(cfg: Config, s: System, step: Step): (r: Option<Pid>)
    requires Wf(cfg, s) && Enabled(s, step)
  {
    match step
    case Inner(_) => None
    case LoaderStep => if s.loader.pc == Adding then Some(s.loader.i) else None
    case CpuStep(j) =>
      match Act(cfg, s, j)
      case DoGet => Dispatch(cfg, s.ready).0
      case DoFree(p) => Some(p)
      case DoPut(p) => Some(p)
      case DoRun(p) => Some(p)
      case _ => None
  }

  lemma TouchesOne(cfg: Config, s: System, step: Step)
    requires Wf(cfg, s) && Enabled(s, step)
    ensures var (t, touched) := (Apply(cfg, s, step), Touched(cfg, s, step));
      && (touched == None ==> t.procs == s.procs)
      && (touched.Some? ==>
            var p := touched.value;
            p < |s.procs| && |t.procs| == |s.procs| && t.procs == s.procs[p := t.procs[p]])
  {
    if step.CpuStep? && Act(cfg, s, step.j) == DoGet && Dispatch(cfg, s.ready).0.Some? { DispatchedIsKnown(cfg, s); }
  }

  lemma OwnedTouched(cfg: Config, s: System, step: Step, p: Pid)
    requires Wf(cfg, s) && Enabled(s, step) && Owned(cfg, s) && Touched(cfg, s, step) == Some(p) && p < |s.procs|
    ensures step == LoaderStep ==> s.procs[p].place == NotYet
    ensures step.CpuStep? && Act(cfg, s, step.j) != DoGet ==> s.procs[p].place.Running?
  {
  }

  lemma TouchedStaysOk(cfg: Config, s: System, step: Step, p: Pid)
    requires Wf(cfg, s) && Enabled(s, step) && Owned(cfg, s) && p < |s.procs| && ProcOk(cfg.procs[p], s.procs[p])
    requires Touched(cfg, s, step) == Some(p) && |Apply(cfg, s, step).procs| == |s.procs|
    ensures ProcOk(cfg.procs[p], Apply(cfg, s, step).procs[p])
  {
    hide QueueOwns, CpusOwn, Mlq.Valid, PidsKnown, B.Enabled, B.Apply, Dispatch, ValidConfig;
    OwnedTouched(cfg, s, step, p);
    assert Upto(s.procs[p].pc + 1) == Upto(s.procs[p].pc) + [s.procs[p].pc];
  }

  lemma ProcsStep(cfg: Config, s: System, step: Step)
    requires Wf(cfg, s) && Enabled(s, step) && Owned(cfg, s) && ProcsOk(cfg.procs, s.procs)
    ensures ProcsOk(cfg.procs, Apply(cfg, s, step).procs)
  {
    TouchesOne(cfg, s, step);
    if Touched(cfg, s, step).Some? { TouchedStaysOk(cfg, s, step, Touched(cfg, s, step).value); }
  }

  // ---- The quantum ---------------------------------------------------------------------

  /** Instructions executed by `ran` calls of run on a process of this size. */
  function Executed(size: nat, ran: nat): (r: nat) { if size == 0 then 0 else ran }

  predicate CpuOk(timeSlot: int, c: Cpu, slots: nat, spec: ProcSpec, ppc: nat) {
    && (c.proc == None ==> c.timeLeft == 0)
    && c.instrs <= slots + (if c.pc == Enter then 1 else 0)
    && (c.proc.Some? ==>
          && ppc == c.base + Executed(spec.size, c.ran)
          && slots + (if c.pc == Enter then 1 else 0) == c.since + c.ran
          && (c.pc == Head || c.pc == Enter ==>
                c.ran > 0 && c.timeLeft == timeSlot - c.ran && (timeSlot >= 1 ==> c.timeLeft >= 0))
          && (c.pc == Check ==>
                && (if c.ran == 0 then c.timeLeft == 0
                    else c.timeLeft == timeSlot - c.ran != 0 && (timeSlot >= 1 ==> c.timeLeft >= 0))
                && (ppc < spec.size || spec.size == 0)))
  }

  predicate CpuFine(cfg: Config, s: System, j: nat)
    requires j < |s.cpus| && |s.bar.devs| == |s.cpus| + 1
  {
    match s.cpus[j].proc
    case None => CpuOk(cfg.timeSlot, s.cpus[j], s.bar.devs[j + 1].slots, ProcSpec(0, 0, 0), 0)
    case Some(p) =>
      && p < |cfg.procs| && p < |s.procs|
      && CpuOk(cfg.timeSlot, s.cpus[j], s.bar.devs[j + 1].slots, cfg.procs[p], s.procs[p].pc)
  }

  ghost predicate CpusFine(cfg: Config, s: System) {
    && |s.bar.devs| == |s.cpus| + 1
    && forall j :: 0 <= j < |s.cpus| ==> CpuFine(cfg, s, j)
  }

  lemma GetFine(cfg: Config, s: System, j: nat)
    requires Wf(cfg, s) && j < |s.cpus| && CpuFine(cfg, s, j) && s.cpus[j].proc == None && s.cpus[j].pc != Enter
    requires QueueOwns(cfg.procs, s.ready.levels, s.procs) && ProcsOk(cfg.procs, s.procs)
    ensures |CpuGet(cfg, s, j).bar.devs| == |s.bar.devs| && |CpuGet(cfg, s, j).cpus| == |s.cpus|
    ensures CpuFine(cfg, CpuGet(cfg, s, j), j)
  {
    DispatchEffect(cfg, s.ready);
    var r := Dispatch(cfg, s.ready).0;
    if r.Some? {
      assert s.ready.levels[Choice(s.ready)][0] == r.value;
      assert ProcOk(cfg.procs[r.value], s.procs[r.value]);
    }
  }

  lemma FreeOrPutFine(cfg: Config, s: System, j: nat, p: Pid)
    requires Wf(cfg, s) && j < |s.cpus| && CpuFine(cfg, s, j) && s.cpus[j].proc == Some(p) && s.cpus[j].pc == Head
    ensures CpuFine(cfg, CpuFree(cfg, s, j, p), j)
    ensures s.cpus[j].timeLeft == 0 ==> CpuFine(cfg, CpuPut(cfg, s, j, p), j)
  {
  }

  lemma RunFine(cfg: Config, s: System, j: nat, p: Pid)
    requires Wf(cfg, s) && j < |s.cpus| && CpuFine(cfg, s, j) && s.cpus[j].proc == Some(p) && s.cpus[j].pc == Check
    requires p < |s.procs| && ProcOk(cfg.procs[p], s.procs[p])
    ensures CpuFine(cfg, CpuRun(cfg, s, j, p), j)
  {
  }

  lemma GotoFine(cfg: Config, s: System, j: nat, pc: CpuPc)
    requires Wf(cfg, s) && j < |s.cpus| && CpuFine(cfg, s, j) && s.cpus[j].pc !in {Enter, Leave}
    requires s.cpus[j].proc.Some? ==> s.cpus[j].pc == Head && pc == Check && s.cpus[j].timeLeft != 0
    requires s.cpus[j].proc.Some? ==>
      var p := s.cpus[j].proc.value; s.procs[p].pc < cfg.procs[p].size || cfg.procs[p].size == 0
    ensures CpuFine(cfg, SetCpu(s, j, s.cpus[j].(pc := pc)), j)
  {
  }

  lemma PostFine(cfg: Config, s: System, j: nat)
    requires Wf(cfg, s) && Enabled(s, CpuStep(j)) && CpuFine(cfg, s, j)
    requires s.cpus[j].pc == Enter || (s.cpus[j].pc == Leave && s.cpus[j].proc == None)
    ensures |CpuApply(cfg, s, j).bar.devs| == |s.bar.devs| && |CpuApply(cfg, s, j).cpus| == |s.cpus|
    ensures CpuFine(cfg, CpuApply(cfg, s, j), j)
  {
    hide PidsKnown, Mlq.Valid, Dispatch, B.Apply, CpuGet, CpuFree, CpuPut, CpuRun;
    SlotsMove(s.bar, if s.cpus[j].pc == Enter then B.Post(j + 1) else B.Detach(j + 1), j + 1);
  }

  lemma ActFine(cfg: Config, s: System, j: nat)
    requires Wf(cfg, s) && Enabled(s, CpuStep(j)) && CpuFine(cfg, s, j)
    requires Owned(cfg, s) && ProcsOk(cfg.procs, s.procs)
    ensures |CpuApply(cfg, s, j).bar.devs| == |s.bar.devs| && |CpuApply(cfg, s, j).cpus| == |s.cpus|
    ensures CpuFine(cfg, CpuApply(cfg, s, j), j)
  {
    hide QueueOwns, CpuOk, CpuGet, PidsKnown;
    match Act(cfg, s, j)
    case DoGet => GetFine(cfg, s, j);
    case DoFree(p) => FreeOrPutFine(cfg, s, j, p);
    case DoPut(p) => FreeOrPutFine(cfg, s, j, p);
    case DoRun(p) => RunFine(cfg, s, j, p);
    case DoGoto(pc) =>
      if s.cpus[j].proc.Some? { assert ProcOk(cfg.procs[s.cpus[j].proc.value], s.procs[s.cpus[j].proc.value]); }
      GotoFine(cfg, s, j, pc);
    case DoPost => PostFine(cfg, s, j);
    case DoDetach => PostFine(cfg, s, j);
  }

  /** Nobody else's step touches CPU j, its slot count or its process's program counter. */
  lemma OthersFine(cfg: Config, s: System, step: Step, j: nat)
    requires Wf(cfg, s) && Enabled(s, step) && j < |s.cpus| && step != CpuStep(j)
    requires CpusOwn(s.cpus, s.procs) && CpuFine(cfg, s, j)
    ensures |Apply(cfg, s, step).bar.devs| == |s.bar.devs| && |Apply(cfg, s, step).cpus| == |s.cpus|
    ensures CpuFine(cfg, Apply(cfg, s, step), j)
  {
    OtherThreads(cfg, s, step, j);
    OtherProcsStay(cfg, s, step);
  }

  lemma SlotsMove(bar: B.State, m: B.Move, d: nat)
    requires B.Enabled(bar, m) && d < |bar.devs|
    ensures |B.Apply(bar, m).devs| == |bar.devs|
    ensures B.Apply(bar, m).devs[d].slots == bar.devs[d].slots + if m == B.Post(d) then 1 else 0
  {
  }

  lemma OtherThreads(cfg: Config, s: System, step: Step, j: nat)
    requires Wf(cfg, s) && Enabled(s, step) && j < |s.cpus| && step != CpuStep(j)
    ensures var t := Apply(cfg, s, step);
      && |t.bar.devs| == |s.bar.devs| && |t.cpus| == |s.cpus|
      && t.cpus[j] == s.cpus[j] && t.bar.devs[j + 1].slots == s.bar.devs[j + 1].slots
  {
    var m := MoveOf(s, step);
    StepMoves(cfg, s, step);
    if m.Some? { SlotsMove(s.bar, m.value, j + 1); }
    if step.CpuStep? { CpuStepShape(cfg, s, step.j); }
  }

  lemma OtherProcsStay(cfg: Config, s: System, step: Step)
    requires Wf(cfg, s) && Enabled(s, step)
    ensures |Apply(cfg, s, step).procs| == |s.procs|
    ensures forall p :: 0 <= p < |s.procs| && (step.CpuStep? ==> s.cpus[step.j].proc != Some(p)) ==>
      Apply(cfg, s, step).procs[p].pc == s.procs[p].pc
  {
    TouchesOne(cfg, s, step);
    match step
    case Inner(_) =>
    case LoaderStep =>
    case CpuStep(j) =>
      hide PidsKnown, Mlq.Valid, Dispatch;
  }

  lemma CpusFineStep(cfg: Config, s: System, step: Step)
    requires Wf(cfg, s) && Enabled(s, step) && Owned(cfg, s) && ProcsOk(cfg.procs, s.procs) && CpusFine(cfg, s)
    ensures CpusFine(cfg, Apply(cfg, s, step))
  {
    var t := Apply(cfg, s, step);
    ApplyWf(cfg, s, step);
    forall j | 0 <= j < |t.cpus|
      ensures CpuFine(cfg, t, j)
    {
      if step == CpuStep(j) { ActFine(cfg, s, j); } else { OthersFine(cfg, s, step, j); }
    }
  }

  // ---- Arrivals and shutdown -----------------------------------------------------------

  function Max(a: int, b: int): (r: int) { if a >= b then a else b }

  /** The first slot in which process i can still be added: one add per slot. */
  function Earliest(specs: seq<ProcSpec>, i: nat): (r: nat)
    requires i <= |specs|
    decreases i, 0
  {
    if i == 0 then 0 else Arrival(specs, i - 1) + 1
  }

  /** The slot in which the loader adds process i. */
  function Arrival(specs: seq<ProcSpec>, i: nat): (r: nat)
    requires i < |specs|
    decreases i, 1
  {
    Max(specs[i].start, Earliest(specs, i))
  }

  /** The last slot in which the loader can still look at process i: it adds it then, or it has
      added all and raises `done`. */
  function Latest(specs: seq<ProcSpec>, i: nat): (r: nat)
    requires i <= |specs|
  {
    if i < |specs| then Arrival(specs, i) else Earliest(specs, i)
  }

  ghost predicate LoaderOk(specs: seq<ProcSpec>, l: Loader, slots: nat, addedAt: seq<nat>, done: bool) {
    && l.i <= |specs| && |addedAt| == l.i
    && (forall p :: 0 <= p < l.i ==> addedAt[p] == Arrival(specs, p))
    && (done <==> l.pc in {Leaving, Finished})
    && match l.pc {
         case Look => Earliest(specs, l.i) <= slots <= Latest(specs, l.i)
         case Adding => l.i < |specs| && slots == Arrival(specs, l.i)
         case Entering => Earliest(specs, l.i) <= slots + 1 <= Latest(specs, l.i)
         case Leaving => l.i == |specs| && Earliest(specs, l.i) <= slots
         case Finished => l.i == |specs| && Earliest(specs, l.i) <= slots
       }
  }

  ghost predicate LoaderFine(cfg: Config, s: System) {
    |s.bar.devs| > 0 && LoaderOk(cfg.procs, s.loader, s.bar.devs[0].slots, s.addedAt, s.done)
  }

  lemma LoaderFineStep(cfg: Config, s: System, step: Step)
    requires Wf(cfg, s) && Enabled(s, step) && Linked(s.bar, s.cpus, s.loader) && LoaderFine(cfg, s)
    ensures LoaderFine(cfg, Apply(cfg, s, step))
  {
    var m := MoveOf(s, step);
    StepMoves(cfg, s, step);
    if m.Some? { SlotsMove(s.bar, m.value, 0); }
    match step
    case Inner(_) =>
    case CpuStep(j) => CpuStepShape(cfg, s, j);
    case LoaderStep =>
      assert B.DeviceInv(s.bar, 0);
      LoaderMoves(cfg, s);
  }

  /** The loader reads a clock that equals its own slot count. */
  lemma LoaderMoves(cfg: Config, s: System)
    requires Wf(cfg, s) && Enabled(s, LoaderStep) && LoaderFine(cfg, s) && s.bar.devs[0].slots == s.bar.time
    ensures LoaderFine(cfg, LoaderApply(cfg, s))
  {
  }

  /** The last add lies in an earlier slot. */
  ghost predicate AllAdded(cfg: Config, s: System)
    requires s.loader.i <= |cfg.procs|
  {
    s.loader.i == |cfg.procs| && s.bar.time >= Earliest(cfg.procs, |cfg.procs|)
  }

  /** A CPU that found no process and will stop if `done` is up. */
  predicate Committed(c: Cpu) {
    c.pc in {Leave, Stopped} || (c.pc == Check && c.proc == None)
  }

  lemma DoneMeansAllAdded(cfg: Config, s: System)
    requires Linked(s.bar, s.cpus, s.loader) && LoaderFine(cfg, s) && s.done
    ensures AllAdded(cfg, s)
  {
    assert B.DeviceInv(s.bar, 0);
  }

  ghost predicate StopsAfterDone(s: System) {
    forall j :: 0 <= j < |s.cpus| && s.cpus[j].pc in {Leave, Stopped} ==> s.done
  }

  lemma StopsAfterDoneStep(cfg: Config, s: System, step: Step)
    requires Wf(cfg, s) && Enabled(s, step) && StopsAfterDone(s)
    ensures StopsAfterDone(Apply(cfg, s, step))
  {
    if step.CpuStep? { CpuStepShape(cfg, s, step.j); }
  }

  /** Once everything was added, waiting work has a CPU that will look for it again. */
  ghost predicate WorkIsSeen(cfg: Config, s: System)
    requires Wf(cfg, s)
  {
    !cfg.asWritten && cfg.cpus > 0 && AllAdded(cfg, s) && !AllEmpty(s.ready) ==>
      exists j :: 0 <= j < |s.cpus| && !Committed(s.cpus[j])
  }

  /** The tick that ends the slot of the last add finds every CPU inside next_slot. */
  lemma TickSeesWork(cfg: Config, s: System, m: B.Move)
    requires Wf(cfg, s) && Enabled(s, Inner(m)) && Linked(s.bar, s.cpus, s.loader) && LoaderFine(cfg, s)
    requires StopsAfterDone(s) && WorkIsSeen(cfg, s)
    ensures Wf(cfg, Apply(cfg, s, Inner(m))) && WorkIsSeen(cfg, Apply(cfg, s, Inner(m)))
  {
    var t := Apply(cfg, s, Inner(m));
    ApplyWf(cfg, s, Inner(m));
    if cfg.cpus > 0 && AllAdded(cfg, t) && !AllAdded(cfg, s) {
      if s.done { DoneMeansAllAdded(cfg, s); }
      assert s.cpus[0].pc !in {Leave, Stopped};
      assert CpuLinked(s.bar.devs[1], s.cpus[0].pc);
      assert B.DeviceInv(s.bar, 1);
      assert s.cpus[0].pc == Head;
      assert !Committed(t.cpus[0]);
    }
  }

  lemma CpuSeesWork(cfg: Config, s: System, j: nat)
    requires Wf(cfg, s) && Enabled(s, CpuStep(j)) && WorkIsSeen(cfg, s)
    ensures Wf(cfg, CpuApply(cfg, s, j)) && WorkIsSeen(cfg, CpuApply(cfg, s, j))
  {
    var t := CpuApply(cfg, s, j);
    CpuWf(cfg, s, j);
    CpuStepShape(cfg, s, j);
    if !Committed(t.cpus[j]) {
    } else if Act(cfg, s, j) == DoGet {
      DispatchEffect(cfg, s.ready);
    } else {
      assert t.ready == s.ready && Committed(s.cpus[j]);
      CommittedSeesWork(cfg, s, t, j);
    }
  }

  lemma CommittedSeesWork(cfg: Config, s: System, t: System, j: nat)
    requires Wf(cfg, s) && Wf(cfg, t) && WorkIsSeen(cfg, s) && j < |s.cpus|
    requires t.cpus == s.cpus[j := t.cpus[j]] && t.ready == s.ready && t.loader == s.loader && t.bar.time == s.bar.time
    requires Committed(s.cpus[j])
    ensures WorkIsSeen(cfg, t)
  {
    if !cfg.asWritten && cfg.cpus > 0 && AllAdded(cfg, t) && !AllEmpty(t.ready) {
      var k :| 0 <= k < |s.cpus| && !Committed(s.cpus[k]);
      assert !Committed(t.cpus[k]);
    }
  }

  lemma WorkIsSeenStep(cfg: Config, s: System, step: Step)
    requires Wf(cfg, s) && Enabled(s, step) && Linked(s.bar, s.cpus, s.loader) && LoaderFine(cfg, s)
    requires StopsAfterDone(s) && WorkIsSeen(cfg, s)
    ensures Wf(cfg, Apply(cfg, s, step)) && WorkIsSeen(cfg, Apply(cfg, s, step))
  {
    match step
    case Inner(m) => TickSeesWork(cfg, s, m);
    case CpuStep(j) => CpuSeesWork(cfg, s, j);
    case LoaderStep =>
      ApplyWf(cfg, s, step);
      assert B.DeviceInv(s.bar, 0);
      var t := Apply(cfg, s, step);
      if s.loader.pc == Adding {
        assert Earliest(cfg.procs, t.loader.i) == Arrival(cfg.procs, s.loader.i) + 1;
      }
  }

  // ---- Counts and history --------------------------------------------------------------

  ghost function Instrs(cpus: seq<Cpu>): (r: nat) {
    if cpus == [] then 0 else cpus[0].instrs + Instrs(cpus[1..])
  }

  ghost function Pcs(procs: seq<Proc>): (r: nat) {
    if procs == [] then 0 else procs[0].pc + Pcs(procs[1..])
  }

  lemma {:induction false} InstrsUpdate(cpus: seq<Cpu>, j: nat, c: Cpu)
    requires j < |cpus|
    ensures Instrs(cpus[j := c]) == Instrs(cpus) - cpus[j].instrs + c.instrs
  {
    if j == 0 {
      assert cpus[j := c][1..] == cpus[1..];
    } else {
      assert cpus[j := c][1..] == cpus[1..][j - 1 := c];
      InstrsUpdate(cpus[1..], j - 1, c);
    }
  }

  lemma {:induction false} PcsUpdate(procs: seq<Proc>, p: nat, proc: Proc)
    requires p < |procs|
    ensures Pcs(procs[p := proc]) == Pcs(procs) - procs[p].pc + proc.pc
  {
    if p == 0 {
      assert procs[p := proc][1..] == procs[1..];
    } else {
      assert procs[p := proc][1..] == procs[1..][p - 1 := proc];
      PcsUpdate(procs[1..], p - 1, proc);
    }
  }

  ghost predicate Counted(s: System) { Instrs(s.cpus) == Pcs(s.procs) }

  lemma CpuCounts(cfg: Config, s: System, j: nat)
    requires Wf(cfg, s) && Enabled(s, CpuStep(j))
    ensures var (t, touched) := (CpuApply(cfg, s, j), Touched(cfg, s, CpuStep(j)));
      && |t.cpus| == |s.cpus| && |t.procs| == |s.procs|
      && (touched.Some? ==> touched.value < |s.procs|)
      && t.cpus[j].instrs - s.cpus[j].instrs
           == if touched.Some? then t.procs[touched.value].pc - s.procs[touched.value].pc else 0
  {
    if Act(cfg, s, j) == DoGet && Dispatch(cfg, s.ready).0.Some? { DispatchedIsKnown(cfg, s); }
  }

  lemma CountedStep(cfg: Config, s: System, step: Step)
    requires Wf(cfg, s) && Enabled(s, step) && Counted(s)
    ensures Counted(Apply(cfg, s, step))
  {
    var t, touched := Apply(cfg, s, step), Touched(cfg, s, step);
    TouchesOne(cfg, s, step);
    if touched.Some? { PcsUpdate(s.procs, touched.value, t.procs[touched.value]); }
    if step.CpuStep? {
      CpuStepShape(cfg, s, step.j);
      InstrsUpdate(s.cpus, step.j, t.cpus[step.j]);
      CpuCounts(cfg, s, step.j);
    }
  }

  ghost predicate Recorded(cfg: Config, s: System) {
    ValidOps(s.ops) && (!cfg.asWritten ==> s.ready == Run(Mlq.Init(), s.ops))
  }

  lemma RecordedStep(cfg: Config, s: System, step: Step)
    requires Wf(cfg, s) && Enabled(s, step) && Recorded(cfg, s)
    ensures Recorded(cfg, Apply(cfg, s, step))
  {
    var t := Apply(cfg, s, step);
    match step
    case Inner(_) =>
    case LoaderStep =>
      if s.loader.pc == Adding { RunSnoc(Mlq.Init(), s.ops, PutOp(s.loader.i, cfg.procs[s.loader.i].prio)); }
    case CpuStep(j) =>
      match Act(cfg, s, j) {
        case DoGet => RunSnoc(Mlq.Init(), s.ops, GetOp);
        case DoPut(p) => RunSnoc(Mlq.Init(), s.ops, PutOp(p, cfg.procs[p].prio));
        case _ =>
      }
  }

  // ---- All together --------------------------------------------------------------------

  ghost predicate Inv(cfg: Config, s: System) {
    && Wf(cfg, s)
    && Linked(s.bar, s.cpus, s.loader)
    && Owned(cfg, s)
    && ProcsOk(cfg.procs, s.procs)
    && CpusFine(cfg, s)
    && LoaderFine(cfg, s)
    && StopsAfterDone(s)
    && WorkIsSeen(cfg, s)
    && Counted(s)
    && Recorded(cfg, s)
  }

  lemma InvWf(cfg: Config, s: System)
    requires Inv(cfg, s)
    ensures Wf(cfg, s) && |s.procs| == |cfg.procs| && |s.cpus| == cfg.cpus && |s.bar.devs| == cfg.cpus + 1
  {
  }

  lemma BarInv(cfg: Config, s: System)
    requires Inv(cfg, s)
    ensures B.Inv(s.bar)
  {
  }

  lemma InitInv(cfg: Config)
    requires ValidConfig(cfg)
    ensures Inv(cfg, Os.Init(cfg))
  {
    InitWf(cfg);
    InitCounted(cfg);
    assert Earliest(cfg.procs, 0) == 0;
    assert AllEmpty(Mlq.Init());
  }

  lemma InitCounted(cfg: Config)
    ensures Counted(Os.Init(cfg))
  {
    ZeroInstrs(Os.Init(cfg).cpus);
    ZeroPcs(Os.Init(cfg).procs);
  }

  lemma {:induction false} ZeroInstrs(cpus: seq<Cpu>)
    requires forall j :: 0 <= j < |cpus| ==> cpus[j].instrs == 0
    ensures Instrs(cpus) == 0
  {
    if cpus == [] {
    } else {
      ZeroInstrs(cpus[1..]);
    }
  }

  lemma {:induction false} ZeroPcs(procs: seq<Proc>)
    requires forall p :: 0 <= p < |procs| ==> procs[p].pc == 0
    ensures Pcs(procs) == 0
  {
    if procs == [] {
    } else {
      ZeroPcs(procs[1..]);
    }
  }

  lemma StepInv(cfg: Config, s: System, step: Step)
    requires Inv(cfg, s) && Enabled(s, step)
    ensures Inv(cfg, Apply(cfg, s, step))
  {
    ApplyWf(cfg, s, step);
    LinkedStep(cfg, s, step);
    OwnedStep(cfg, s, step);
    ProcsStep(cfg, s, step);
    CpusFineStep(cfg, s, step);
    LoaderFineStep(cfg, s, step);
    StopsAfterDoneStep(cfg, s, step);
    WorkIsSeenStep(cfg, s, step);
    CountedStep(cfg, s, step);
    RecordedStep(cfg, s, step);
  }

  lemma {:induction false} RunInv(cfg: Config, s: System, steps: seq<Step>)
    requires Inv(cfg, s) && IsRun(cfg, s, steps)
    ensures Inv(cfg, End(cfg, s, steps))
    decreases |steps|
  {
    if steps == [] {
    } else {
      StepInv(cfg, s, steps[0]);
      RunInv(cfg, Apply(cfg, s, steps[0]), steps[1..]);
    }
  }

  lemma ReachableInv(cfg: Config, s: System)
    requires Reachable(cfg, s)
    ensures Inv(cfg, s)
  {
    InitInv(cfg);
    var steps :| IsRun(cfg, Os.Init(cfg), steps) && End(cfg, Os.Init(cfg), steps) == s;
    RunInv(cfg, Os.Init(cfg), steps);
  }
}
