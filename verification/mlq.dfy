/** The multi-level ready queue as values: one FIFO of process ids per priority level and
    the slots each level may still spend before the budgets are refilled.

    The two dispatch loops of sched.c start at MAX_PRIO with the guard `prio < 0`, so they
    never run.  `Get` models the scan they were meant to make (0 .. MAX_PRIO-1, level 0
    favoured); `GetAsWritten` models what the text says. */
module Mlq {
  import opened Options
  import opened Arith

  // sched.h shares queue.h's include guard, so sched.c sees the 140 of os-cfg.h.
  const MAX_PRIO: nat := 140

  type Pid = nat

  datatype State = State(levels: seq<seq<Pid>>, budget: seq<int>)

  ghost predicate Valid(s: State) {
    && |s.levels| == |s.budget| == MAX_PRIO
    && forall p :: 0 <= p < MAX_PRIO ==> 0 <= s.budget[p] <= MAX_PRIO - p
  }

  function FullBudgets(): (b: seq<int>)
    ensures |b| == MAX_PRIO && forall p :: 0 <= p < MAX_PRIO ==> b[p] == MAX_PRIO - p
  {
    seq(MAX_PRIO, p => MAX_PRIO - p)
  }

  /** init_scheduler. */
  function Init(): (s: State)
    ensures Valid(s)
  {
    State(seq(MAX_PRIO, _ => []), FullBudgets())
  }

  ghost predicate AllEmpty(s: State)
    requires Valid(s)
  {
    forall p :: 0 <= p < MAX_PRIO ==> s.levels[p] == []
  }

  predicate Ready(s: State, p: nat)
    requires |s.levels| == |s.budget| == MAX_PRIO && p < MAX_PRIO
  {
    s.levels[p] != [] && s.budget[p] > 0
  }

  /** The first level at or after `from` with both work and budget; MAX_PRIO if none. */
  function FirstReady(s: State, from: nat): (p: nat)
    requires |s.levels| == |s.budget| == MAX_PRIO && from <= MAX_PRIO
    ensures from <= p <= MAX_PRIO
    ensures p < MAX_PRIO ==> Ready(s, p)
    ensures forall q :: from <= q < p ==> !Ready(s, q)
    decreases MAX_PRIO - from
  {
    if from == MAX_PRIO || Ready(s, from) then from else FirstReady(s, from + 1)
  }

  /** The first level at or after `from` with work; MAX_PRIO if none. */
  function FirstBusy(s: State, from: nat): (p: nat)
    requires |s.levels| == MAX_PRIO && from <= MAX_PRIO
    ensures from <= p <= MAX_PRIO
    ensures p < MAX_PRIO ==> s.levels[p] != []
    ensures forall q :: from <= q < p ==> s.levels[q] == []
    decreases MAX_PRIO - from
  {
    if from == MAX_PRIO || s.levels[from] != [] then from else FirstBusy(s, from + 1)
  }

  /** Dequeue from level p and charge it one slot. */
  function Take(s: State, p: nat): (r: State)
    requires |s.levels| == |s.budget| == MAX_PRIO && p < MAX_PRIO && s.levels[p] != []
  {
    State(s.levels[p := s.levels[p][1..]], s.budget[p := s.budget[p] - 1])
  }

  /** The level the next `Get` serves (MAX_PRIO when there is no work). */
  function Choice(s: State): (p: nat)
    requires Valid(s)
    ensures p <= MAX_PRIO
  {
    var p := FirstReady(s, 0);
    if p < MAX_PRIO then p else FirstBusy(s, 0)
  }

  /** True when the next `Get` first gives every level its budget back. */
  predicate Refills(s: State)
    requires Valid(s)
  {
    FirstReady(s, 0) == MAX_PRIO && FirstBusy(s, 0) < MAX_PRIO
  }

  /** get_mlq_proc with the meant scan. */
  function Get(s: State): (r: (Option<Pid>, State))
    requires Valid(s)
    ensures Valid(r.1)
  {
    var p := FirstReady(s, 0);
    if p < MAX_PRIO then
      (Some(s.levels[p][0]), Take(s, p))
    else
      var q := FirstBusy(s, 0);
      if q < MAX_PRIO then
        (Some(s.levels[q][0]), Take(s.(budget := FullBudgets()), q))
      else
        (None, s)
  }

  /** get_mlq_proc as written: no loop body that could set `proc` or `non_empty` is reached. */
  function GetAsWritten(s: State): (r: (Option<Pid>, State)) {
    (None, s)
  }

  /** put_mlq_proc and add_mlq_proc. */
  function Put(s: State, pid: Pid, prio: nat): (r: State)
    requires Valid(s) && prio < MAX_PRIO
    ensures Valid(r)
  {
    s.(levels := s.levels[prio := s.levels[prio] + [pid]])
  }

  // ---- One call ------------------------------------------------------------------------

  /** NULL is returned exactly when there is no work, and then nothing changes; otherwise
      exactly one level is served, from its front. */
  lemma GetIsWorkConserving(s: State)
    requires Valid(s)
    ensures Get(s).0 == None <==> AllEmpty(s)
    ensures Get(s).0 == None ==> Get(s).1 == s
    ensures Get(s).0.Some? ==>
      var p := Choice(s);
      && p < MAX_PRIO
      && s.levels[p] == [Get(s).0.value] + Get(s).1.levels[p]
      && Get(s).1.levels == s.levels[p := Get(s).1.levels[p]]
  {
  }

  /** No favoured level with work and budget is skipped; budgets come back only when every
      busy level has spent its own, and then the most favoured busy level is served. */
  lemma GetFavoursLowLevels(s: State)
    requires Valid(s) && Choice(s) < MAX_PRIO
    ensures var p := Choice(s);
      && (forall q :: 0 <= q < p ==> s.levels[q] == [] || s.budget[q] == 0)
      && (Refills(s) ==> forall q :: 0 <= q < MAX_PRIO && s.levels[q] != [] ==> s.budget[q] == 0)
      && (Refills(s) ==> forall q :: 0 <= q < p ==> s.levels[q] == [])
      && (!Refills(s) ==> s.budget[p] > 0 && Get(s).1.budget == s.budget[p := s.budget[p] - 1])
      && (Refills(s) ==> Get(s).1.budget == FullBudgets()[p := MAX_PRIO - p - 1])
  {
    assert forall q :: 0 <= q < MAX_PRIO && !Ready(s, q) ==> s.levels[q] == [] || s.budget[q] == 0;
    assert forall q :: 0 <= q < FirstReady(s, 0) ==> !Ready(s, q);
  }

  /** The scan as written meets the same contract only on an empty queue. */
  lemma GetAsWrittenIsWorkConservingIffEmpty(s: State)
    requires Valid(s)
    ensures GetAsWritten(s) == Get(s) <==> AllEmpty(s)
  {
    GetIsWorkConserving(s);
  }

  // ---- Whole runs ----------------------------------------------------------------------

  datatype Op = GetOp | PutOp(pid: Pid, prio: nat)

  predicate ValidOp(op: Op) { op.PutOp? ==> op.prio < MAX_PRIO }

  ghost predicate ValidOps(ops: seq<Op>) { forall i :: 0 <= i < |ops| ==> ValidOp(ops[i]) }

  function Step(s: State, op: Op): (r: State)
    requires Valid(s) && ValidOp(op)
    ensures Valid(r)
  {
    match op
    case GetOp => Get(s).1
    case PutOp(pid, prio) => Put(s, pid, prio)
  }

  /** Any interleaving of loader and CPUs is one such sequence: queue_lock orders it. */
  ghost function Run(s: State, ops: seq<Op>): (r: State)
    requires Valid(s) && ValidOps(ops)
    ensures Valid(r)
    decreases |ops|
  {
    if ops == [] then s else Run(Step(s, ops[0]), ops[1..])
  }

  /** What one operation takes from level p. */
  function Taken(s: State, op: Op, p: nat): (r: seq<Pid>)
    requires Valid(s) && p < MAX_PRIO
  {
    if op.GetOp? && Choice(s) == p then [s.levels[p][0]] else []
  }

  ghost function TakenFrom(s: State, ops: seq<Op>, p: nat): (r: seq<Pid>)
    requires Valid(s) && ValidOps(ops) && p < MAX_PRIO
    decreases |ops|
  {
    if ops == [] then [] else Taken(s, ops[0], p) + TakenFrom(Step(s, ops[0]), ops[1..], p)
  }

  function Added(op: Op, p: nat): (r: seq<Pid>) {
    if op.PutOp? && op.prio == p then [op.pid] else []
  }

  ghost function AddedTo(ops: seq<Op>, p: nat): (r: seq<Pid>) {
    if ops == [] then [] else Added(ops[0], p) + AddedTo(ops[1..], p)
  }

  ghost function Gets(ops: seq<Op>): (r: nat) {
    if ops == [] then 0 else (if ops[0].GetOp? then 1 else 0) + Gets(ops[1..])
  }

  ghost predicate RefillFree(s: State, ops: seq<Op>)
    requires Valid(s) && ValidOps(ops)
    decreases |ops|
  {
    ops == [] || (!(ops[0].GetOp? && Refills(s)) && RefillFree(Step(s, ops[0]), ops[1..]))
  }

  /** Appending one operation to a run. */
  lemma {:induction false} RunSnoc(s: State, ops: seq<Op>, op: Op)
    requires Valid(s) && ValidOps(ops) && ValidOp(op)
    ensures ValidOps(ops + [op]) && Run(s, ops + [op]) == Step(Run(s, ops), op)
    decreases |ops|
  {
    if ops == [] {
      assert Run(Step(s, op), []) == Step(s, op);
      assert (ops + [op])[1..] == [];
    } else {
      assert (ops + [op])[1..] == ops[1..] + [op];
      RunSnoc(Step(s, ops[0]), ops[1..], op);
    }
  }

  lemma LevelStep(s: State, op: Op, p: nat)
    requires Valid(s) && ValidOp(op) && p < MAX_PRIO
    ensures Taken(s, op, p) + Step(s, op).levels[p] == s.levels[p] + Added(op, p)
  {
    if op.GetOp? {
      GetIsWorkConserving(s);
      if Choice(s) < MAX_PRIO { GetFavoursLowLevels(s); }
    }
  }

  /** First in, first out, and nothing lost or invented: over any run, what left level p
      followed by what is still there is what was there followed by what was added. */
  lemma {:induction false} LevelIsFifo(s: State, ops: seq<Op>, p: nat)
    requires Valid(s) && ValidOps(ops) && p < MAX_PRIO
    ensures TakenFrom(s, ops, p) + Run(s, ops).levels[p] == s.levels[p] + AddedTo(ops, p)
    decreases |ops|
  {
    if ops == [] {
    } else {
      var s', op, rest := Step(s, ops[0]), ops[0], ops[1..];
      LevelIsFifo(s', rest, p);
      LevelStep(s, op, p);
      Shuffle(Taken(s, op, p), TakenFrom(s', rest, p), Run(s', rest).levels[p],
              s'.levels[p], AddedTo(rest, p), s.levels[p], Added(op, p));
    }
  }

  lemma Shuffle(a: seq<Pid>, b: seq<Pid>, c: seq<Pid>, d: seq<Pid>, e: seq<Pid>, f: seq<Pid>, g: seq<Pid>)
    requires b + c == d + e && a + d == f + g
    ensures (a + b) + c == f + (g + e)
  {
    assert (a + b) + c == a + (b + c);
    assert a + (d + e) == (a + d) + e;
    assert (f + g) + e == f + (g + e);
  }

  /** Between refills a level pays one slot of budget for each dispatch, so it is served at
      most MAX_PRIO - p times; if it is still busy when the refill comes, exactly as often
      as its budget allowed. */
  lemma {:induction false} DispatchesBetweenRefills(s: State, ops: seq<Op>, p: nat)
    requires Valid(s) && ValidOps(ops) && p < MAX_PRIO && RefillFree(s, ops)
    ensures |TakenFrom(s, ops, p)| == s.budget[p] - Run(s, ops).budget[p] <= MAX_PRIO - p
    ensures Refills(Run(s, ops)) && Run(s, ops).levels[p] != [] ==> |TakenFrom(s, ops, p)| == s.budget[p]
    decreases |ops|
  {
    if ops == [] {
      if Refills(s) && s.levels[p] != [] { GetFavoursLowLevels(s); }
    } else {
      DispatchesBetweenRefills(Step(s, ops[0]), ops[1..], p);
      if ops[0].GetOp? && Choice(s) < MAX_PRIO { GetFavoursLowLevels(s); }
    }
  }

  /** From init_scheduler on, level p gets exactly MAX_PRIO - p dispatches before a get passes it
      over while it has work: before one serves a less favoured level, or refills. */
  lemma FirstBudgetIsSpent(ops: seq<Op>, p: nat)
    requires ValidOps(ops) && p < MAX_PRIO && RefillFree(Init(), ops)
    ensures Init().levels[p] == [] && Init().budget[p] == MAX_PRIO - p
    ensures var s := Run(Init(), ops);
      && |TakenFrom(Init(), ops, p)| <= MAX_PRIO - p
      && (s.levels[p] != [] && (Refills(s) || Choice(s) > p) ==> |TakenFrom(Init(), ops, p)| == MAX_PRIO - p)
      && (s.levels[p] != [] && |TakenFrom(Init(), ops, p)| < MAX_PRIO - p ==> !Refills(s) && Choice(s) <= p)
  {
    var s := Run(Init(), ops);
    DispatchesBetweenRefills(Init(), ops, p);
    if s.levels[p] != [] && Choice(s) > p {
      GetFavoursLowLevels(s);
    }
  }

  // ---- Bounded waiting -----------------------------------------------------------------

  /** Sum of all budgets after a refill, MAX_PRIO * (MAX_PRIO + 1) / 2. */
  const TOTAL_BUDGET: nat := 9870

  lemma {:induction false} SumOfCountdown(b: seq<int>)
    requires forall i :: 0 <= i < |b| ==> b[i] == |b| - i
    ensures 2 * Sum(b) == |b| * (|b| + 1)
  {
    if b == [] {
    } else {
      SumOfCountdown(b[1..]);
    }
  }

  lemma FullSum()
    ensures Sum(FullBudgets()) == TOTAL_BUDGET == MAX_PRIO * (MAX_PRIO + 1) / 2
  {
    SumOfCountdown(FullBudgets());
  }

  lemma BudgetBounds(s: State)
    requires Valid(s)
    ensures Sum(FullBudgets()) == TOTAL_BUDGET
    ensures 0 <= Sum(s.budget) <= TOTAL_BUDGET
  {
    FullSum();
    SumNonNegative(s.budget);
    SumAtMost(s.budget, FullBudgets());
  }

  /** Budget handed out by the refills a process needs before `need` more dispatches of its
      level, when the level gets `width` of them from each refill. */
  ghost function RefillCost(need: int, width: nat): (r: nat)
    requires width > 0
    decreases if need > 0 then need else 0
  {
    if need <= 0 then 0 else TOTAL_BUDGET + RefillCost(need - width, width)
  }

  lemma {:induction false} RefillCostIsCeiling(need: nat, width: nat)
    requires width > 0
    ensures RefillCost(need, width) == TOTAL_BUDGET * ((need + width - 1) / width)
    decreases need
  {
    if need > width {
      RefillCostIsCeiling(need - width, width);
      DivStep(need - 1, width);
      MulAtLeast(TOTAL_BUDGET, (need + width - 1) / width, (need + width - 1) / width);
    } else if need > 0 {
      assert RefillCost(need - width, width) == 0;
      DivStep(need - 1, width);
      DivSmall(need - 1, width);
    } else {
      DivSmall(width - 1, width);
    }
  }

  lemma {:induction false} RefillCostMonotone(a: int, b: int, width: nat)
    requires width > 0 && a <= b
    ensures RefillCost(a, width) <= RefillCost(b, width)
    decreases if b > 0 then b else 0
  {
    if a <= 0 {
    } else {
      RefillCostMonotone(a - width, b - width, width);
    }
  }

  /** Calls to Get that can still pass before the process at index k of level p is dispatched. */
  ghost function Patience(s: State, p: nat, k: int): (r: int)
    requires Valid(s) && p < MAX_PRIO
  {
    Sum(s.budget) + RefillCost(k + 1 - s.budget[p], MAX_PRIO - p)
  }

  /** Every Get that does not dispatch the process uses up patience; a Put never does. */
  lemma PatienceStep(s: State, op: Op, p: nat, k: nat)
    requires Valid(s) && ValidOp(op) && p < MAX_PRIO && k < |s.levels[p]|
    requires op.GetOp? && Choice(s) == p ==> k > 0
    ensures var k' := k - |Taken(s, op, p)|;
      && 0 <= k' < |Step(s, op).levels[p]|
      && Patience(Step(s, op), p, k') <= Patience(s, p, k) - (if op.GetOp? then 1 else 0)
  {
    if op.GetOp? {
      GetIsWorkConserving(s);
      assert Choice(s) < MAX_PRIO;
      LevelStep(s, op, p);
      if Refills(s) { RefillingGet(s, p, k); } else { PlainGet(s, p, k); }
    }
  }

  lemma PlainGet(s: State, p: nat, k: nat)
    requires Valid(s) && p < MAX_PRIO && Choice(s) < MAX_PRIO && !Refills(s)
    ensures Patience(Get(s).1, p, if Choice(s) == p then k - 1 else k) == Patience(s, p, k) - 1
  {
    GetFavoursLowLevels(s);
    SumUpdate(s.budget, Choice(s), s.budget[Choice(s)] - 1);
  }

  lemma RefillingGet(s: State, p: nat, k: nat)
    requires Valid(s) && p < MAX_PRIO && Choice(s) < MAX_PRIO && Refills(s) && s.levels[p] != []
    ensures Patience(Get(s).1, p, if Choice(s) == p then k - 1 else k) <= Patience(s, p, k) - 1
  {
    GetFavoursLowLevels(s);
    ChargedRefillSum(Choice(s));
    SumNonNegative(s.budget);
    CostDropsByOneRefill(k + 1, MAX_PRIO - p);
  }

  lemma ChargedRefillSum(c: nat)
    requires c < MAX_PRIO
    ensures Sum(FullBudgets()[c := MAX_PRIO - c - 1]) == TOTAL_BUDGET - 1
  {
    FullSum();
    SumUpdate(FullBudgets(), c, MAX_PRIO - c - 1);
  }

  lemma CostDropsByOneRefill(need: int, width: nat)
    requires width > 0 && need > 0
    ensures RefillCost(need, width) == TOTAL_BUDGET + RefillCost(need - width, width)
  {
  }

  lemma {:induction false} ServedWithinPatience(s: State, ops: seq<Op>, p: nat, k: nat)
    requires Valid(s) && ValidOps(ops) && p < MAX_PRIO && k < |s.levels[p]|
    requires Gets(ops) >= Patience(s, p, k)
    ensures |TakenFrom(s, ops, p)| > k
    decreases |ops|
  {
    PatienceIsPositive(s, p, k);
    if ops != [] && !(ops[0].GetOp? && Choice(s) == p && k == 0) {
      PatienceStep(s, ops[0], p, k);
      ServedWithinPatience(Step(s, ops[0]), ops[1..], p, k - |Taken(s, ops[0], p)|);
    }
  }

  lemma PatienceIsPositive(s: State, p: nat, k: nat)
    requires Valid(s) && p < MAX_PRIO
    ensures Patience(s, p, k) > 0
  {
    SumNonNegative(s.budget);
    SpentSumPositive(s.budget, p);
  }

  lemma {:induction false} SpentSumPositive(b: seq<int>, p: nat)
    requires p < |b| && forall i :: 0 <= i < |b| ==> b[i] >= 0
    ensures Sum(b) >= b[p]
  {
    SumUpdate(b, p, 0);
    SumNonNegative(b[p := 0]);
  }

  ghost function WaitBound(p: nat, k: nat): (r: nat)
    requires p < MAX_PRIO
  {
    TOTAL_BUDGET * (1 + (k + 1 + (MAX_PRIO - p) - 1) / (MAX_PRIO - p))
  }

  lemma PatienceWithinBound(s: State, p: nat, k: nat)
    requires Valid(s) && p < MAX_PRIO
    ensures Patience(s, p, k) <= WaitBound(p, k)
  {
    hide Sum, FullBudgets, RefillCost;
    var w := MAX_PRIO - p;
    BudgetBounds(s);
    RefillCostMonotone(k + 1 - s.budget[p], k + 1, w);
    RefillCostIsCeiling(k + 1, w);
    var rounds := (k + 1 + w - 1) / w;
    MulAtLeast(TOTAL_BUDGET, rounds + 1, rounds + 1);
  }

  /** The k-th process taken from a level is the one that waited at index k. */
  lemma TakenInOrder(s: State, ops: seq<Op>, p: nat, k: nat)
    requires Valid(s) && ValidOps(ops) && p < MAX_PRIO && k < |s.levels[p]| && k < |TakenFrom(s, ops, p)|
    ensures TakenFrom(s, ops, p)[k] == s.levels[p][k]
  {
    LevelIsFifo(s, ops, p);
    var t := TakenFrom(s, ops, p);
    assert (t + Run(s, ops).levels[p])[k] == (s.levels[p] + AddedTo(ops, p))[k];
  }

  /** Bounded waiting: the process at index k of level p is handed to a CPU within
      WaitBound(p, k) calls, whatever is put on any level meanwhile. */
  lemma BoundedWaiting(s: State, ops: seq<Op>, p: nat, k: nat)
    requires Valid(s) && ValidOps(ops) && p < MAX_PRIO && k < |s.levels[p]|
    requires Gets(ops) >= WaitBound(p, k)
    ensures |TakenFrom(s, ops, p)| > k
    ensures TakenFrom(s, ops, p)[k] == s.levels[p][k]
  {
    PatienceWithinBound(s, p, k);
    ServedWithinPatience(s, ops, p, k);
    TakenInOrder(s, ops, p, k);
  }
}
