/** queue.c: the fixed-size array queue. */
module Queues {
  import opened Options
  import opened Mlq

  const MAX_QUEUE_SIZE: nat := 10

  class Queue {
    const proc: array<Pid>
    var size: int
    var timeSlot: int

    ghost predicate Valid()
      reads this
    {
      proc.Length == MAX_QUEUE_SIZE && 0 <= size <= MAX_QUEUE_SIZE
    }

    ghost function Items(): (r: seq<Pid>)
      requires Valid()
      reads this, proc
    {
      proc[..size]
    }

    constructor (slots: int)
      ensures Valid() && fresh(proc)
      ensures Items() == [] && timeSlot == slots
    {
      proc := new Pid[MAX_QUEUE_SIZE];
      size := 0;
      timeSlot := slots;
    }

    predicate Empty()
      reads this
    {
      size == 0
    }

    /** There is no capacity test in the source: room is the caller's duty (OsTheorems.EnqueueHasRoom). */
    method Enqueue(pid: Pid)
      requires Valid() && size < MAX_QUEUE_SIZE
      modifies this`size, proc
      ensures Valid() && Items() == old(Items()) + [pid]
    {
      proc[size] := pid;
      size := size + 1;
    }

    method Dequeue() returns (ret: Option<Pid>)
      requires Valid()
      modifies this`size, proc
      ensures Valid()
      ensures old(Items()) == [] ==> ret == None && Items() == []
      ensures old(Items()) != [] ==> ret == Some(old(Items())[0]) && Items() == old(Items())[1..]
    {
      if Empty() {
        return None;
      }
      ret := Some(proc[0]);
      for i := 0 to size - 1
        invariant size == old(size)
        invariant forall j :: 0 <= j < i ==> proc[j] == old(proc[j + 1])
        invariant forall j :: i <= j < proc.Length ==> proc[j] == old(proc[j])
      {
        proc[i] := proc[i + 1];
      }
      size := size - 1;
    }
  }
}

/** sched.c with MLQ_SCHED: the scheduler over its static array of queues. */
module Scheduling {
  import opened Options
  import opened Mlq
  import opened Queues

  /** First level and limit of a scan. */
  const MEANT: (nat, nat) := (0, MAX_PRIO)
  const AS_WRITTEN: (nat, nat) := (MAX_PRIO, 0)

  class Scheduler {
    const mlq: seq<Queue>
    /** The queues as the value that Mlq's theorems speak about. */
    ghost var model: State

    ghost function Repr(): (r: set<object>) {
      {this} + (set q: Queue | q in mlq :: q as object) + (set q: Queue | q in mlq :: q.proc as object)
    }

    ghost predicate Holds(p: nat, items: seq<Pid>, slots: int)
      requires p < |mlq|
      reads mlq[p], mlq[p].proc
    {
      mlq[p].Valid() && mlq[p].Items() == items && mlq[p].timeSlot == slots
    }

    ghost predicate Apart() {
      && |mlq| == MAX_PRIO
      && forall p, q :: 0 <= p < q < MAX_PRIO ==> mlq[p] != mlq[q] && mlq[p].proc != mlq[q].proc
    }

    ghost predicate Valid()
      reads Repr()
    {
      && Apart()
      && Mlq.Valid(model)
      && forall p :: 0 <= p < MAX_PRIO ==>
           mlq[p] in mlq && Holds(p, model.levels[p], model.budget[p])
    }

    lemma ModelIsValid()
      requires Valid()
      ensures Mlq.Valid(model)
    {
    }

    lemma LevelIs(p: nat)
      requires Valid() && p < MAX_PRIO
      ensures Mlq.Valid(model) && p < |mlq| && Holds(p, model.levels[p], model.budget[p])
    {
    }

    constructor ()
      ensures Valid() && fresh(Repr())
      ensures model == Init() && |mlq| == MAX_PRIO
      ensures forall p :: 0 <= p < MAX_PRIO ==>
        mlq[p].Valid() && mlq[p].Items() == [] && mlq[p].timeSlot == MAX_PRIO - p
    {
      var queues: seq<Queue> := [];
      for i := 0 to MAX_PRIO
        invariant |queues| == i
        invariant forall p :: 0 <= p < i ==> fresh(queues[p]) && fresh(queues[p].proc) && queues[p].Valid()
        invariant forall p :: 0 <= p < i ==> queues[p].Items() == [] && queues[p].timeSlot == MAX_PRIO - p
        invariant forall p, q :: 0 <= p < q < i ==> queues[p] != queues[q] && queues[p].proc != queues[q].proc
      {
        var queue := new Queue(MAX_PRIO - i);
        queues := queues + [queue];
      }
      mlq := queues;
      model := Init();
    }

    /** queue_empty: -1 when some level has work, else 1, as the two queues of the scheduler
        without priorities stay empty. Both are true to a C caller; nothing calls it. */
    method QueueEmpty() returns (r: int)
      requires Valid()
      ensures r == if AllEmpty(model) then 1 else -1
    {
      for prio := 0 to MAX_PRIO
        invariant forall p :: 0 <= p < prio ==> model.levels[p] == []
      {
        assert Holds(prio, model.levels[prio], model.budget[prio]);
        if !mlq[prio].Empty() {
          return -1;
        }
      }
      return 1;
    }

    /** Dequeue from level p and charge its budget. */
    method Serve(p: nat) returns (proc: Option<Pid>)
      requires Valid() && p < MAX_PRIO && Ready(model, p)
      modifies Repr()
      ensures Valid()
      ensures proc == Some(old(model).levels[p][0]) && model == Take(old(model), p)
    {
      assert Holds(p, model.levels[p], model.budget[p]);
      proc := mlq[p].Dequeue();
      mlq[p].timeSlot := mlq[p].timeSlot - 1;
      model := Take(model, p);
      assert Holds(p, model.levels[p], model.budget[p]);
      forall q | 0 <= q < MAX_PRIO && q != p
        ensures Holds(q, model.levels[q], model.budget[q])
      {
        assert old(Holds(q, model.levels[q], model.budget[q]));
      }
    }

    /** Give every level its budget back. */
    method Replenish()
      requires Valid()
      modifies Repr()
      ensures Valid() && model == old(model).(budget := FullBudgets())
    {
      for prio := 0 to MAX_PRIO
        invariant Valid() && model.levels == old(model).levels
        invariant forall p :: 0 <= p < prio ==> model.budget[p] == MAX_PRIO - p
      {
        label L:
        assert Holds(prio, model.levels[prio], model.budget[prio]);
        mlq[prio].timeSlot := MAX_PRIO - prio;
        model := model.(budget := model.budget[prio := MAX_PRIO - prio]);
        forall q | 0 <= q < MAX_PRIO
          ensures Holds(q, model.levels[q], model.budget[q])
        {
          assert old@L(Holds(q, model.levels[q], model.budget[q]));
        }
      }
      assert model.budget == FullBudgets();
    }

    /** The first scan: serve the first level with work and budget, noting any work seen. */
    method ScanReady(first: nat, limit: nat) returns (proc: Option<Pid>, nonEmpty: bool)
      requires Valid() && (first, limit) in {MEANT, AS_WRITTEN}
      modifies Repr()
      ensures Valid()
      ensures (first, limit) == MEANT ==> var p := FirstReady(old(model), 0);
        && (p < MAX_PRIO ==> proc == Some(old(model).levels[p][0]) && model == Take(old(model), p))
        && (p == MAX_PRIO ==> proc == None && model == old(model) && (nonEmpty <==> !AllEmpty(model)))
      ensures (first, limit) == AS_WRITTEN ==> proc == None && !nonEmpty && model == old(model)
    {
      hide Valid, Repr;
      ModelIsValid();
      proc := None;
      nonEmpty := false;
      var prio := first;
      while prio < limit
        invariant first <= prio && (first == 0 ==> prio <= MAX_PRIO)
        invariant Valid() && model == old(model) && proc == None
        invariant forall q :: first <= q < prio && q < MAX_PRIO ==> !Ready(model, q)
        invariant nonEmpty <==> exists q :: first <= q < prio && q < MAX_PRIO && model.levels[q] != []
      {
        LevelIs(prio);
        if !mlq[prio].Empty() {
          nonEmpty := true;
          if mlq[prio].timeSlot > 0 {
            FirstReadyIs(model, 0, prio);
            proc := Serve(prio);
            return;
          }
        }
        prio := prio + 1;
      }
      if first == 0 { FirstReadyIs(model, 0, MAX_PRIO); }
    }

    /** The second scan, after a refill: serve the first level with work. */
    method ScanBusy(first: nat, limit: nat) returns (proc: Option<Pid>)
      requires Valid() && (first, limit) == MEANT && model.budget == FullBudgets() && !AllEmpty(model)
      modifies Repr()
      ensures Valid() && FirstBusy(old(model), 0) < MAX_PRIO
      ensures var p := FirstBusy(old(model), 0);
        proc == Some(old(model).levels[p][0]) && model == Take(old(model), p)
    {
      proc := None;
      var prio := first;
      while prio < limit
        invariant 0 <= prio <= MAX_PRIO
        invariant Valid() && model == old(model) && proc == None
        invariant forall q :: 0 <= q < prio ==> model.levels[q] == []
      {
        assert Holds(prio, model.levels[prio], model.budget[prio]);
        if !mlq[prio].Empty() {
          FirstBusyIs(model, 0, prio);
          proc := Serve(prio);
          return;
        }
        prio := prio + 1;
      }
      assert false;
    }

    /** get_mlq_proc. The bounds of its two scans are parameters: the source has AS_WRITTEN
        (both loops start at MAX_PRIO with the guard `prio < 0`), MEANT is the repair. */
    method GetMlqProc(first: nat, limit: nat) returns (proc: Option<Pid>)
      requires Valid() && (first, limit) in {MEANT, AS_WRITTEN}
      modifies Repr()
      ensures Valid()
      ensures (first, limit) == MEANT ==> (proc, model) == Get(old(model))
      ensures (first, limit) == AS_WRITTEN ==> (proc, model) == GetAsWritten(old(model))
    {
      hide Valid, Repr;
      ModelIsValid();
      var nonEmpty;
      proc, nonEmpty := ScanReady(first, limit);
      if proc == None && nonEmpty {
        Replenish();
        FirstBusyIs(old(model), 0, FirstBusy(model, 0));
        proc := ScanBusy(first, limit);
      }
      if AllEmpty(old(model)) { FirstBusyIs(old(model), 0, MAX_PRIO); }
    }

    /** put_mlq_proc and add_mlq_proc. */
    method PutMlqProc(pid: Pid, prio: nat)
      requires Valid() && prio < MAX_PRIO && |model.levels[prio]| < MAX_QUEUE_SIZE
      modifies Repr()
      ensures Valid() && model == Put(old(model), pid, prio)
    {
      assert Holds(prio, model.levels[prio], model.budget[prio]);
      mlq[prio].Enqueue(pid);
      model := Put(model, pid, prio);
      forall q | 0 <= q < MAX_PRIO && q != prio
        ensures Holds(q, model.levels[q], model.budget[q])
      {
        assert old(Holds(q, model.levels[q], model.budget[q]));
      }
    }
  }

  lemma FirstReadyIs(s: State, from: nat, p: nat)
    requires |s.levels| == |s.budget| == MAX_PRIO && from <= p <= MAX_PRIO
    requires forall q :: from <= q < p ==> !Ready(s, q)
    requires p < MAX_PRIO ==> Ready(s, p)
    ensures FirstReady(s, from) == p
  {
  }

  lemma FirstBusyIs(s: State, from: nat, p: nat)
    requires |s.levels| == MAX_PRIO && from <= p <= MAX_PRIO
    requires forall q :: from <= q < p ==> s.levels[q] == []
    requires p < MAX_PRIO ==> s.levels[p] != []
    ensures FirstBusy(s, from) == p
  {
  }
}
