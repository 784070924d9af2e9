/** How long faults can be served: every fault spends a free frame of RAM or of swap for good,
    as the swap frame of a page that comes back is never given back. */
module PagingBudget {
  import opened Geometry
  import opened PagingSpec

  /** Free frames of both devices. */
  function Budget(m: Mem): (n: nat) { |m.ramFree| + |m.swpFree| }

  /** The access brings a page in from swap. */
  ghost predicate IsFault(m: Mem, x: Access)
    requires Inv(m) && Legal(m, x)
  {
    (x.Load? || x.Store?) && m.where[x.pg].Swp? && Served(m, x)
  }

  /** Frames that the access takes for new pages, or loses in a mapping that fails. */
  ghost function FramesMapped(m: Mem, x: Access): (n: nat)
    requires Inv(m) && Legal(m, x)
  {
    if !x.Map? then 0 else if x.n <= |m.ramFree| then x.n else |m.ramFree|
  }

  ghost predicate Evicts(m: Mem, x: Access)
    requires Inv(m) && Legal(m, x)
  {
    x.Expel? || (IsFault(m, x) && m.ramFree == [])
  }

  lemma FaultSpends(m: Mem, pg: Page)
    requires Inv(m) && pg in m.where && m.where[pg].Swp? && CanServe(m, pg.0)
    ensures Budget(Fetch(m, pg)) == Budget(m) - 1
    ensures |Fetch(m, pg).swpFree| == |m.swpFree| - if m.ramFree == [] then 1 else 0
  {
    if m.ramFree == [] {
      EvictKeeps(m, pg.0);
      hide Inv;
    } else {
      hide Inv;
    }
  }

  lemma MappingSpends(m: Mem, a: nat, p: nat, n: nat)
    requires a < |m.fifo|
    ensures Grow(m, a, p, n).swpFree == m.swpFree
    ensures |Grow(m, a, p, n).ramFree| == |m.ramFree| - if n <= |m.ramFree| then n else |m.ramFree|
  {
  }

  /** A fault spends one frame, a mapping those it takes, an eviction moves one from swap to RAM. */
  lemma StepSpends(m: Mem, x: Access)
    requires Inv(m) && Legal(m, x)
    ensures var n := DoPaged(m, x).0;
      && Budget(n) == Budget(m) - FramesMapped(m, x) - (if IsFault(m, x) then 1 else 0)
      && |n.swpFree| == |m.swpFree| - if Evicts(m, x) then 1 else 0
  {
    match x
    case Load(pg, _) => if IsFault(m, x) { FaultSpends(m, pg); }
    case Store(pg, _, _) => if IsFault(m, x) { FaultSpends(m, pg); }
    case Expel(a) => EvictKeeps(m, a);
    case Map(a, p, n) => MappingSpends(m, a, p, n);
  }

  // ---- Whole runs ----------------------------------------------------------------------

  ghost function Faults(m: Mem, xs: seq<Access>): (n: nat)
    requires Inv(m) && AllLegal(m, xs)
    decreases |xs|
  {
    if xs == [] then 0 else (if IsFault(m, xs[0]) then 1 else 0) + Faults(DoPaged(m, xs[0]).0, xs[1..])
  }

  ghost function Evictions(m: Mem, xs: seq<Access>): (n: nat)
    requires Inv(m) && AllLegal(m, xs)
    decreases |xs|
  {
    if xs == [] then 0 else (if Evicts(m, xs[0]) then 1 else 0) + Evictions(DoPaged(m, xs[0]).0, xs[1..])
  }

  ghost function Mapped(m: Mem, xs: seq<Access>): (n: nat)
    requires Inv(m) && AllLegal(m, xs)
    decreases |xs|
  {
    if xs == [] then 0 else FramesMapped(m, xs[0]) + Mapped(DoPaged(m, xs[0]).0, xs[1..])
  }

  /** Conservation over any run: the faults that were ever served and the frames that were ever
      mapped are exactly the free frames that are gone, and the evictions exactly those of swap.
      So no run serves more faults than there are free frames at its start. */
  lemma {:induction false} FaultsAreBudgeted(m: Mem, xs: seq<Access>)
    requires Inv(m) && AllLegal(m, xs)
    ensures Faults(m, xs) + Mapped(m, xs) + Budget(EndOf(m, xs)) == Budget(m)
    ensures Evictions(m, xs) + |EndOf(m, xs).swpFree| == |m.swpFree|
    decreases |xs|
  {
    hide Inv, DoPaged, Legal, IsFault, Evicts, FramesMapped, Budget;
    if xs == [] {
    } else {
      StepSpends(m, xs[0]);
      FaultsAreBudgeted(DoPaged(m, xs[0]).0, xs[1..]);
    }
  }

  /** As long as faults and mappings have not spent the free frames there were at the start, a
      load is served, unless RAM is full and the process has no page in it to evict. */
  lemma LoadIsServedWithinBudget(m: Mem, xs: seq<Access>, pg: Page, off: nat)
    requires Inv(m) && AllLegal(m, xs) && off < PAGESZ && pg in EndOf(m, xs).where
    requires Faults(m, xs) + Mapped(m, xs) < Budget(m)
    ensures pg.0 < |EndOf(m, xs).fifo|
    ensures Served(EndOf(m, xs), Load(pg, off))
      <==> EndOf(m, xs).where[pg].Ram? || EndOf(m, xs).ramFree != [] || EndOf(m, xs).fifo[pg.0] != []
  {
    FaultsAreBudgeted(m, xs);
    hide AllLegal, EndOf, Faults, Mapped, Evictions;
  }

  /** No free frame is left anywhere. */
  predicate Spent(m: Mem) { m.ramFree == [] && m.swpFree == [] }

  lemma SpentStep(m: Mem, x: Access)
    requires Inv(m) && Legal(m, x) && Spent(m)
    ensures var n := DoPaged(m, x).0; n.where == m.where && n.fifo == m.fifo && Spent(n)
  {
    match x
    case Load(_, _) =>
    case Store(_, _, _) =>
    case Expel(_) =>
    case Map(a, p, n) =>
      if n == 0 { assert MapAll(TakeFrames(m, 0), a, p, Backwards(m.ramFree[..0])) == TakeFrames(m, 0); }
  }

  /** Once they are spent nothing moves any more: from then on a load is served exactly if its
      page was in RAM then. */
  lemma {:induction false} SpentForGood(m: Mem, xs: seq<Access>, pg: Page, off: nat)
    requires Inv(m) && AllLegal(m, xs) && Spent(m) && pg in m.where && off < PAGESZ
    ensures var n := EndOf(m, xs);
      && n.where == m.where && Spent(n)
      && Legal(n, Load(pg, off)) && (Served(n, Load(pg, off)) <==> m.where[pg].Ram?)
    decreases |xs|
  {
    if xs == [] {
      assert Legal(m, Load(pg, off));
    } else {
      hide Inv, DoPaged, Served, CanServe;
      SpentStep(m, xs[0]);
      SpentForGood(DoPaged(m, xs[0]).0, xs[1..], pg, off);
    }
  }
}
