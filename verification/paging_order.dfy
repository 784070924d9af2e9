/** Which pages move: a fault takes a free frame if there is one and evicts one page of its own
    process otherwise, and the pages of a process leave RAM in the order in which they came in. */
module PagingOrder {
  import opened Geometry
  import opened Frames
  import opened PagingSpec

  predicate InRam(m: Mem, pg: Page) { pg in m.where && m.where[pg].Ram? }

  // ---- One fault -----------------------------------------------------------------------

  /** What pg_getpage moves: with a free frame nothing but the page, which takes that frame;
      without, the page takes the frame of one page of its own process, which goes to the first
      free swap frame; no other page moves. */
  lemma FaultMovesLeast(m: Mem, pg: Page)
    requires Inv(m) && Out(m, pg) && CanServe(m, pg.0)
    ensures var n := Fetch(m, pg);
      if m.ramFree != [] then n.where == m.where[pg := Ram(m.ramFree[0])] && n.swpFree == m.swpFree
      else
        exists p :: InRam(m, (pg.0, p)) && m.swpFree != [] && p != pg.1
          && n.where == m.where[(pg.0, p) := Swp(m.swpFree[0])][pg := m.where[(pg.0, p)]]
          && n.swpFree == m.swpFree[1..]
  {
    FetchForms(m, pg);
    hide Inv, Fetch;
    if m.ramFree == [] {
      var p := Victim(m, pg.0).1;
      assert InRam(m, (pg.0, p)) && p != pg.1;
    }
  }

  // ---- First in, first out -------------------------------------------------------------

  /** Page p of process a was in RAM and is now out. */
  predicate Leaves(was: map<Page, Loc>, now: map<Page, Loc>, a: nat, p: nat) {
    (a, p) in was && was[(a, p)].Ram? && (a, p) in now && now[(a, p)].Swp?
  }

  /** The page of process a that left RAM, if any. */
  ghost function Left(was: map<Page, Loc>, now: map<Page, Loc>, a: nat): (ps: seq<nat>) {
    if p: nat :| Leaves(was, now, a, p) then [p] else []
  }

  /** The pages of process a that the access brings into RAM, in order. */
  ghost function Came(m: Mem, x: Access, a: nat): (ps: seq<nat>)
    requires Inv(m) && Legal(m, x)
  {
    match x
    case Load(pg, _) => if pg.0 == a && Out(m, pg) && Served(m, x) then [pg.1] else []
    case Store(pg, _, _) => if pg.0 == a && Out(m, pg) && Served(m, x) then [pg.1] else []
    case Expel(_) => []
    case Map(b, p, n) => if b == a && Served(m, x) then seq(n, i => p + i) else []
  }

  function Reversed(q: seq<nat>): (r: seq<nat>)
    ensures |r| == |q| && forall i :: 0 <= i < |q| ==> r[i] == q[|q| - 1 - i]
  {
    seq(|q|, i requires 0 <= i < |q| => q[|q| - 1 - i])
  }

  lemma ReversedCons(p: nat, q: seq<nat>)
    ensures Reversed([p] + q) == Reversed(q) + [p]
  {
  }

  lemma ReversedPop(q: seq<nat>)
    requires q != []
    ensures Reversed(q) == [q[|q| - 1]] + Reversed(q[..|q| - 1])
  {
  }

  lemma LeftNobody(was: map<Page, Loc>, now: map<Page, Loc>, a: nat)
    requires forall p: nat :: (a, p) in was && was[(a, p)].Ram? && (a, p) in now ==> now[(a, p)].Ram?
    ensures Left(was, now, a) == []
  {
  }

  lemma LeftOne(was: map<Page, Loc>, now: map<Page, Loc>, a: nat, q: nat)
    requires Leaves(was, now, a, q) && forall p :: Leaves(was, now, a, p) ==> p == q
    ensures Left(was, now, a) == [q]
  {
  }

  lemma EvictOrder(m: Mem, b: nat, a: nat)
    requires Inv(m) && Evictable(m, b) && a < |m.fifo|
    ensures var n := Evict(m, b);
      && |n.fifo| == |m.fifo| && n.where.Keys == m.where.Keys
      && Left(m.where, n.where, a) + Reversed(n.fifo[a]) == Reversed(m.fifo[a])
      && forall p :: Leaves(m.where, n.where, a, p) ==> p == Victim(m, b).1
  {
    var n := Evict(m, b);
    if a == b {
      LeftOne(m.where, n.where, a, Victim(m, b).1);
      ReversedPop(m.fifo[a]);
    } else {
      LeftNobody(m.where, n.where, a);
    }
  }

  /** A page comes in behind all others of its process. */
  lemma BringOrder(m: Mem, n: Mem, pg: Page, tgt: int, f: int, a: nat)
    requires CanBring(m, pg, tgt, f) && n == Bring(m, pg, tgt, f) && a < |m.fifo|
    ensures |n.fifo| == |m.fifo|
    ensures Reversed(n.fifo[a]) == Reversed(m.fifo[a]) + if pg.0 == a then [pg.1] else []
    ensures n.where == m.where[pg := Ram(f)]
  {
    ReversedCons(pg.1, m.fifo[pg.0]);
  }

  lemma FetchOrder(m: Mem, pg: Page, a: nat)
    requires Inv(m) && pg in m.where && a < |m.fifo|
    ensures var n := Fetch(m, pg);
      && |n.fifo| == |m.fifo|
      && Left(m.where, n.where, a) + Reversed(n.fifo[a])
         == Reversed(m.fifo[a]) + if pg.0 == a && Out(m, pg) && CanServe(m, pg.0) then [pg.1] else []
  {
    FetchForms(m, pg);
    hide Inv, Fetch, Bring, Evict;
    var n := Fetch(m, pg);
    if !Out(m, pg) || !CanServe(m, pg.0) {
      LeftNobody(m.where, m.where, a);
    } else if m.ramFree != [] {
      BringOrder(m.(ramFree := m.ramFree[1..]), n, pg, m.where[pg].f, m.ramFree[0], a);
      LeftNobody(m.where, n.where, a);
    } else {
      var e := Evict(m, pg.0);
      EvictOrder(m, pg.0, a);
      BringOrder(e.(ramFree := []), n, pg, m.where[pg].f, e.ramFree[0], a);
      BringPutsNobodyOut(m.where, e.where, pg, n.where[pg], a);
    }
  }

  lemma BringPutsNobodyOut(was: map<Page, Loc>, now: map<Page, Loc>, pg: Page, l: Loc, a: nat)
    requires pg in was && was[pg].Swp? && l.Ram?
    requires forall p, q :: Leaves(was, now, a, p) && Leaves(was, now, a, q) ==> p == q
    ensures Left(was, now[pg := l], a) == Left(was, now, a)
  {
    var next := now[pg := l];
    forall p: nat
      ensures Leaves(was, next, a, p) <==> Leaves(was, now, a, p)
    {
    }
    if p: nat :| Leaves(was, now, a, p) {
      LeftOne(was, now, a, p);
      LeftOne(was, next, a, p);
    }
  }

  lemma {:induction false} MapOrder(m: Mem, b: nat, p: nat, frames: seq<int>, a: nat)
    requires b < |m.fifo| && a < |m.fifo|
    ensures Reversed(MapAll(m, b, p, frames).fifo[a])
         == Reversed(m.fifo[a]) + if a == b then seq(|frames|, i => p + i) else []
    decreases |frames|
  {
    if frames == [] {
    } else {
      MapOrder(MapPage(m, (b, p), frames[0]), b, p + 1, frames[1..], a);
      ReversedCons(p, m.fifo[b]);
      assert seq(|frames|, i => p + i) == [p] + seq(|frames| - 1, i => p + 1 + i);
    }
  }

  /** Over one access: who leaves goes from the old end, who comes joins at the new one. */
  lemma StepOrder(m: Mem, x: Access, a: nat)
    requires Inv(m) && Legal(m, x) && a < |m.fifo|
    ensures var n := DoPaged(m, x).0;
      |n.fifo| == |m.fifo| && Left(m.where, n.where, a) + Reversed(n.fifo[a]) == Reversed(m.fifo[a]) + Came(m, x, a)
  {
    ProcessesStay(m, x);
    match x
    case Load(pg, off) => FetchOrder(m, pg, a);
    case Store(pg, off, b) =>
      FetchOrder(m, pg, a);
      StoreKeepsPlaces(m, x);
    case Expel(b) =>
      EvictIsSafe(m, b);
      EvictOrder(m, b, a);
    case Map(b, p, n) => GrowOrder(m, x, a);
  }

  lemma StoreKeepsPlaces(m: Mem, x: Access)
    requires Inv(m) && Legal(m, x) && x.Store?
    ensures DoPaged(m, x).0.fifo == Fetch(m, x.pg).fifo && DoPaged(m, x).0.where == Fetch(m, x.pg).where
  {
    hide Inv, Fetch;
    FetchIsInvisible(m, x.pg);
  }

  lemma GrowOrder(m: Mem, x: Access, a: nat)
    requires Inv(m) && Legal(m, x) && x.Map? && a < |m.fifo|
    ensures |DoPaged(m, x).0.fifo| == |m.fifo| && Left(m.where, DoPaged(m, x).0.where, a) == []
    ensures Reversed(DoPaged(m, x).0.fifo[a]) == Reversed(m.fifo[a]) + Came(m, x, a)
  {
    var n := DoPaged(m, x).0;
    if x.n <= |m.ramFree| {
      GrowPlaces(m, x.a, x.p, x.n);
      MapOrder(TakeFrames(m, x.n), x.a, x.p, Backwards(m.ramFree[..x.n]), a);
    }
    LeftNobody(m.where, n.where, a);
  }

  // ---- Whole runs ----------------------------------------------------------------------

  ghost function AllLeft(m: Mem, xs: seq<Access>, a: nat): (ps: seq<nat>)
    requires Inv(m) && AllLegal(m, xs)
    decreases |xs|
  {
    if xs == [] then [] else Left(m.where, DoPaged(m, xs[0]).0.where, a) + AllLeft(DoPaged(m, xs[0]).0, xs[1..], a)
  }

  ghost function AllCame(m: Mem, xs: seq<Access>, a: nat): (ps: seq<nat>)
    requires Inv(m) && AllLegal(m, xs)
    decreases |xs|
  {
    if xs == [] then [] else Came(m, xs[0], a) + AllCame(DoPaged(m, xs[0]).0, xs[1..], a)
  }

  /** The pages of a process leave RAM in the order in which they came in, by mappings and faults:
      over any run, those that left followed by those that are there, oldest first, are those that
      were there followed by those that came. */
  lemma {:induction false} PagesLeaveInOrder(m: Mem, xs: seq<Access>, a: nat)
    requires Inv(m) && AllLegal(m, xs) && a < |m.fifo|
    ensures |EndOf(m, xs).fifo| == |m.fifo|
    ensures AllLeft(m, xs, a) + Reversed(EndOf(m, xs).fifo[a]) == Reversed(m.fifo[a]) + AllCame(m, xs, a)
    decreases |xs|
  {
    hide Inv, Legal, DoPaged, Left, Came, Reversed;
    if xs == [] {
    } else {
      var n := DoPaged(m, xs[0]).0;
      StepOrder(m, xs[0], a);
      PagesLeaveInOrder(n, xs[1..], a);
      Regroup(Left(m.where, n.where, a), AllLeft(n, xs[1..], a), Reversed(EndOf(m, xs).fifo[a]),
              Reversed(n.fifo[a]), AllCame(n, xs[1..], a), Reversed(m.fifo[a]), Came(m, xs[0], a));
    }
  }

  lemma Regroup(a: seq<nat>, b: seq<nat>, c: seq<nat>, d: seq<nat>, e: seq<nat>, f: seq<nat>, g: seq<nat>)
    requires b + c == d + e && a + d == f + g
    ensures (a + b) + c == f + (g + e)
  {
    assert (a + b) + c == a + (b + c);
    assert a + (d + e) == (a + d) + e;
    assert (f + g) + e == f + (g + e);
  }

  /** So whoever is evicted next, on demand or by a fault, is the page of its process that came in
      earliest of those not evicted yet. */
  lemma OldestLeavesNext(first: Mem, xs: seq<Access>, x: Access, a: nat)
    requires Inv(first) && a < |first.fifo| && first.fifo[a] == []
    requires AllLegal(first, xs) && Legal(EndOf(first, xs), x)
    ensures var (gone, came, m) := (AllLeft(first, xs, a), AllCame(first, xs, a), EndOf(first, xs));
      var out := Left(m.where, DoPaged(m, x).0.where, a);
      gone <= came && (out != [] ==> |gone| < |came + Came(m, x, a)| && out[0] == (came + Came(m, x, a))[|gone|])
  {
    hide Inv, Legal, DoPaged, Left, Came, AllLegal, EndOf;
    var m := EndOf(first, xs);
    PagesLeaveInOrder(first, xs, a);
    assert Reversed(first.fifo[a]) == [];
    StepOrder(m, x, a);
    var gone, came, n := AllLeft(first, xs, a), AllCame(first, xs, a), DoPaged(m, x).0;
    var out, now := Left(m.where, n.where, a), Reversed(m.fifo[a]);
    assert gone + now == came && out + Reversed(n.fifo[a]) == now + Came(m, x, a);
    assert gone + (now + Came(m, x, a)) == came + Came(m, x, a);
  }
}
