/** Paging with swap on values: page tables, both devices, their free frames and the FIFO
    lists, and the flat byte array of each process that they are meant to hide behind.

    This is the repaired fault path of mm-vm.c: the victim's frame number is read from its
    entry, *fpn and the new entry are set, an evicted entry is not present, the victim is
    unlinked, and a fault that finds no victim or no swap frame fails with -1. */
module PagingSpec {
  import opened Options
  import opened Arith
  import opened Geometry
  import opened Frames

  const MAX_PGN: nat := 0x4000        // pages on a 22-bit bus
  const MAX_FPN: nat := 0x2000        // the frame number field has 13 bits
  const MAX_SWPOFF: nat := 0x20_0000  // the swap offset field has 21 bits

  /** Process and page number. */
  type Page = (nat, nat)

  datatype Loc = Ram(f: int) | Swp(f: int)

  datatype Mem = Mem(
    where: map<Page, Loc>,     // the page tables: every mapped page and where it is
    fifo: seq<seq<nat>>,       // each process's resident pages, newest first
    ramFree: seq<int>, swpFree: seq<int>,
    ram: seq<Byte>, swp: seq<Byte>)

  predicate FreeOk(free: seq<int>, storage: seq<Byte>, limit: nat) {
    Distinct(free) && forall f :: f in free ==> InStorage(storage, f) && f < limit
  }

  predicate LocOk(m: Mem, l: Loc) {
    match l
    case Ram(f) => InStorage(m.ram, f) && f < MAX_FPN && f !in m.ramFree
    case Swp(f) => InStorage(m.swp, f) && f < MAX_SWPOFF && f !in m.swpFree
  }

  ghost predicate PagesOk(m: Mem) {
    && (forall pg :: pg in m.where ==> pg.0 < |m.fifo| && pg.1 < MAX_PGN && LocOk(m, m.where[pg]))
    && (forall pg, pg' :: pg in m.where && pg' in m.where && m.where[pg] == m.where[pg'] ==> pg == pg')
  }

  ghost predicate FifoOk(where: map<Page, Loc>, fifo: seq<seq<nat>>) {
    && (forall a :: 0 <= a < |fifo| ==> Distinct(fifo[a]))
    && (forall a, p :: 0 <= a < |fifo| ==> (p in fifo[a] <==> (a, p) in where && where[(a, p)].Ram?))
  }

  /** No frame is held by two pages, none is both free and mapped, and the FIFO lists hold
      exactly the resident pages, each once. */
  ghost predicate Inv(m: Mem) {
    && FreeOk(m.ramFree, m.ram, MAX_FPN) && FreeOk(m.swpFree, m.swp, MAX_SWPOFF)
    && PagesOk(m)
    && FifoOk(m.where, m.fifo)
  }

  function NoPages(n: nat): (fifo: seq<seq<nat>>)
    ensures |fifo| == n && forall a :: 0 <= a < n ==> fifo[a] == []
  {
    seq(n, _ => [])
  }

  /** No page mapped, every frame free. */
  function Blank(ram: seq<Byte>, swp: seq<Byte>, n: nat): (r: Mem) {
    Mem(map[], NoPages(n), Formatted(|ram| / PAGESZ).free, Formatted(|swp| / PAGESZ).free, ram, swp)
  }

  /** The invariant holds at the start exactly for devices whose frames the entries can number. */
  lemma BlankInv(ram: seq<Byte>, swp: seq<Byte>, n: nat)
    ensures Inv(Blank(ram, swp, n)) <==> |ram| / PAGESZ <= MAX_FPN && |swp| / PAGESZ <= MAX_SWPOFF
  {
    FormattedFits(ram, MAX_FPN);
    FormattedFits(swp, MAX_SWPOFF);
  }

  lemma FormattedFits(storage: seq<Byte>, limit: nat)
    ensures FreeOk(Formatted(|storage| / PAGESZ).free, storage, limit) <==> |storage| / PAGESZ <= limit
  {
    var n := |storage| / PAGESZ;
    if n > limit { assert Formatted(n).free[n - 1] in Formatted(n).free; }
  }

  lemma TailFree(free: seq<int>, storage: seq<Byte>, limit: nat)
    requires FreeOk(free, storage, limit) && free != []
    ensures InStorage(storage, free[0]) && free[0] < limit
    ensures FreeOk(free[1..], storage, limit) && free[0] !in free[1..]
    ensures forall f :: f in free[1..] ==> f in free
  {
    assert free == [free[0]] + free[1..];
    assert free[0] in free;
  }

  lemma ResizedFree(free: seq<int>, storage: seq<Byte>, storage': seq<Byte>, limit: nat)
    requires FreeOk(free, storage, limit) && |storage| == |storage'|
    ensures FreeOk(free, storage', limit)
  {
  }

  lemma PushFifo(where: map<Page, Loc>, fifo: seq<seq<nat>>, pg: Page, f: int)
    requires FifoOk(where, fifo) && pg.0 < |fifo| && !(pg in where && where[pg].Ram?)
    ensures FifoOk(where[pg := Ram(f)], fifo[pg.0 := [pg.1] + fifo[pg.0]])
  {
    var (a, p) := pg;
    var n := fifo[a := [p] + fifo[a]];
    assert p !in fifo[a];
    forall b, q | 0 <= b < |n|
      ensures q in n[b] <==> (b, q) in where[pg := Ram(f)] && where[pg := Ram(f)][(b, q)].Ram?
    {
      assert q in fifo[b] <==> (b, q) in where && where[(b, q)].Ram?;
    }
  }

  lemma PopFifo(where: map<Page, Loc>, fifo: seq<seq<nat>>, a: nat, s: int)
    requires FifoOk(where, fifo) && a < |fifo| && fifo[a] != []
    ensures var (p, rest) := (fifo[a][|fifo[a]| - 1], fifo[a][..|fifo[a]| - 1]);
      && (a, p) in where && where[(a, p)].Ram?
      && FifoOk(where[(a, p) := Swp(s)], fifo[a := rest])
  {
    var p, rest := fifo[a][|fifo[a]| - 1], fifo[a][..|fifo[a]| - 1];
    var n := fifo[a := rest];
    assert p in fifo[a];
    assert fifo[a] == rest + [p];
    assert p !in rest;
    forall b, q | 0 <= b < |n|
      ensures q in n[b] <==> (b, q) in where[(a, p) := Swp(s)] && where[(a, p) := Swp(s)][(b, q)].Ram?
    {
      assert q in fifo[b] <==> (b, q) in where && where[(b, q)].Ram?;
    }
  }

  function Content(m: Mem, l: Loc): (r: seq<Byte>)
    requires LocOk(m, l)
  {
    if l.Ram? then FrameOf(m.ram, l.f) else FrameOf(m.swp, l.f)
  }

  /** The flat memory of all processes: what each mapped page holds, wherever it is. */
  ghost function Flat(m: Mem): (r: map<Page, seq<Byte>>)
    requires Inv(m)
    ensures r.Keys == m.where.Keys
  {
    map pg | pg in m.where :: Content(m, m.where[pg])
  }

  // ---- Moving pages --------------------------------------------------------------------

  ghost predicate Out(m: Mem, pg: Page) { pg in m.where && m.where[pg].Swp? }

  /** Copy a swapped page into the first free RAM frame. Its swap frame is not given back. */
  function PageIn(m: Mem, pg: Page): (r: Mem)
    requires pg in m.where && m.where[pg].Swp? && InStorage(m.swp, m.where[pg].f)
    requires m.ramFree != [] && InStorage(m.ram, m.ramFree[0]) && pg.0 < |m.fifo|
  {
    var f := m.ramFree[0];
    m.(where := m.where[pg := Ram(f)], ramFree := m.ramFree[1..],
       ram := CopyFrame(m.swp, m.where[pg].f, m.ram, f),
       fifo := m.fifo[pg.0 := [pg.1] + m.fifo[pg.0]])
  }

  /** The oldest resident page of process a. */
  function Victim(m: Mem, a: nat): (r: Page)
    requires a < |m.fifo| && m.fifo[a] != []
  {
    (a, m.fifo[a][|m.fifo[a]| - 1])
  }

  predicate Evictable(m: Mem, a: nat) {
    && a < |m.fifo| && m.fifo[a] != [] && Victim(m, a) in m.where && m.where[Victim(m, a)].Ram?
    && InStorage(m.ram, m.where[Victim(m, a)].f) && m.swpFree != [] && InStorage(m.swp, m.swpFree[0])
  }

  /** Copy the victim to the first free swap frame; its RAM frame becomes free. */
  function Evict(m: Mem, a: nat): (r: Mem)
    requires Evictable(m, a)
  {
    var (vic, s) := (Victim(m, a), m.swpFree[0]);
    var f := m.where[vic].f;
    m.(where := m.where[vic := Swp(s)], ramFree := [f] + m.ramFree, swpFree := m.swpFree[1..],
       swp := CopyFrame(m.ram, f, m.swp, s), fifo := m.fifo[a := m.fifo[a][..|m.fifo[a]| - 1]])
  }

  /** A fault for process a can be served. */
  predicate CanServe(m: Mem, a: nat)
    requires a < |m.fifo|
  {
    m.ramFree != [] || (m.fifo[a] != [] && m.swpFree != [])
  }

  /** pg_getpage on a page that is swapped out. */
  ghost function Fault(m: Mem, pg: Page): (r: Mem)
    requires Inv(m) && Out(m, pg) && CanServe(m, pg.0)
  {
    if m.ramFree != [] then PageIn(m, pg)
    else
      EvictKeeps(m, pg.0);
      PageIn(Evict(m, pg.0), pg)
  }

  /** pg_getpage: bring a mapped page in, if that is possible. */
  ghost function Fetch(m: Mem, pg: Page): (r: Mem)
    requires Inv(m) && pg in m.where
  {
    if m.where[pg].Ram? || !CanServe(m, pg.0) then m else Fault(m, pg)
  }

  lemma PageInInv(m: Mem, pg: Page)
    requires Inv(m) && Out(m, pg) && m.ramFree != []
    ensures InStorage(m.ram, m.ramFree[0])
    ensures Inv(PageIn(m, pg)) && PageIn(m, pg).where[pg].Ram?
  {
    TailFree(m.ramFree, m.ram, MAX_FPN);
    ResizedFree(m.ramFree[1..], m.ram, PageIn(m, pg).ram, MAX_FPN);
    PushFifo(m.where, m.fifo, pg, m.ramFree[0]);
  }

  lemma PageInFlat(m: Mem, pg: Page)
    requires Inv(m) && Out(m, pg) && m.ramFree != [] && InStorage(m.ram, m.ramFree[0]) && Inv(PageIn(m, pg))
    ensures Flat(PageIn(m, pg)) == Flat(m)
  {
    hide Inv, Flat, LocOk, Content;
    LocsAreOk(m);
    PageInStays(m, pg);
    var n := PageIn(m, pg);
    LocsAreOk(n);
    forall pg' | pg' in m.where
      ensures Content(n, n.where[pg']) == Content(m, m.where[pg'])
    {
      PageInContent(m, pg, pg');
    }
    SameFlat(m, n);
  }

  lemma PageInStays(m: Mem, pg: Page)
    requires Inv(m) && Out(m, pg)
    ensures InStorage(m.swp, m.where[pg].f) && pg.0 < |m.fifo|
  {
    assert LocOk(m, m.where[pg]);
  }

  lemma LocsAreOk(m: Mem)
    requires Inv(m)
    ensures forall pg :: pg in m.where ==> LocOk(m, m.where[pg])
  {
  }

  lemma SameFlat(m: Mem, n: Mem)
    requires Inv(m) && Inv(n) && n.where.Keys == m.where.Keys
    requires forall pg :: pg in m.where ==>
      LocOk(m, m.where[pg]) && LocOk(n, n.where[pg]) && Content(n, n.where[pg]) == Content(m, m.where[pg])
    ensures Flat(n) == Flat(m)
  {
    hide Inv, LocOk, Content;
  }

  lemma PageInContent(m: Mem, pg: Page, pg': Page)
    requires pg in m.where && m.where[pg].Swp? && LocOk(m, m.where[pg]) && pg.0 < |m.fifo|
    requires m.ramFree != [] && InStorage(m.ram, m.ramFree[0])
    requires pg' in m.where && LocOk(m, m.where[pg']) && LocOk(PageIn(m, pg), PageIn(m, pg).where[pg'])
    ensures Content(PageIn(m, pg), PageIn(m, pg).where[pg']) == Content(m, m.where[pg'])
  {
    var l := PageIn(m, pg).where[pg'];
    if l.Ram? { CopyChangesOneFrame(m.swp, m.where[pg].f, m.ram, m.ramFree[0], l.f); }
  }

  /** An eviction has all it needs unless there is no victim or no swap frame. */
  predicate EvictSafe(m: Mem, a: nat)
    requires a < |m.fifo|
  {
    m.fifo[a] != [] && m.swpFree != [] ==> Evictable(m, a) && Victim(m, a).1 < MAX_PGN && m.swpFree[0] < MAX_SWPOFF
  }

  lemma EvictIsSafe(m: Mem, a: nat)
    requires Inv(m) && a < |m.fifo|
    ensures EvictSafe(m, a)
  {
    if m.fifo[a] != [] && m.swpFree != [] {
      assert Victim(m, a).1 in m.fifo[a];
      assert Victim(m, a) in m.where && LocOk(m, m.where[Victim(m, a)]);
      assert m.swpFree[0] in m.swpFree;
    }
  }

  lemma EvictInv(m: Mem, a: nat)
    requires Inv(m) && a < |m.fifo| && m.fifo[a] != [] && m.swpFree != []
    ensures Victim(m, a) in m.where && m.where[Victim(m, a)].Ram? && InStorage(m.swp, m.swpFree[0])
    ensures Inv(Evict(m, a)) && Evict(m, a).ramFree != []
  {
    PopFifo(m.where, m.fifo, a, m.swpFree[0]);
    TailFree(m.swpFree, m.swp, MAX_SWPOFF);
    assert LocOk(m, m.where[Victim(m, a)]);
    var n := Evict(m, a);
    ResizedFree(m.swpFree[1..], m.swp, n.swp, MAX_SWPOFF);
    assert FreeOk(n.ramFree, n.ram, MAX_FPN);
    forall pg | pg in n.where
      ensures LocOk(n, n.where[pg])
    {
      assert LocOk(m, m.where[pg]);
    }
    assert PagesOk(n);
  }

  lemma EvictFlat(m: Mem, a: nat)
    requires Inv(m) && a < |m.fifo| && m.fifo[a] != [] && m.swpFree != []
    requires Victim(m, a) in m.where && m.where[Victim(m, a)].Ram? && InStorage(m.swp, m.swpFree[0]) && Inv(Evict(m, a))
    ensures Flat(Evict(m, a)) == Flat(m)
  {
    hide Inv, Flat, LocOk, Content;
    EvictIsSafe(m, a);
    var n := Evict(m, a);
    LocsAreOk(m);
    LocsAreOk(n);
    forall pg | pg in m.where
      ensures Content(n, n.where[pg]) == Content(m, m.where[pg])
    {
      EvictContent(m, a, pg);
    }
    SameFlat(m, n);
  }

  lemma EvictContent(m: Mem, a: nat, pg: Page)
    requires Evictable(m, a) && pg in m.where && LocOk(m, m.where[pg])
    requires LocOk(Evict(m, a), Evict(m, a).where[pg])
    ensures Content(Evict(m, a), Evict(m, a).where[pg]) == Content(m, m.where[pg])
  {
    var l := Evict(m, a).where[pg];
    if l.Swp? { CopyChangesOneFrame(m.ram, m.where[Victim(m, a)].f, m.swp, m.swpFree[0], l.f); }
  }

  lemma EvictKeeps(m: Mem, a: nat)
    requires Inv(m) && a < |m.fifo| && m.fifo[a] != [] && m.swpFree != []
    ensures Victim(m, a) in m.where && m.where[Victim(m, a)].Ram?
    ensures Inv(Evict(m, a)) && Flat(Evict(m, a)) == Flat(m) && Evict(m, a).ramFree != []
    ensures forall pg :: Out(m, pg) ==> Out(Evict(m, a), pg)
  {
    EvictInv(m, a);
    EvictFlat(m, a);
  }

  /** Faults and evictions are invisible: they keep the invariant and the flat memory, and a
      fetched page is resident exactly when it was or its fault could be served. */
  lemma FetchIsInvisible(m: Mem, pg: Page)
    requires Inv(m) && pg in m.where
    ensures Inv(Fetch(m, pg)) && Flat(Fetch(m, pg)) == Flat(m) && pg in Fetch(m, pg).where
    ensures Fetch(m, pg).where[pg].Ram? <==> m.where[pg].Ram? || CanServe(m, pg.0)
    ensures Fetch(m, pg).where.Keys == m.where.Keys && |Fetch(m, pg).fifo| == |m.fifo|
  {
    if m.where[pg].Swp? && CanServe(m, pg.0) {
      if m.ramFree != [] {
        PageInInv(m, pg);
        PageInFlat(m, pg);
      } else {
        EvictKeeps(m, pg.0);
        PageInInv(Evict(m, pg.0), pg);
        PageInFlat(Evict(m, pg.0), pg);
      }
    }
  }

  // ---- Bytes ---------------------------------------------------------------------------

  function WriteByte(m: Mem, pg: Page, off: nat, b: Byte): (r: Mem)
    requires pg in m.where && m.where[pg].Ram? && InStorage(m.ram, m.where[pg].f) && off < PAGESZ
  {
    m.(ram := m.ram[m.where[pg].f * PAGESZ + off := b])
  }

  lemma WriteInv(m: Mem, pg: Page, off: nat, b: Byte)
    requires Inv(m) && pg in m.where && m.where[pg].Ram? && InStorage(m.ram, m.where[pg].f) && off < PAGESZ
    ensures Inv(WriteByte(m, pg, off, b))
  {
    var n := WriteByte(m, pg, off, b);
    ResizedFree(m.ramFree, m.ram, n.ram, MAX_FPN);
    assert forall pg' :: pg' in m.where ==> LocOk(m, m.where[pg']);
    assert PagesOk(n);
  }

  lemma WriteContent(m: Mem, pg: Page, off: nat, b: Byte, l: Loc)
    requires pg in m.where && m.where[pg].Ram? && InStorage(m.ram, m.where[pg].f) && off < PAGESZ && LocOk(m, l)
    ensures LocOk(WriteByte(m, pg, off, b), l)
    ensures Content(WriteByte(m, pg, off, b), l) == if l == m.where[pg] then Content(m, l)[off := b] else Content(m, l)
  {
    if l.Ram? { OneByte(m.ram, m.where[pg].f, off, b, l.f); }
  }

  lemma WriteKeeps(m: Mem, pg: Page, off: nat, b: Byte)
    requires Inv(m) && pg in m.where && m.where[pg].Ram? && off < PAGESZ
    ensures Inv(WriteByte(m, pg, off, b))
    ensures Flat(WriteByte(m, pg, off, b)) == Flat(m)[pg := Flat(m)[pg][off := b]]
  {
    assert LocOk(m, m.where[pg]);
    WriteInv(m, pg, off, b);
    forall pg' | pg' in m.where
      ensures Flat(WriteByte(m, pg, off, b))[pg'] == if pg' == pg then Flat(m)[pg][off := b] else Flat(m)[pg']
    {
      WriteContent(m, pg, off, b, m.where[pg']);
      assert m.where[pg'] == m.where[pg] ==> pg' == pg;
    }
  }

  lemma OneByte(ram: seq<Byte>, f: int, off: nat, b: Byte, g: int)
    requires InStorage(ram, f) && off < PAGESZ && InStorage(ram, g)
    ensures FrameOf(ram[f * PAGESZ + off := b], g) == if f == g then FrameOf(ram, f)[off := b] else FrameOf(ram, g)
  {
    var r := ram[f * PAGESZ + off := b];
    forall k | 0 <= k < PAGESZ
      ensures FrameOf(r, g)[k] == (if f == g then FrameOf(ram, f)[off := b] else FrameOf(ram, g))[k]
    {
      assert FrameOf(r, g)[k] == r[g * PAGESZ + k];
    }
  }

  /** The bytes of a resident page lie inside RAM. */
  lemma ResidentBytes(m: Mem, pg: Page, off: nat)
    requires Inv(m) && pg in m.where && m.where[pg].Ram? && off < PAGESZ
    ensures 0 <= m.where[pg].f * PAGESZ + off < |m.ram|
  {
    assert LocOk(m, m.where[pg]);
  }

  lemma ReadIsFlat(m: Mem, pg: Page, off: nat)
    requires Inv(m) && pg in m.where && m.where[pg].Ram? && off < PAGESZ
    ensures m.where[pg].f * PAGESZ + off < |m.ram|
    ensures m.ram[m.where[pg].f * PAGESZ + off] == Flat(m)[pg][off]
  {
  }

  // ---- Mapping -------------------------------------------------------------------------

  /** Give an unmapped page the RAM frame f, just taken from the free list. */
  function MapPage(m: Mem, pg: Page, f: int): (r: Mem)
    requires pg.0 < |m.fifo|
  {
    m.(where := m.where[pg := Ram(f)], fifo := m.fifo[pg.0 := [pg.1] + m.fifo[pg.0]])
  }

  /** Frames that are neither free nor mapped. */
  ghost predicate Spare(m: Mem, f: int) {
    && InStorage(m.ram, f) && f < MAX_FPN && f !in m.ramFree
    && forall pg :: pg in m.where ==> m.where[pg] != Ram(f)
  }

  /** alloc_pages_range: the first n free frames, or all there are when they are too few; those
      are then lost, as the source gives none of them back. */
  function TakeFrames(m: Mem, n: nat): (r: Mem) {
    m.(ramFree := m.ramFree[if n <= |m.ramFree| then n else |m.ramFree|..])
  }

  /** Frames in the order in which a list that grows at its head holds them. */
  function Backwards(q: seq<int>): (r: seq<int>)
    ensures |r| == |q| && forall i :: 0 <= i < |q| ==> r[i] == q[|q| - 1 - i]
  {
    if q == [] then [] else Backwards(q[1..]) + [q[0]]
  }

  lemma BackwardsOneMore(q: seq<int>, k: nat)
    requires k < |q|
    ensures Backwards(q[..k + 1]) == [q[k]] + Backwards(q[..k])
  {
  }

  ghost predicate AllSpare(m: Mem, frames: seq<int>) {
    Distinct(frames) && forall f :: f in frames ==> Spare(m, f)
  }

  ghost predicate Unmapped(m: Mem, a: nat, p: nat, n: nat) {
    a < |m.fifo| && p + n <= MAX_PGN && forall i :: p <= i < p + n ==> (a, i) !in m.where
  }

  lemma TakeFramesKeeps(m: Mem, n: nat)
    requires Inv(m)
    ensures Inv(TakeFrames(m, n)) && Flat(TakeFrames(m, n)) == Flat(m)
    ensures n <= |m.ramFree| ==> AllSpare(TakeFrames(m, n), Backwards(m.ramFree[..n]))
  {
    var t, k := TakeFrames(m, n), if n <= |m.ramFree| then n else |m.ramFree|;
    assert m.ramFree == m.ramFree[..k] + m.ramFree[k..];
    assert forall f :: f in m.ramFree[k..] ==> f in m.ramFree;
    forall pg | pg in m.where
      ensures LocOk(t, t.where[pg]) && Content(t, t.where[pg]) == Content(m, m.where[pg])
    {
      assert LocOk(m, m.where[pg]);
    }
    assert PagesOk(t);
    if n <= |m.ramFree| { TakenAreSpare(m, n); }
  }

  lemma TakenAreSpare(m: Mem, n: nat)
    requires Inv(m) && n <= |m.ramFree|
    ensures AllSpare(TakeFrames(m, n), Backwards(m.ramFree[..n]))
  {
    var t, frames := TakeFrames(m, n), Backwards(m.ramFree[..n]);
    assert forall i, j :: 0 <= i < j < n ==> m.ramFree[i] != m.ramFree[j];
    forall f | f in frames
      ensures Spare(t, f)
    {
      var i :| 0 <= i < n && frames[i] == f;
      assert f == m.ramFree[n - 1 - i] && f in m.ramFree;
      assert f !in t.ramFree;
      assert forall pg :: pg in m.where ==> LocOk(m, m.where[pg]);
    }
  }

  /** vmap_page_range with an entry for each page: frame after frame, page after page. */
  function MapAll(m: Mem, a: nat, p: nat, frames: seq<int>): (n: Mem)
    requires a < |m.fifo|
    ensures |n.fifo| == |m.fifo| && n.ram == m.ram && n.swp == m.swp && n.ramFree == m.ramFree && n.swpFree == m.swpFree
    decreases |frames|
  {
    if frames == [] then m else MapAll(MapPage(m, (a, p), frames[0]), a, p + 1, frames[1..])
  }

  /** vm_map_ram: n new pages of process a from page p on, if there are n free frames. */
  function Grow(m: Mem, a: nat, p: nat, n: nat): (r: Mem)
    requires a < |m.fifo|
  {
    if n <= |m.ramFree| then MapAll(TakeFrames(m, n), a, p, Backwards(m.ramFree[..n])) else TakeFrames(m, n)
  }

  lemma MapInv(m: Mem, pg: Page, f: int)
    requires Inv(m) && Spare(m, f) && pg !in m.where && pg.0 < |m.fifo| && pg.1 < MAX_PGN
    ensures Inv(MapPage(m, pg, f))
  {
    var n := MapPage(m, pg, f);
    PushFifo(m.where, m.fifo, pg, f);
    forall pg' | pg' in n.where
      ensures LocOk(n, n.where[pg'])
    {
      if pg' != pg { assert LocOk(m, m.where[pg']); }
    }
    assert PagesOk(n);
  }

  lemma MapOneStaysSpare(m: Mem, pg: Page, frames: seq<int>)
    requires frames != [] && AllSpare(m, frames) && pg.0 < |m.fifo|
    ensures AllSpare(MapPage(m, pg, frames[0]), frames[1..])
  {
    forall i, j | 0 <= i < j < |frames| - 1
      ensures frames[1..][i] != frames[1..][j]
    {
      assert frames[i + 1] != frames[j + 1];
    }
    forall f | f in frames[1..]
      ensures Spare(MapPage(m, pg, frames[0]), f)
    {
      assert f in frames && f != frames[0];
    }
  }

  /** Page p + i goes to frame i of the list, and no other page moves. */
  lemma {:induction false} MapAllPlaces(m: Mem, a: nat, p: nat, frames: seq<int>, pg: Page)
    requires a < |m.fifo|
    ensures var n := MapAll(m, a, p, frames);
      if pg.0 == a && p <= pg.1 < p + |frames| then pg in n.where && n.where[pg] == Ram(frames[pg.1 - p])
      else (pg in n.where <==> pg in m.where) && (pg in m.where ==> n.where[pg] == m.where[pg])
    decreases |frames|
  {
    if frames == [] {
    } else {
      MapAllPlaces(MapPage(m, (a, p), frames[0]), a, p + 1, frames[1..], pg);
    }
  }

  lemma MapOneStaysUnmapped(m: Mem, a: nat, p: nat, n: nat, f: int)
    requires Unmapped(m, a, p, n) && n > 0
    ensures Unmapped(MapPage(m, (a, p), f), a, p + 1, n - 1)
  {
  }

  lemma FirstIsMappable(m: Mem, a: nat, p: nat, frames: seq<int>)
    requires AllSpare(m, frames) && Unmapped(m, a, p, |frames|) && frames != []
    ensures Spare(m, frames[0]) && a < |m.fifo| && (a, p) !in m.where && p < MAX_PGN
  {
    assert frames[0] in frames;
  }

  lemma {:induction false} MapAllInv(m: Mem, a: nat, p: nat, frames: seq<int>)
    requires Inv(m) && AllSpare(m, frames) && Unmapped(m, a, p, |frames|)
    ensures Inv(MapAll(m, a, p, frames))
    decreases |frames|
  {
    hide Inv, AllSpare, Unmapped, Spare, Distinct;
    if frames == [] {
    } else {
      FirstIsMappable(m, a, p, frames);
      MapInv(m, (a, p), frames[0]);
      MapOneStaysSpare(m, (a, p), frames);
      MapOneStaysUnmapped(m, a, p, |frames|, frames[0]);
      MapAllInv(MapPage(m, (a, p), frames[0]), a, p + 1, frames[1..]);
    }
  }

  /** Mapping adds exactly the pages asked for, or none; other pages keep their contents. */
  lemma GrowKeeps(m: Mem, a: nat, p: nat, n: nat)
    requires Inv(m) && Unmapped(m, a, p, n)
    ensures var g := Grow(m, a, p, n);
      && Inv(g)
      && (forall pg :: pg in g.where <==> pg in m.where || (n <= |m.ramFree| && pg.0 == a && p <= pg.1 < p + n))
      && (forall pg :: pg in m.where ==> Flat(g)[pg] == Flat(m)[pg])
  {
    TakeFramesKeeps(m, n);
    if n <= |m.ramFree| {
      var t, frames := TakeFrames(m, n), Backwards(m.ramFree[..n]);
      MapAllInv(t, a, p, frames);
      GrowPlaces(m, a, p, n);
      forall pg | pg in m.where
        ensures Flat(Grow(m, a, p, n))[pg] == Flat(m)[pg]
      {
        assert Grow(m, a, p, n).where[pg] == m.where[pg];
      }
    }
  }

  lemma GrowPlaces(m: Mem, a: nat, p: nat, n: nat)
    requires n <= |m.ramFree| && Unmapped(m, a, p, n)
    ensures var g := Grow(m, a, p, n);
      && (forall pg :: pg in g.where <==> pg in m.where || (pg.0 == a && p <= pg.1 < p + n))
      && (forall pg :: pg in m.where ==> g.where[pg] == m.where[pg])
  {
    var t, frames := TakeFrames(m, n), Backwards(m.ramFree[..n]);
    forall pg
      ensures pg in MapAll(t, a, p, frames).where <==> pg in m.where || (pg.0 == a && p <= pg.1 < p + n)
      ensures pg in m.where ==> pg in MapAll(t, a, p, frames).where && MapAll(t, a, p, frames).where[pg] == m.where[pg]
    {
      MapAllPlaces(t, a, p, frames, pg);
    }
  }

  // ---- A fault, step by step -----------------------------------------------------------

  ghost predicate CanBring(m: Mem, pg: Page, tgt: int, f: int) {
    InStorage(m.swp, tgt) && InStorage(m.ram, f) && pg.0 < |m.fifo| && 0 <= f < MAX_FPN
  }

  /** Swap frame tgt copied to RAM frame f, and the page there. */
  ghost function Bring(m: Mem, pg: Page, tgt: int, f: int): (n: Mem)
    requires CanBring(m, pg, tgt, f)
  {
    MapPage(m.(ram := CopyFrame(m.swp, tgt, m.ram, f)), pg, f)
  }

  lemma PageInBrings(m: Mem, pg: Page)
    requires Inv(m) && Out(m, pg) && m.ramFree != []
    ensures var t := m.(ramFree := m.ramFree[1..]);
      && InStorage(m.ram, m.ramFree[0]) && CanBring(t, pg, m.where[pg].f, m.ramFree[0])
      && PageIn(m, pg) == Bring(t, pg, m.where[pg].f, m.ramFree[0])
  {
    assert LocOk(m, m.where[pg]) && m.ramFree[0] in m.ramFree;
  }

  /** What pg_getpage has to do in each case. */
  lemma FetchForms(m: Mem, pg: Page)
    requires Inv(m) && pg in m.where
    ensures pg.0 < |m.fifo| && pg.1 < MAX_PGN
    ensures m.where[pg].Ram? || !CanServe(m, pg.0) ==> Fetch(m, pg) == m
    ensures Out(m, pg) && m.ramFree != [] ==>
      && CanBring(m.(ramFree := m.ramFree[1..]), pg, m.where[pg].f, m.ramFree[0])
      && Fetch(m, pg) == Bring(m.(ramFree := m.ramFree[1..]), pg, m.where[pg].f, m.ramFree[0])
    ensures Out(m, pg) && m.ramFree == [] && CanServe(m, pg.0) ==> Evictable(m, pg.0)
    ensures Out(m, pg) && m.ramFree == [] && CanServe(m, pg.0) ==>
      var e := Evict(m, pg.0);
      && |e.ramFree| == 1 && CanBring(e.(ramFree := []), pg, m.where[pg].f, e.ramFree[0])
      && Fetch(m, pg) == Bring(e.(ramFree := []), pg, m.where[pg].f, e.ramFree[0])
  {
    hide FifoOk, FreeOk, Flat, Bring, PageIn;
    if Out(m, pg) && CanServe(m, pg.0) {
      if m.ramFree != [] {
        PageInBrings(m, pg);
      } else {
        EvictKeeps(m, pg.0);
        PageInBrings(Evict(m, pg.0), pg);
        OutStaysPut(m, pg);
      }
    }
  }

  lemma FrameOrNone(m: Mem, a: nat)
    requires a < |m.fifo| && m.ramFree != []
    ensures CanServe(m, a)
  {
  }

  lemma OutStaysPut(m: Mem, pg: Page)
    requires Evictable(m, pg.0) && Out(m, pg)
    ensures pg in Evict(m, pg.0).where && Evict(m, pg.0).where[pg] == m.where[pg]
    ensures m.ramFree == [] ==> Evict(m, pg.0).ramFree[1..] == []
  {
  }

  // ---- Whole runs ----------------------------------------------------------------------

  datatype Access =
    | Load(pg: Page, off: nat)
    | Store(pg: Page, off: nat, b: Byte)
    | Expel(a: nat)                   // an eviction at any moment
    | Map(a: nat, p: nat, n: nat)     // n new pages of process a from page p on

  ghost predicate Legal(m: Mem, x: Access) {
    match x
    case Load(pg, off) => pg in m.where && off < PAGESZ
    case Store(pg, off, _) => pg in m.where && off < PAGESZ
    case Expel(a) => a < |m.fifo| && m.fifo[a] != [] && m.swpFree != []
    case Map(a, p, n) => Unmapped(m, a, p, n)
  }

  /** The paged memory after one access, and the byte a successful load returned. */
  ghost function DoPaged(m: Mem, x: Access): (r: (Mem, Option<Byte>))
    requires Inv(m) && Legal(m, x)
    ensures Inv(r.0)
  {
    match x
    case Load(pg, off) =>
      FetchIsInvisible(m, pg);
      var n := Fetch(m, pg);
      if n.where[pg].Ram? then (n, Some(n.ram[n.where[pg].f * PAGESZ + off])) else (n, None)
    case Store(pg, off, b) =>
      FetchIsInvisible(m, pg);
      var n := Fetch(m, pg);
      if n.where[pg].Ram? then WriteKeeps(n, pg, off, b); (WriteByte(n, pg, off, b), None) else (n, None)
    case Expel(a) =>
      EvictKeeps(m, a);
      (Evict(m, a), None)
    case Map(a, p, n) =>
      GrowKeeps(m, a, p, n);
      (Grow(m, a, p, n), None)
  }

  /** n is m after a load that returned `out`; a page that was never mapped is refused. */
  ghost predicate Loaded(m: Mem, n: Mem, pg: Page, off: nat, out: Option<Byte>)
    requires Inv(m)
  {
    if pg in m.where then Legal(m, Load(pg, off)) && (n, out) == DoPaged(m, Load(pg, off))
    else n == m && out == None
  }

  ghost predicate Stored(m: Mem, n: Mem, pg: Page, off: nat, b: Byte, ok: bool)
    requires Inv(m)
  {
    if pg in m.where
    then Legal(m, Store(pg, off, b)) && n == DoPaged(m, Store(pg, off, b)).0 && ok == Served(m, Store(pg, off, b))
    else n == m && !ok
  }

  lemma LoadedMeans(m: Mem, pg: Page, off: nat)
    requires Inv(m)
    ensures pg in m.where && Legal(m, Load(pg, off))
      ==> Loaded(m, DoPaged(m, Load(pg, off)).0, pg, off, DoPaged(m, Load(pg, off)).1)
    ensures pg !in m.where ==> Loaded(m, m, pg, off, None)
  {
  }

  lemma StoredMeans(m: Mem, pg: Page, off: nat, b: Byte)
    requires Inv(m)
    ensures pg in m.where && Legal(m, Store(pg, off, b))
      ==> Stored(m, DoPaged(m, Store(pg, off, b)).0, pg, off, b, Served(m, Store(pg, off, b)))
    ensures pg !in m.where ==> Stored(m, m, pg, off, b, false)
  {
  }

  lemma FetchThenLoad(m: Mem, pg: Page, off: nat)
    requires Inv(m) && pg in m.where && off < PAGESZ
    ensures var n := Fetch(m, pg);
      && pg in n.where && Legal(m, Load(pg, off))
      && if n.where[pg].Ram?
         then 0 <= n.where[pg].f * PAGESZ + off < |n.ram|
              && DoPaged(m, Load(pg, off)) == (n, Some(n.ram[n.where[pg].f * PAGESZ + off]))
         else DoPaged(m, Load(pg, off)) == (n, None)
  {
    hide Inv, Fetch, Flat;
    FetchIsInvisible(m, pg);
    if Fetch(m, pg).where[pg].Ram? { ResidentBytes(Fetch(m, pg), pg, off); }
  }

  lemma FetchThenStore(m: Mem, pg: Page, off: nat, b: Byte)
    requires Inv(m) && pg in m.where && off < PAGESZ
    ensures var n := Fetch(m, pg);
      && pg in n.where && Legal(m, Store(pg, off, b))
      && (n.where[pg].Ram? <==> Served(m, Store(pg, off, b)))
      && if n.where[pg].Ram?
         then 0 <= n.where[pg].f * PAGESZ + off < |n.ram|
              && DoPaged(m, Store(pg, off, b)).0 == n.(ram := n.ram[n.where[pg].f * PAGESZ + off := b])
         else DoPaged(m, Store(pg, off, b)).0 == n
  {
    hide Inv, Fetch, Flat;
    FetchIsInvisible(m, pg);
    if Fetch(m, pg).where[pg].Ram? { ResidentBytes(Fetch(m, pg), pg, off); }
  }

  lemma AllocThenMap(m: Mem, a: nat, p: nat, n: nat)
    requires Inv(m) && Unmapped(m, a, p, n)
    ensures Legal(m, Map(a, p, n)) && a < |m.fifo| && p + n <= MAX_PGN
    ensures if n <= |m.ramFree|
      then DoPaged(m, Map(a, p, n)).0 == MapAll(TakeFrames(m, n), a, p, Backwards(m.ramFree[..n]))
           && forall f :: f in Backwards(m.ramFree[..n]) ==> 0 <= f < MAX_FPN
      else DoPaged(m, Map(a, p, n)).0 == TakeFrames(m, n)
  {
    if n <= |m.ramFree| {
      forall f | f in Backwards(m.ramFree[..n])
        ensures 0 <= f < MAX_FPN
      {
        var i :| 0 <= i < n && Backwards(m.ramFree[..n])[i] == f;
        assert m.ramFree[n - 1 - i] in m.ramFree;
      }
    }
  }

  /** The same access on the flat memory; `served` tells whether it was carried out. */
  ghost function DoFlat(flat: map<Page, seq<Byte>>, x: Access, served: bool): (r: map<Page, seq<Byte>>)
    ensures r.Keys == flat.Keys
  {
    if x.Store? && served && x.pg in flat && x.off < |flat[x.pg]|
    then flat[x.pg := flat[x.pg][x.off := x.b]] else flat
  }

  /** And the byte that it returns. */
  ghost function ReadFlat(flat: map<Page, seq<Byte>>, x: Access, served: bool): (r: Option<Byte>) {
    if x.Load? && served && x.pg in flat && x.off < |flat[x.pg]| then Some(flat[x.pg][x.off]) else None
  }

  ghost predicate Served(m: Mem, x: Access)
    requires Inv(m) && Legal(m, x)
  {
    match x
    case Load(pg, _) => m.where[pg].Ram? || CanServe(m, pg.0)
    case Store(pg, _, _) => m.where[pg].Ram? || CanServe(m, pg.0)
    case Expel(_) => true
    case Map(_, _, n) => n <= |m.ramFree|
  }

  /** Page pg is one that the access maps. */
  ghost predicate Added(m: Mem, x: Access, pg: Page)
    requires Inv(m) && Legal(m, x)
  {
    x.Map? && Served(m, x) && pg.0 == x.a && x.p <= pg.1 < x.p + x.n
  }

  lemma LoadRefinesFlat(m: Mem, pg: Page, off: nat)
    requires Inv(m) && pg in m.where && off < PAGESZ
    ensures var (n, out) := DoPaged(m, Load(pg, off));
      && Flat(n) == Flat(m) && n.where.Keys == m.where.Keys
      && out == if Served(m, Load(pg, off)) then Some(Flat(m)[pg][off]) else None
  {
    hide Inv, Fetch, DoPaged, Flat, CanServe;
    FetchIsInvisible(m, pg);
    FetchThenLoad(m, pg, off);
    var n := Fetch(m, pg);
    if n.where[pg].Ram? { ReadIsFlat(n, pg, off); }
  }

  lemma StoreRefinesFlat(m: Mem, pg: Page, off: nat, b: Byte)
    requires Inv(m) && pg in m.where && off < PAGESZ
    ensures var n := DoPaged(m, Store(pg, off, b)).0;
      && Flat(n) == (if Served(m, Store(pg, off, b)) then Flat(m)[pg := Flat(m)[pg][off := b]] else Flat(m))
      && n.where.Keys == m.where.Keys
  {
    FetchIsInvisible(m, pg);
    if Served(m, Store(pg, off, b)) { WriteKeeps(Fetch(m, pg), pg, off, b); }
  }

  /** Each access does to the flat memory what it says, and nothing else: the pages that are
      mapped keep their bytes but for the one stored, and only a mapping adds pages. */
  lemma AccessRefinesFlat(m: Mem, x: Access)
    requires Inv(m) && Legal(m, x)
    ensures var (n, out) := DoPaged(m, x);
      && (forall pg :: pg in n.where <==> pg in m.where || Added(m, x, pg))
      && (forall pg :: pg in m.where ==> Flat(n)[pg] == DoFlat(Flat(m), x, Served(m, x))[pg])
      && out == ReadFlat(Flat(m), x, Served(m, x))
  {
    match x
    case Load(pg, off) => LoadRefinesFlat(m, pg, off);
    case Store(pg, off, b) => StoreRefinesFlat(m, pg, off, b);
    case Expel(a) => EvictKeeps(m, a);
    case Map(a, p, n) => GrowKeeps(m, a, p, n);
  }

  lemma ProcessesStay(m: Mem, x: Access)
    requires Inv(m) && Legal(m, x)
    ensures |DoPaged(m, x).0.fifo| == |m.fifo|
  {
    match x
    case Load(pg, _) => FetchIsInvisible(m, pg);
    case Store(pg, _, _) => FetchIsInvisible(m, pg);
    case Expel(_) =>
    case Map(_, _, _) =>
  }

  ghost predicate AllLegal(m: Mem, xs: seq<Access>)
    requires Inv(m)
    decreases |xs|
  {
    xs == [] || (Legal(m, xs[0]) && AllLegal(DoPaged(m, xs[0]).0, xs[1..]))
  }

  ghost function EndOf(m: Mem, xs: seq<Access>): (n: Mem)
    requires Inv(m) && AllLegal(m, xs)
    ensures Inv(n)
    decreases |xs|
  {
    if xs == [] then m else EndOf(DoPaged(m, xs[0]).0, xs[1..])
  }

  /** The last byte stored at (pg, off) by an access that was served, else `init`. */
  ghost function LastStored(m: Mem, xs: seq<Access>, pg: Page, off: nat, init: Byte): (r: Byte)
    requires Inv(m) && AllLegal(m, xs)
    decreases |xs|
  {
    if xs == [] then init
    else
      var x := xs[0];
      LastStored(DoPaged(m, x).0, xs[1..], pg, off,
                 if x.Store? && x.pg == pg && x.off == off && Served(m, x) then x.b else init)
  }

  lemma FlatIsFull(m: Mem, pg: Page)
    requires Inv(m) && pg in m.where
    ensures |Flat(m)[pg]| == PAGESZ
  {
  }

  lemma StoreIsSeen(m: Mem, x: Access, pg: Page, off: nat)
    requires Inv(m) && Legal(m, x) && pg in m.where && off < PAGESZ
    ensures var n := DoPaged(m, x).0;
      && pg in n.where
      && Flat(n)[pg][off] == if x.Store? && x.pg == pg && x.off == off && Served(m, x) then x.b else Flat(m)[pg][off]
  {
    hide Inv, DoPaged, Flat, Legal, Served;
    FlatIsFull(m, pg);
    AccessRefinesFlat(m, x);
  }

  /** Paging is transparent: after any sequence of loads, stores, faults, evictions and mappings
      by any processes, a load of a byte that was mapped at the start returns the last byte
      stored there, or fails because no frame can be had; the invariant is kept. */
  lemma {:induction false} PagingIsTransparent(m: Mem, xs: seq<Access>, pg: Page, off: nat)
    requires Inv(m) && AllLegal(m, xs) && pg in m.where && off < PAGESZ
    ensures var n := EndOf(m, xs);
      && Inv(n) && Legal(n, Load(pg, off))
      && Flat(n)[pg][off] == LastStored(m, xs, pg, off, Flat(m)[pg][off])
      && DoPaged(n, Load(pg, off)).1
         == if Served(n, Load(pg, off)) then Some(LastStored(m, xs, pg, off, Flat(m)[pg][off])) else None
    decreases |xs|
  {
    if xs == [] {
      AccessRefinesFlat(m, Load(pg, off));
    } else {
      StoreIsSeen(m, xs[0], pg, off);
      PagingIsTransparent(DoPaged(m, xs[0]).0, xs[1..], pg, off);
    }
  }
}
