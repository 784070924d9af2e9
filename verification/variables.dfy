/** A process's variables: the allocator of mm-vm.c on top of paging. __alloc maps the pages
    its regions lie on, __read and __write reach them through the page table. */
module Variables {
  import opened Options
  import opened Geometry
  import opened Frames
  import opened PagingSpec
  import Heaps = RegionSpec
  import Address

  /** The heap of one process and the memory of the machine. */
  datatype Space = Space(heap: Heaps.Heap, mem: Mem)

  datatype Op =
    | Reserve(id: nat, size: nat)              // __alloc
    | Release(rgid: int)                       // __free
    | Read(rgid: int, off: nat)                // __read
    | Write(rgid: int, off: nat, b: Byte)      // __write
    | Elsewhere(x: Access)                     // another process, or an eviction

  /** Process a has exactly the pages below its break, and its regions share no byte of them. */
  ghost predicate SpaceOk(a: nat, s: Space) {
    && Heaps.Packed(s.heap) && s.heap.start == 0
    && Inv(s.mem) && a < |s.mem.fifo|
    && forall p: nat :: (a, p) in s.mem.where <==> p * PAGESZ < s.heap.sbrk
  }

  /** Where every process starts: init_mm for a process without a page. */
  lemma NewSpaceOk(a: nat, m: Mem)
    requires Inv(m) && a < |m.fifo| && forall p: nat :: (a, p) !in m.where
    ensures SpaceOk(a, Space(Heaps.Fresh(), m))
  {
    Heaps.FreshTiles();
    Heaps.TilesArePacked(Heaps.Fresh());
  }

  /** In particular on a machine with no page mapped. */
  lemma FirstSpaceOk(a: nat, ram: seq<Byte>, swp: seq<Byte>, n: nat)
    requires |ram| / PAGESZ <= MAX_FPN && |swp| / PAGESZ <= MAX_SWPOFF && a < n
    ensures SpaceOk(a, Space(Heaps.Fresh(), Blank(ram, swp, n)))
  {
    BlankInv(ram, swp, n);
    NewSpaceOk(a, Blank(ram, swp, n));
  }

  function PageOf(a: nat, addr: nat): (r: Page) { (a, addr / PAGESZ) }

  function OffsetOf(addr: nat): (r: nat) { addr % PAGESZ }

  predicate InVariable(h: Heaps.Heap, id: nat, off: nat) {
    id < |h.live| && h.live[id].start >= 0 && h.live[id].start + off < h.live[id].end
  }

  function AddressOf(h: Heaps.Heap, id: nat, off: nat): (r: nat)
    requires InVariable(h, id, off)
  {
    h.live[id].start + off
  }

  /** Ids that are allocated lie in the table, and the pages they need on the bus. */
  ghost predicate Allowed(a: nat, s: Space, op: Op) {
    match op
    case Reserve(id, size) =>
      && id < |s.heap.live|
      && (NeedsPages(s.heap, size) ==> s.heap.sbrk + Address.PageAlign(size) <= BUS_SPACE)
    case Release(_) => true
    case Read(_, _) => true
    case Write(_, _, _) => true
    case Elsewhere(x) =>
      Legal(s.mem, x) && match x
      case Load(pg, _) => pg.0 != a
      case Store(pg, _, _) => pg.0 != a
      case Expel(_) => true
      case Map(b, _, _) => b != a
  }

  /** The address that __read and __write go to: any offset is taken, and the bits beyond the bus
      are dropped. No address for an id outside the table. */
  function Target(h: Heaps.Heap, rgid: int, off: nat): (x: Option<nat>) {
    if 0 <= rgid < |h.live| then Some((h.live[rgid].start + off) % BUS_SPACE) else None
  }

  /** No free region holds `size` bytes, so __alloc must map pages. */
  predicate NeedsPages(h: Heaps.Heap, size: nat) { Heaps.Walk(h.free, size, true).1 == [] }

  function PagesFor(size: nat): (r: nat) { Address.PageAlign(size) / PAGESZ }

  /** The access to memory that an operation makes, if any: none through an id outside the table
      or at an address on no page. */
  function AccessOf(a: nat, s: Space, op: Op): (r: Option<Access>)
    requires s.heap.sbrk >= 0
  {
    match op
    case Reserve(_, size) =>
      if NeedsPages(s.heap, size) then Some(Map(a, s.heap.sbrk / PAGESZ, PagesFor(size))) else None
    case Release(_) => None
    case Read(rgid, off) =>
      (match Target(s.heap, rgid, off)
       case None => None
       case Some(x) => if PageOf(a, x) in s.mem.where then Some(Load(PageOf(a, x), OffsetOf(x))) else None)
    case Write(rgid, off, b) =>
      (match Target(s.heap, rgid, off)
       case None => None
       case Some(x) => if PageOf(a, x) in s.mem.where then Some(Store(PageOf(a, x), OffsetOf(x), b)) else None)
    case Elsewhere(x) => Some(x)
  }

  lemma Pages(n: int, p: int)
    ensures p * PAGESZ <= n <==> p <= n / PAGESZ
    ensures n % PAGESZ == 0 ==> (p * PAGESZ < n <==> p < n / PAGESZ)
  {
  }

  lemma AlignedSize(size: nat)
    ensures Address.PageAlign(size) == PagesFor(size) * PAGESZ
  {
    Heaps.PageAlignCovers(size);
  }

  lemma LiveLiesBelowBreak(h: Heaps.Heap, id: nat, off: nat)
    requires Heaps.Packed(h) && InVariable(h, id, off)
    ensures h.start <= AddressOf(h, id, off) < h.sbrk
  {
    var x := AddressOf(h, id, off);
    assert Heaps.CountsAtMost(h, x);
    Heaps.CountPositive(h.live, id, x);
  }

  lemma LiveIsOnMappedPage(h: Heaps.Heap, id: nat, off: nat)
    requires Heaps.Packed(h) && InVariable(h, id, off) && h.start == 0
    ensures AddressOf(h, id, off) / PAGESZ * PAGESZ < h.sbrk
  {
    LiveLiesBelowBreak(h, id, off);
    Pages(AddressOf(h, id, off), AddressOf(h, id, off) / PAGESZ);
  }

  /** An allocation that needs pages maps pages that were not there, and other operations access
      only pages that are: no operation makes an access that memory refuses. */
  lemma AccessesAreLegal(a: nat, s: Space, op: Op)
    requires SpaceOk(a, s) && Allowed(a, s, op)
    ensures AccessOf(a, s, op).Some? ==> Legal(s.mem, AccessOf(a, s, op).value)
  {
    match op
    case Reserve(_, size) =>
      AlignedSize(size);
      Pages(BUS_SPACE, s.heap.sbrk / PAGESZ + PagesFor(size));
      forall i | s.heap.sbrk / PAGESZ <= i < s.heap.sbrk / PAGESZ + PagesFor(size)
        ensures (a, i) !in s.mem.where
      {
        Pages(s.heap.sbrk, i);
      }
    case _ =>
  }

  function DoHeap(s: Space, op: Op): (r: Heaps.Heap)
    requires op.Reserve? ==> op.id < |s.heap.live|
    requires op.Release? ==> |s.heap.live| == Heaps.SYMTBL_SZ
  {
    match op
    case Reserve(id, size) => Heaps.Alloc(s.heap, id, size, PagesFor(size) <= |s.mem.ramFree|, false).0
    case Release(rgid) => Heaps.Free(s.heap, rgid).0
    case _ => s.heap
  }

  ghost function DoMem(a: nat, s: Space, op: Op): (r: (Mem, Option<Byte>))
    requires SpaceOk(a, s) && Allowed(a, s, op)
    ensures Inv(r.0)
  {
    AccessesAreLegal(a, s, op);
    match AccessOf(a, s, op)
    case None => (s.mem, None)
    case Some(x) => DoPaged(s.mem, x)
  }

  /** One operation of process a or of its surroundings, and the byte that a read returned. */
  ghost function Do(a: nat, s: Space, op: Op): (r: (Space, Option<Byte>))
    requires SpaceOk(a, s) && Allowed(a, s, op)
  {
    (Space(DoHeap(s, op), DoMem(a, s, op).0), DoMem(a, s, op).1)
  }

  /** The operation is an allocation that maps pages. */
  predicate Grows(s: Space, op: Op) {
    op.Reserve? && NeedsPages(s.heap, op.size) && PagesFor(op.size) <= |s.mem.ramFree|
  }

  lemma HeapStepOk(a: nat, s: Space, op: Op)
    requires SpaceOk(a, s) && Allowed(a, s, op)
    ensures Heaps.Packed(DoHeap(s, op)) && DoHeap(s, op).start == 0
    ensures DoHeap(s, op).sbrk == s.heap.sbrk + if Grows(s, op) then Address.PageAlign(op.size) else 0
  {
    match op
    case Reserve(id, size) => Heaps.AllocPacked(s.heap, id, size, PagesFor(size) <= |s.mem.ramFree|);
    case Release(rgid) => Heaps.FreePacked(s.heap, rgid);
    case _ =>
  }

  lemma MemStepOk(a: nat, s: Space, op: Op, p: nat)
    requires SpaceOk(a, s) && Allowed(a, s, op)
    ensures a < |DoMem(a, s, op).0.fifo|
    ensures (a, p) in DoMem(a, s, op).0.where <==> p * PAGESZ < DoHeap(s, op).sbrk
  {
    hide Inv, DoPaged;
    AccessesAreLegal(a, s, op);
    HeapStepOk(a, s, op);
    if AccessOf(a, s, op).Some? {
      var x := AccessOf(a, s, op).value;
      ProcessesStay(s.mem, x);
      AccessRefinesFlat(s.mem, x);
      if op.Reserve? {
        AlignedSize(op.size);
        Pages(s.heap.sbrk, p);
        Pages(DoHeap(s, op).sbrk, p);
      }
    }
  }

  /** The pages of a process always reach exactly up to its break. */
  lemma StepOk(a: nat, s: Space, op: Op)
    requires SpaceOk(a, s) && Allowed(a, s, op)
    ensures SpaceOk(a, Do(a, s, op).0)
  {
    HeapStepOk(a, s, op);
    forall p: nat
      ensures (a, p) in DoMem(a, s, op).0.where <==> p * PAGESZ < DoHeap(s, op).sbrk
      ensures a < |DoMem(a, s, op).0.fifo|
    {
      MemStepOk(a, s, op, p);
    }
    MemStepOk(a, s, op, 0);
  }

  // ---- Bytes of variables --------------------------------------------------------------

  /** Two variables never share a byte. */
  lemma VariablesAreApart(h: Heaps.Heap, id: nat, off: nat, id': nat, off': nat)
    requires Heaps.Packed(h) && InVariable(h, id, off) && InVariable(h, id', off')
    ensures AddressOf(h, id, off) == AddressOf(h, id', off') <==> id == id' && off == off'
  {
    var x := AddressOf(h, id, off);
    assert Heaps.CountsAtMost(h, x);
    if x == AddressOf(h, id', off') && id != id' {
      Heaps.CountTwo(h.live, if id < id' then id else id', if id < id' then id' else id, x);
    }
  }

  lemma SamePlace(x: nat, y: nat)
    ensures x / PAGESZ == y / PAGESZ && x % PAGESZ == y % PAGESZ <==> x == y
  {
  }

  ghost function ByteOf(a: nat, s: Space, id: nat, off: nat): (r: Byte)
    requires SpaceOk(a, s) && InVariable(s.heap, id, off)
  {
    VariableIsMapped(a, s, id, off);
    Flat(s.mem)[PageOf(a, AddressOf(s.heap, id, off))][OffsetOf(AddressOf(s.heap, id, off))]
  }

  /** Every byte of a live variable is on a mapped page, at its own address on the bus. */
  lemma VariableIsMapped(a: nat, s: Space, id: nat, off: nat)
    requires SpaceOk(a, s) && InVariable(s.heap, id, off)
    ensures PageOf(a, AddressOf(s.heap, id, off)) in s.mem.where && id < Heaps.SYMTBL_SZ
    ensures AddressOf(s.heap, id, off) < BUS_SPACE && Target(s.heap, id, off) == Some(AddressOf(s.heap, id, off))
  {
    LiveIsOnMappedPage(s.heap, id, off);
    assert PageOf(a, AddressOf(s.heap, id, off)).1 < MAX_PGN;
  }

  /** The operation does what it was called for: its address is on a page, and frames suffice. */
  ghost predicate Carried(a: nat, s: Space, op: Op)
    requires SpaceOk(a, s) && Allowed(a, s, op)
  {
    AccessesAreLegal(a, s, op);
    match AccessOf(a, s, op)
    case None => !op.Read? && !op.Write?
    case Some(x) => Served(s.mem, x)
  }

  /** Operations that end the variable: it is freed, or its id allocated again. */
  predicate Ends(op: Op, id: nat) { op == Release(id) || (op.Reserve? && op.id == id) }

  lemma RegionStays(a: nat, s: Space, op: Op, id: nat, off: nat)
    requires SpaceOk(a, s) && Allowed(a, s, op) && InVariable(s.heap, id, off) && !Ends(op, id)
    ensures id < |DoHeap(s, op).live| && DoHeap(s, op).live[id] == s.heap.live[id]
  {
    if op.Reserve? { Heaps.AllocGivesRegion(s.heap, op.id, op.size, PagesFor(op.size) <= |s.mem.ramFree|); }
  }

  /** The operation is a write to address x, through whatever id and offset: the region's start
      plus the offset is x, up to the bits beyond the bus. */
  predicate WritesTo(s: Space, op: Op, x: nat) {
    op.Write? && 0 <= op.rgid < |s.heap.live| && (s.heap.live[op.rgid].start + op.off - x) % BUS_SPACE == 0
  }

  lemma SameOnBus(n: int, x: int)
    requires 0 <= x < BUS_SPACE
    ensures n % BUS_SPACE == x <==> (n - x) % BUS_SPACE == 0
  {
  }

  /** Only a write to the address of that byte is a store to its place in memory. */
  lemma WhoStoresHere(a: nat, s: Space, op: Op, id: nat, off: nat)
    requires SpaceOk(a, s) && Allowed(a, s, op) && InVariable(s.heap, id, off)
    ensures var (x, here) := (AccessOf(a, s, op), AddressOf(s.heap, id, off));
      x.Some? && x.value.Store? && x.value.pg == PageOf(a, here) && x.value.off == OffsetOf(here)
      <==> WritesTo(s, op, here)
  {
    hide Inv, Legal, Heaps.Packed;
    VariableIsMapped(a, s, id, off);
    if op.Write? && Target(s.heap, op.rgid, op.off).Some? {
      SameOnBus(s.heap.live[op.rgid].start + op.off, AddressOf(s.heap, id, off));
      SamePlace(AddressOf(s.heap, id, off), Target(s.heap, op.rgid, op.off).value);
    }
  }

  /** Within its own variable a write reaches the byte it names and no other variable's. */
  lemma OwnWrites(a: nat, s: Space, op: Op, id: nat, off: nat)
    requires SpaceOk(a, s) && InVariable(s.heap, id, off)
    requires op.Write? && op.rgid >= 0 && InVariable(s.heap, op.rgid, op.off)
    ensures WritesTo(s, op, AddressOf(s.heap, id, off)) <==> op.rgid == id && op.off == off
  {
    VariableIsMapped(a, s, id, off);
    VariableIsMapped(a, s, op.rgid, op.off);
    SameOnBus(AddressOf(s.heap, op.rgid, op.off), AddressOf(s.heap, id, off));
    VariablesAreApart(s.heap, id, off, op.rgid, op.off);
  }

  /** An operation changes a byte of a variable exactly if it is a write, through whatever variable
      and offset, whose address is the byte's, and it is carried out: not by allocating or freeing
      other variables, nor by other processes, faults or evictions. */
  lemma StepByte(a: nat, s: Space, op: Op, id: nat, off: nat)
    requires SpaceOk(a, s) && Allowed(a, s, op) && InVariable(s.heap, id, off) && !Ends(op, id)
    ensures var s' := Do(a, s, op).0;
      && SpaceOk(a, s') && InVariable(s'.heap, id, off)
      && ByteOf(a, s', id, off)
         == if op.Write? && Carried(a, s, op) && 0 <= op.rgid < |s.heap.live|
               && (s.heap.live[op.rgid].start + op.off - (s.heap.live[id].start + off)) % BUS_SPACE == 0
            then op.b else ByteOf(a, s, id, off)
  {
    hide Inv, DoPaged, Flat, Heaps.Packed, Legal, Served, DoHeap, SpaceOk;
    StepOk(a, s, op);
    RegionStays(a, s, op, id, off);
    VariableIsMapped(a, s, id, off);
    AccessesAreLegal(a, s, op);
    WhoStoresHere(a, s, op, id, off);
    SpaceIsSound(a, s);
    SpaceIsSound(a, Do(a, s, op).0);
    var here, x := AddressOf(s.heap, id, off), AccessOf(a, s, op);
    if x.Some? { StoreIsSeen(s.mem, x.value, PageOf(a, here), OffsetOf(here)); }
  }

  lemma SpaceIsSound(a: nat, s: Space)
    requires SpaceOk(a, s)
    ensures Inv(s.mem) && s.heap.sbrk >= 0
  {
  }

  // ---- What the calls do ---------------------------------------------------------------

  /** What __alloc relies on. */
  lemma ReserveFacts(a: nat, s: Space, id: nat, size: nat)
    requires SpaceOk(a, s) && Allowed(a, s, Reserve(id, size))
    ensures id < Heaps.SYMTBL_SZ && Heaps.Wf(s.heap) && Inv(s.mem)
    ensures s.heap.end == s.heap.sbrk >= 0 && s.heap.end % PAGESZ == 0
    ensures Address.PageAlign(size) >= 0 && Address.PageAlign(size) % PAGESZ == 0
    ensures PagesFor(size) == Address.PageAlign(size) / PAGESZ
    ensures NeedsPages(s.heap, size) ==> s.heap.end + Address.PageAlign(size) <= BUS_SPACE
  {
    Heaps.PageAlignCovers(size);
  }

  /** The cases of __alloc, step by step. */
  lemma ReserveMeans(a: nat, s: Space, id: nat, size: nat)
    requires SpaceOk(a, s) && Allowed(a, s, Reserve(id, size))
    ensures var (t, (left, cut)) := (Do(a, s, Reserve(id, size)).0, Heaps.Walk(s.heap.free, size, true));
      var (p, n, inc) := (s.heap.sbrk / PAGESZ, PagesFor(size), Address.PageAlign(size));
      && (cut != [] ==> t == Space(s.heap.(free := left, live := s.heap.live[id := cut[|cut| - 1]]), s.mem))
      && (cut == [] ==> left == s.heap.free && Legal(s.mem, Map(a, p, n)) && t.mem == DoPaged(s.mem, Map(a, p, n)).0)
      && (cut == [] && n <= |s.mem.ramFree| ==>
            t.heap == s.heap.(live := s.heap.live[id := Heaps.Region(s.heap.sbrk, s.heap.sbrk + inc)],
                              end := s.heap.end + inc, sbrk := s.heap.sbrk + inc))
      && (cut == [] && n > |s.mem.ramFree| ==> t.heap == s.heap)
  {
    hide Inv, DoPaged, Legal, Heaps.Packed, Heaps.Walk, Address.PageAlign;
    AccessesAreLegal(a, s, Reserve(id, size));
    Heaps.WalkFailsIffNothingFits(s.heap.free, size, true);
  }

  /** The cases of __read and __write. */
  lemma ReadMeans(a: nat, s: Space, rgid: int, off: nat)
    requires SpaceOk(a, s)
    ensures |s.heap.live| == Heaps.SYMTBL_SZ
    ensures var (x, r) := (Target(s.heap, rgid, off), Do(a, s, Read(rgid, off)));
      if x.Some? && PageOf(a, x.value) in s.mem.where
      then var l := Load(PageOf(a, x.value), OffsetOf(x.value));
           Legal(s.mem, l) && r == (Space(s.heap, DoPaged(s.mem, l).0), DoPaged(s.mem, l).1)
      else r == (s, None)
  {
    hide DoPaged, Inv;
    AccessesAreLegal(a, s, Read(rgid, off));
  }

  lemma WriteMeans(a: nat, s: Space, rgid: int, off: nat, b: Byte)
    requires SpaceOk(a, s)
    ensures |s.heap.live| == Heaps.SYMTBL_SZ
    ensures var (x, r) := (Target(s.heap, rgid, off), Do(a, s, Write(rgid, off, b)).0);
      if x.Some? && PageOf(a, x.value) in s.mem.where
      then var l := Store(PageOf(a, x.value), OffsetOf(x.value), b);
           && Legal(s.mem, l) && r == Space(s.heap, DoPaged(s.mem, l).0)
           && (Carried(a, s, Write(rgid, off, b)) <==> Served(s.mem, l))
      else r == s && !Carried(a, s, Write(rgid, off, b))
  {
    hide DoPaged, Inv, Served;
    AccessesAreLegal(a, s, Write(rgid, off, b));
  }

  // ---- Which bytes the calls reach -----------------------------------------------------

  /** The byte of process a at an address, if a page is mapped there. */
  ghost function ByteAt(a: nat, s: Space, x: nat): (b: Option<Byte>)
    requires SpaceOk(a, s)
  {
    if (a, x / PAGESZ) in s.mem.where then Some(Flat(s.mem)[(a, x / PAGESZ)][x % PAGESZ]) else None
  }

  /** The address is below the break, and its page is in RAM or a frame can be had for it: a free
      one, or by an eviction. */
  ghost predicate Accessible(a: nat, s: Space, x: nat)
    requires SpaceOk(a, s)
  {
    PageBelowBreak(s.heap.sbrk, x);
    && x < s.heap.sbrk
    && (s.mem.where[(a, x / PAGESZ)].Ram? || s.mem.ramFree != [] || (s.mem.fifo[a] != [] && s.mem.swpFree != []))
  }

  lemma PageBelowBreak(sbrk: int, x: nat)
    ensures sbrk % PAGESZ == 0 ==> (x < sbrk <==> x / PAGESZ * PAGESZ < sbrk)
  {
  }

  /** A process has bytes exactly below its break. */
  lemma BytesReachToBreak(a: nat, s: Space, x: nat)
    requires SpaceOk(a, s)
    ensures ByteAt(a, s, x).Some? <==> x < s.heap.sbrk
  {
    PageBelowBreak(s.heap.sbrk, x);
  }

  lemma VariableByte(a: nat, s: Space, id: nat, off: nat)
    requires SpaceOk(a, s) && InVariable(s.heap, id, off)
    ensures ByteAt(a, s, s.heap.live[id].start + off) == Some(ByteOf(a, s, id, off))
  {
    VariableIsMapped(a, s, id, off);
  }

  /** An access of the process itself: it is served exactly at an address below the break for
      which a frame can be had, and what happens to the bytes then. */
  lemma OwnAccess(a: nat, s: Space, x: nat, b: Byte)
    requires SpaceOk(a, s) && (a, x / PAGESZ) in s.mem.where
    ensures var (l, w) := (Load((a, x / PAGESZ), x % PAGESZ), Store((a, x / PAGESZ), x % PAGESZ, b));
      && Legal(s.mem, l) && Legal(s.mem, w)
      && (Served(s.mem, l) <==> Accessible(a, s, x)) && (Served(s.mem, w) <==> Accessible(a, s, x))
      && DoPaged(s.mem, l).1 == if Accessible(a, s, x) then ByteAt(a, s, x) else None
  {
    hide Inv, DoPaged, Flat;
    SpaceIsSound(a, s);
    PageBelowBreak(s.heap.sbrk, x);
    FlatIsFull(s.mem, (a, x / PAGESZ));
    AccessRefinesFlat(s.mem, Load((a, x / PAGESZ), x % PAGESZ));
  }

  /** An access of the process to address x leaves every other byte of it. */
  lemma OwnAccessBytes(a: nat, s: Space, t: Space, acc: Access, x: nat, y: nat)
    requires SpaceOk(a, s) && SpaceOk(a, t) && (a, x / PAGESZ) in s.mem.where
    requires acc.Load? || acc.Store?
    requires acc.pg == (a, x / PAGESZ) && acc.off == x % PAGESZ && t.mem == DoPaged(s.mem, acc).0
    ensures ByteAt(a, t, y)
         == if acc.Store? && x == y && Accessible(a, s, x) then Some(acc.b) else ByteAt(a, s, y)
  {
    hide Inv, DoPaged, Flat;
    OwnAccess(a, s, x, if acc.Store? then acc.b else 0);
    AccessRefinesFlat(s.mem, acc);
    SamePlace(x, y);
    if (a, y / PAGESZ) in s.mem.where { StoreIsSeen(s.mem, acc, (a, y / PAGESZ), y % PAGESZ); }
  }

  /** __read: it returns the byte at the region's start plus the offset, up to the bits beyond the
      bus, whatever the offset is; it fails exactly for an id outside the table or an address that
      is not accessible; and no byte changes. */
  lemma ReadExactly(a: nat, s: Space, rgid: int, off: nat)
    requires SpaceOk(a, s)
    ensures |s.heap.live| == Heaps.SYMTBL_SZ
    ensures var (t, out) := Do(a, s, Read(rgid, off));
      && SpaceOk(a, t)
      && (out.Some? <==> 0 <= rgid < Heaps.SYMTBL_SZ
                         && Accessible(a, s, (s.heap.live[rgid].start + off) % BUS_SPACE))
      && (out.Some? ==> out == ByteAt(a, s, (s.heap.live[rgid].start + off) % BUS_SPACE))
      && forall y: nat :: ByteAt(a, t, y) == ByteAt(a, s, y)
  {
    hide Inv, DoPaged, Flat, Legal, Served, Accessible, ByteAt, Do;
    ReadMeans(a, s, rgid, off);
    StepOk(a, s, Read(rgid, off));
    if 0 <= rgid < Heaps.SYMTBL_SZ {
      var t, x := Do(a, s, Read(rgid, off)).0, (s.heap.live[rgid].start + off) % BUS_SPACE;
      AccessibleIsMapped(a, s, x);
      if (a, x / PAGESZ) in s.mem.where {
        OwnAccess(a, s, x, 0);
        forall y: nat ensures ByteAt(a, t, y) == ByteAt(a, s, y) {
          OwnAccessBytes(a, s, t, Load((a, x / PAGESZ), x % PAGESZ), x, y);
        }
      }
    }
  }

  lemma AccessibleIsMapped(a: nat, s: Space, x: nat)
    requires SpaceOk(a, s)
    ensures Accessible(a, s, x) ==> (a, x / PAGESZ) in s.mem.where && ByteAt(a, s, x).Some?
  {
    PageBelowBreak(s.heap.sbrk, x);
  }

  /** __write: it changes the byte at that address and no other, and is refused likewise. */
  lemma WriteExactly(a: nat, s: Space, rgid: int, off: nat, b: Byte)
    requires SpaceOk(a, s)
    ensures |s.heap.live| == Heaps.SYMTBL_SZ
    ensures var (t, op) := (Do(a, s, Write(rgid, off, b)).0, Write(rgid, off, b));
      && SpaceOk(a, t)
      && (Carried(a, s, op) <==> 0 <= rgid < Heaps.SYMTBL_SZ
                                 && Accessible(a, s, (s.heap.live[rgid].start + off) % BUS_SPACE))
      && forall y: nat :: ByteAt(a, t, y)
           == if Carried(a, s, op) && y == (s.heap.live[rgid].start + off) % BUS_SPACE then Some(b) else ByteAt(a, s, y)
  {
    hide Inv, DoPaged, Flat, Legal, Served, Accessible, ByteAt, Do, Carried;
    WriteMeans(a, s, rgid, off, b);
    StepOk(a, s, Write(rgid, off, b));
    if 0 <= rgid < Heaps.SYMTBL_SZ {
      var t, x := Do(a, s, Write(rgid, off, b)).0, (s.heap.live[rgid].start + off) % BUS_SPACE;
      AccessibleIsMapped(a, s, x);
      if (a, x / PAGESZ) in s.mem.where {
        OwnAccess(a, s, x, b);
        forall y: nat
          ensures ByteAt(a, t, y) == if Accessible(a, s, x) && y == x then Some(b) else ByteAt(a, s, y)
        {
          OwnAccessBytes(a, s, t, Store((a, x / PAGESZ), x % PAGESZ, b), x, y);
        }
      }
    }
  }

  // ---- Whole runs ----------------------------------------------------------------------

  ghost predicate IsRun(a: nat, s: Space, ops: seq<Op>)
    requires SpaceOk(a, s)
    decreases |ops|
  {
    ops == [] || (Allowed(a, s, ops[0]) && (StepOk(a, s, ops[0]); IsRun(a, Do(a, s, ops[0]).0, ops[1..])))
  }

  ghost function EndOfRun(a: nat, s: Space, ops: seq<Op>): (n: Space)
    requires SpaceOk(a, s) && IsRun(a, s, ops)
    ensures SpaceOk(a, n)
    decreases |ops|
  {
    if ops == [] then s
    else
      StepOk(a, s, ops[0]);
      EndOfRun(a, Do(a, s, ops[0]).0, ops[1..])
  }

  /** The run neither frees variable id nor allocates it again. */
  ghost predicate Keeps(ops: seq<Op>, id: nat) { forall i :: 0 <= i < |ops| ==> !Ends(ops[i], id) }

  /** The last byte that a carried-out write put at address x, else `init`. */
  ghost function LastWritten(a: nat, s: Space, ops: seq<Op>, x: nat, init: Byte): (b: Byte)
    requires SpaceOk(a, s) && IsRun(a, s, ops)
    decreases |ops|
  {
    if ops == [] then init
    else
      var op := ops[0];
      StepOk(a, s, op);
      LastWritten(a, Do(a, s, op).0, ops[1..], x, if WritesTo(s, op, x) && Carried(a, s, op) then op.b else init)
  }

  lemma ReadReturnsByte(a: nat, s: Space, id: nat, off: nat)
    requires SpaceOk(a, s) && InVariable(s.heap, id, off)
    ensures Do(a, s, Read(id, off)).1 == if Carried(a, s, Read(id, off)) then Some(ByteOf(a, s, id, off)) else None
  {
    hide Inv, DoPaged, Flat, Heaps.Packed, Served;
    var x := AddressOf(s.heap, id, off);
    VariableIsMapped(a, s, id, off);
    AccessesAreLegal(a, s, Read(id, off));
    FlatIsFull(s.mem, PageOf(a, x));
    AccessRefinesFlat(s.mem, Load(PageOf(a, x), OffsetOf(x)));
  }

  /** A variable keeps its bytes: after any run of allocations, frees, reads and writes of the
      process, at whatever offsets, and of accesses by other processes, faults and evictions in
      between, a read of a byte of a variable that was neither freed nor allocated again returns
      what was last written to its address, or fails because no frame can be had. */
  lemma {:induction false} VariablesKeepTheirBytes(a: nat, s: Space, ops: seq<Op>, id: nat, off: nat)
    requires SpaceOk(a, s) && IsRun(a, s, ops) && Keeps(ops, id) && InVariable(s.heap, id, off)
    ensures var (n, x) := (EndOfRun(a, s, ops), AddressOf(s.heap, id, off));
      && InVariable(n.heap, id, off) && AddressOf(n.heap, id, off) == x
      && Do(a, n, Read(id, off)).1
         == if Carried(a, n, Read(id, off)) then Some(LastWritten(a, s, ops, x, ByteOf(a, s, id, off))) else None
    decreases |ops|
  {
    if ops == [] {
      ReadReturnsByte(a, s, id, off);
    } else {
      hide Inv, Heaps.Packed, Do, SpaceOk, Allowed, Carried, ByteOf, WritesTo, Ends;
      assert !Ends(ops[0], id) && forall i :: 0 <= i < |ops| - 1 ==> ops[1..][i] == ops[i + 1];
      StepOk(a, s, ops[0]);
      StepWrites(a, s, ops[0], id, off);
      RegionMoves(a, s, ops[0], id, off);
      VariablesKeepTheirBytes(a, Do(a, s, ops[0]).0, ops[1..], id, off);
    }
  }

  lemma StepWrites(a: nat, s: Space, op: Op, id: nat, off: nat)
    requires SpaceOk(a, s) && Allowed(a, s, op) && InVariable(s.heap, id, off) && !Ends(op, id)
    ensures SpaceOk(a, Do(a, s, op).0) && InVariable(Do(a, s, op).0.heap, id, off)
    ensures ByteOf(a, Do(a, s, op).0, id, off)
         == if WritesTo(s, op, AddressOf(s.heap, id, off)) && Carried(a, s, op) then op.b else ByteOf(a, s, id, off)
  {
    hide SpaceOk, Do, Carried, ByteOf, Allowed;
    StepByte(a, s, op, id, off);
  }

  lemma RegionMoves(a: nat, s: Space, op: Op, id: nat, off: nat)
    requires SpaceOk(a, s) && Allowed(a, s, op) && InVariable(s.heap, id, off) && !Ends(op, id)
    ensures InVariable(Do(a, s, op).0.heap, id, off)
    ensures AddressOf(Do(a, s, op).0.heap, id, off) == AddressOf(s.heap, id, off)
  {
    hide SpaceOk;
    RegionStays(a, s, op, id, off);
  }

  // ---- From the start ------------------------------------------------------------------

  /** s is where the run takes process a of n from a machine with these device contents. */
  ghost predicate ReachedBy(a: nat, s: Space, ram: seq<Byte>, swp: seq<Byte>, n: nat, ops: seq<Op>) {
    && |ram| / PAGESZ <= MAX_FPN && |swp| / PAGESZ <= MAX_SWPOFF && a < n
    && (FirstSpaceOk(a, ram, swp, n);
        var first := Space(Heaps.Fresh(), Blank(ram, swp, n)); IsRun(a, first, ops) && EndOfRun(a, first, ops) == s)
  }

  ghost predicate Reached(a: nat, s: Space): (r: bool)
    ensures r ==> SpaceOk(a, s)
  {
    exists ram, swp, n, ops :: ReachedBy(a, s, ram, swp, n, ops)
  }

  /** From the very first operation on: as soon as a byte belongs to a variable, a read that is
      carried out returns what was last written to it while the variable lives, and it shares its
      place in memory with no byte of another variable. */
  lemma EveryVariableKeepsItsBytes(a: nat, s: Space, ops: seq<Op>, id: nat, off: nat, id': nat, off': nat)
    requires Reached(a, s) && InVariable(s.heap, id, off) && IsRun(a, s, ops) && Keeps(ops, id)
    ensures var t := EndOfRun(a, s, ops);
      && InVariable(t.heap, id, off)
      && (Carried(a, t, Read(id, off)) ==>
            Do(a, t, Read(id, off)).1
            == Some(LastWritten(a, s, ops, AddressOf(s.heap, id, off), ByteOf(a, s, id, off))))
      && (InVariable(t.heap, id', off') && (id', off') != (id, off) ==>
            AddressOf(t.heap, id', off') != AddressOf(t.heap, id, off))
  {
    hide Reached, Inv, Do, Carried, ByteOf, Allowed;
    VariablesKeepTheirBytes(a, s, ops, id, off);
    var t := EndOfRun(a, s, ops);
    if InVariable(t.heap, id', off') { VariablesAreApart(t.heap, id, off, id', off'); }
  }
}
