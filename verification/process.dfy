/** A process's memory calls as mm-vm.c makes them: the allocator of Regions over the pager of
    Paging, proved against Variables. */
module Processes {
  import opened Options
  import opened Geometry
  import opened Frames
  import opened PagingSpec
  import V = Variables
  import Heaps = RegionSpec
  import opened Regions
  import opened Paging
  import Words

  class Process {
    /** The number of its page table. */
    const a: nat
    const area: Area
    const machine: Machine

    ghost function Now(): (s: V.Space)
      reads area, machine
    {
      V.Space(area.heap, machine.mem)
    }

    /** What the pager writes besides its frame lists. */
    ghost function Pager(): (p: set<object>) {
      {machine as object, machine.ram, machine.ram.storage, machine.swp, machine.swp.storage} + machine.tables.repr
    }

    ghost predicate Apart()
      reads area
    {
      {area as object, area.symtab} !! Pager() && forall n :: n in area.nodes ==> n !in Pager()
    }

    lemma TablesArePager()
      requires machine.Valid() && a < |machine.tables.mms|
      ensures machine.tables in Pager() && machine.tables.mms[a] in Pager() && machine.tables.mms[a].pgd in Pager()
    {
    }

    ghost predicate Valid()
      reads area, area.nodes, area.symtab, machine, machine.ram, machine.ram.nodes, machine.ram.storage
      reads machine.swp, machine.swp.nodes, machine.swp.storage, machine.tables.repr
    {
      area.Valid() && machine.Valid() && Apart() && a < |machine.tables.mms| && V.SpaceOk(a, Now())
    }

    /** A process on a machine whose pages it has none of. */
    constructor (machine: Machine, a: nat)
      requires machine.Valid() && Inv(machine.mem) && a < |machine.tables.mms| == |machine.mem.fifo|
      requires forall p: nat :: (a, p) !in machine.mem.where
      ensures Valid() && Now() == V.Space(Heaps.Fresh(), machine.mem)
      ensures this.machine == machine && this.a == a && fresh(area)
    {
      hide Area.Valid, Machine.Valid, Machine.Apart, Inv, V.SpaceOk, Heaps.Fresh;
      this.machine := machine;
      this.a := a;
      this.area := new Area();
      V.NewSpaceOk(a, machine.mem);
    }

    /** __read: the byte, or -1 for an id outside the table, for an address on no page, or when the
        page cannot be brought in. */
    method Read(rgid: int, off: nat) returns (r: int, data: Byte)
      requires Valid()
      modifies machine, machine.ram`freeFpList, machine.ram`nodes, machine.ram.storage
      modifies machine.swp`freeFpList, machine.swp`nodes, machine.swp.storage
      modifies machine.tables, machine.tables.mms[a], machine.tables.mms[a].pgd
      ensures Valid()
      ensures (Now(), if r == 0 then Some(data) else None) == V.Do(a, old(Now()), V.Read(rgid, off))
      ensures |old(area.heap).live| == Heaps.SYMTBL_SZ
      ensures r == 0 <==> (
        && 0 <= rgid < Heaps.SYMTBL_SZ
        && V.Accessible(a, old(Now()), (old(area.heap).live[rgid].start + off) % BUS_SPACE))
      ensures r == 0 ==> V.ByteAt(a, old(Now()), (old(area.heap).live[rgid].start + off) % BUS_SPACE) == Some(data)
      ensures forall x: nat :: V.ByteAt(a, Now(), x) == V.ByteAt(a, old(Now()), x)
    {
      hide V.Accessible, V.ByteAt;
      hide Area.Valid, Machine.Valid, Machine.Apart, Inv, Legal, DoPaged, Heaps.Packed, V.Do, V.PageOf, V.OffsetOf;
      hide Words.Word, Words.Value, Address.Pgn, Address.Offst;
      ghost var s := Now();
      TablesArePager();
      V.ReadMeans(a, s, rgid, off);
      V.StepOk(a, s, V.Read(rgid, off));
      V.ReadExactly(a, s, rgid, off);
      if rgid < 0 || rgid >= Heaps.SYMTBL_SZ {
        return -1, 0;
      }
      var rg := area.Symbol(rgid);
      var addr := rg.start + off;
      IntSplits(a, addr);
      r, data := machine.GetVal(a, Words.Word(addr % INT_RANGE));
    }

    /** __write. */
    method Write(rgid: int, off: nat, value: Byte) returns (r: int)
      requires Valid()
      modifies machine, machine.ram`freeFpList, machine.ram`nodes, machine.ram.storage
      modifies machine.swp`freeFpList, machine.swp`nodes, machine.swp.storage
      modifies machine.tables, machine.tables.mms[a], machine.tables.mms[a].pgd
      ensures Valid() && Now() == V.Do(a, old(Now()), V.Write(rgid, off, value)).0
      ensures r == 0 <==> V.Carried(a, old(Now()), V.Write(rgid, off, value))
      ensures |old(area.heap).live| == Heaps.SYMTBL_SZ
      ensures r == 0 <==> (
        && 0 <= rgid < Heaps.SYMTBL_SZ
        && V.Accessible(a, old(Now()), (old(area.heap).live[rgid].start + off) % BUS_SPACE))
      ensures forall x: nat ::
        var to := r == 0 && x == (old(area.heap).live[rgid].start + off) % BUS_SPACE;
        V.ByteAt(a, Now(), x) == if to then Some(value) else V.ByteAt(a, old(Now()), x)
    {
      hide V.Accessible, V.ByteAt;
      hide Area.Valid, Machine.Valid, Machine.Apart, Inv, Legal, DoPaged, Heaps.Packed, V.Do, V.Carried, Served;
      hide Words.Word, Words.Value, Address.Pgn, Address.Offst, V.PageOf, V.OffsetOf;
      ghost var s := Now();
      TablesArePager();
      V.WriteMeans(a, s, rgid, off, value);
      V.StepOk(a, s, V.Write(rgid, off, value));
      V.WriteExactly(a, s, rgid, off, value);
      if rgid < 0 || rgid >= Heaps.SYMTBL_SZ {
        return -1;
      }
      var rg := area.Symbol(rgid);
      var addr := rg.start + off;
      IntSplits(a, addr);
      r := machine.SetVal(a, Words.Word(addr % INT_RANGE), value);
    }

    /** __free. */
    method Free(rgid: int) returns (r: int)
      requires Valid()
      modifies area, area.symtab
      ensures Valid() && Now() == V.Do(a, old(Now()), V.Release(rgid)).0
      ensures |old(area.heap).live| == Heaps.SYMTBL_SZ && machine.mem == old(machine.mem)
      ensures 0 <= rgid < Heaps.SYMTBL_SZ ==>
        area.heap.live == old(area.heap).live[rgid := Heaps.Region(-1, -1)]
      ensures r == if 0 <= rgid < Heaps.SYMTBL_SZ then 0 else -1
    {
      hide Area.Valid, Machine.Valid, Machine.Apart, Inv, Legal, DoPaged, Heaps.Packed;
      ghost var s := Now();
      V.StepOk(a, s, V.Release(rgid));
      r := area.Free(rgid);
    }

    /** inc_vma_limit: maps as many pages as the size takes at the area's end and moves the end and
        the break by the size, or fails and moves nothing. */
    method IncVmaLimit(incSz: nat) returns (r: int)
      requires area.Valid() && machine.Valid() && Apart() && a < |machine.tables.mms| && Inv(machine.mem)
      requires area.heap.end >= 0 && Legal(machine.mem, Map(a, PageAtEnd(area.heap.end), V.PagesFor(incSz)))
      modifies area`heap, area`vmEnd, area`sbrk
      modifies machine, machine.ram`freeFpList, machine.ram`nodes
      modifies machine.tables, machine.tables.mms[a], machine.tables.mms[a].pgd
      ensures area.Valid() && machine.Valid() && Apart() && Inv(machine.mem) && area.nodes == old(area.nodes)
      ensures r == if V.PagesFor(incSz) <= |old(machine.mem).ramFree| then 0 else -1
      ensures machine.mem == DoPaged(old(machine.mem), Map(a, PageAtEnd(old(area.heap).end), V.PagesFor(incSz))).0
      ensures r != 0 ==> area.heap == old(area.heap)
      ensures r == 0 ==> area.heap == old(area.heap).(
        end := old(area.heap).end + incSz, sbrk := old(area.heap).sbrk + incSz)
    {
      hide Area.Valid, Machine.Valid, Machine.Apart, Inv, DoPaged;
      hide Words.Word, Words.Value, Address.Pgn, Address.Offst, Address.PageAlign;
      TablesArePager();
      var incAmt := Address.PageAlign(incSz);
      var incNumPage := incAmt / PAGESZ;
      PagesAreMany(incSz);
      var oldEnd := area.VmEnd();
      r := machine.VmMapRam(a, Words.Word(oldEnd), incNumPage);
      if r == 0 {
        area.Increase(incSz, false);
      }
    }

    /** __alloc on the free list. */
    method AllocFree(id: nat, size: nat) returns (r: int, addr: int)
      requires area.Valid() && Heaps.Wf(area.heap) && machine.Valid() && Apart() && id < Heaps.SYMTBL_SZ
      modifies area`nodes, area`heap, area.nodes, area.symtab
      ensures area.Valid() && machine.Valid() && Apart() && |old(area.heap).live| == Heaps.SYMTBL_SZ
      ensures var (left, cut) := Heaps.Walk(old(area.heap).free, size, true);
        if cut == [] then r == -1 && area.heap == old(area.heap).(free := left)
        else r == 0 && addr == cut[|cut| - 1].start
             && area.heap == old(area.heap).(free := left, live := old(area.heap).live[id := cut[|cut| - 1]])
    {
      hide Area.Valid, Machine.Valid, Machine.Apart, Heaps.Walk, Heaps.Wf;
      var got, rg := area.GetFreeArea(size, true);
      if got != 0 {
        var _ := area.Symbol(id);
        return -1, 0;
      }
      area.SetSymbol(id, rg);
      return 0, rg.start;
    }

    /** __alloc on new pages. */
    method AllocPages(id: nat, incSz: nat) returns (r: int, addr: int)
      requires area.Valid() && machine.Valid() && Apart() && a < |machine.tables.mms| && Inv(machine.mem)
      requires id < Heaps.SYMTBL_SZ && incSz % PAGESZ == 0 && area.heap.end % PAGESZ == 0
      requires 0 <= area.heap.end && area.heap.end + incSz <= BUS_SPACE
      requires Legal(machine.mem, Map(a, area.heap.end / PAGESZ, incSz / PAGESZ))
      modifies area`heap, area`vmEnd, area`sbrk, area.symtab
      modifies machine, machine.ram`freeFpList, machine.ram`nodes
      modifies machine.tables, machine.tables.mms[a], machine.tables.mms[a].pgd
      ensures area.Valid() && machine.Valid() && Apart() && |old(area.heap).live| == Heaps.SYMTBL_SZ
      ensures area.nodes == old(area.nodes)
      ensures r == if incSz / PAGESZ <= |old(machine.mem).ramFree| then 0 else -1
      ensures machine.mem == DoPaged(old(machine.mem), Map(a, old(area.heap).end / PAGESZ, incSz / PAGESZ)).0
      ensures r != 0 ==> area.heap == old(area.heap)
      ensures r == 0 ==> addr == old(area.heap).sbrk
      ensures r == 0 ==> area.heap == old(area.heap).(
        live := old(area.heap).live[id := Heaps.Region(addr, addr + incSz)],
        end := old(area.heap).end + incSz, sbrk := addr + incSz)
    {
      hide Area.Valid, Machine.Valid, Machine.Apart, Inv, Legal, DoPaged, PageAtEnd, V.PagesFor;
      AlignedTwice(incSz);
      MapAtWord(machine.mem, a, area.heap.end, incSz / PAGESZ);
      var oldSbrk := area.Sbrk();
      var _ := area.Symbol(id);
      var inc := IncVmaLimit(incSz);
      if inc != 0 {
        return -1, 0;
      }
      area.SetSymbol(id, Heaps.Region(oldSbrk, oldSbrk + incSz));
      return 0, oldSbrk;
    }

    /** __alloc, which fails when its pages cannot be mapped. */
    method Alloc(id: nat, size: nat) returns (r: int, addr: int)
      requires Valid() && V.Allowed(a, Now(), V.Reserve(id, size))
      modifies area, area.nodes, area.symtab
      modifies machine, machine.ram`freeFpList, machine.ram`nodes
      modifies machine.tables, machine.tables.mms[a], machine.tables.mms[a].pgd
      ensures Valid() && Now() == V.Do(a, old(Now()), V.Reserve(id, size)).0
      ensures r == if V.NeedsPages(old(area.heap), size) && V.PagesFor(size) > |old(machine.mem).ramFree| then -1 else 0
      ensures r == 0 ==> |area.heap.live| == Heaps.SYMTBL_SZ && addr == area.heap.live[id].start
    {
      hide Area.Valid, Machine.Valid, Machine.Apart, Apart, Inv, Legal, DoPaged, V.Do, V.Allowed, V.SpaceOk;
      hide Heaps.Walk, Heaps.Wf, V.PagesFor, Address.PageAlign;
      ghost var s := Now();
      V.ReserveFacts(a, s, id, size);
      V.ReserveMeans(a, s, id, size);
      V.StepOk(a, s, V.Reserve(id, size));
      r, addr := AllocFree(id, size);
      if r != 0 {
        r, addr := AllocPages(id, Address.PageAlign(size));
      }
    }
  }

  /** The page that vm_map_ram makes of the area's end. */
  function PageAtEnd(end: nat): (p: nat) { Words.Value(Address.Pgn(Words.Word(end))) }

  const INT_RANGE: int := 0x1_0000_0000

  lemma PagesAreMany(incSz: nat)
    ensures Address.PageAlign(incSz) >= 0 && V.PagesFor(incSz) == Address.PageAlign(incSz) / PAGESZ
  {
    Heaps.PageAlignCovers(incSz);
  }

  lemma BusInInt(x: int)
    ensures x % INT_RANGE % BUS_SPACE == x % BUS_SPACE
  {
    var q, m := x / INT_RANGE, x % INT_RANGE;
    assert x == BUS_SPACE * (1024 * q + m / BUS_SPACE) + m % BUS_SPACE;
    Arith.RemainderIs(x, BUS_SPACE, 1024 * q + m / BUS_SPACE, m % BUS_SPACE);
  }

  /** Where the fault path looks for an int address, negative or beyond the bus though it be. */
  lemma IntSplits(a: nat, addr: int)
    ensures var (x, w) := (addr % BUS_SPACE, Words.Word(addr % INT_RANGE));
      V.PageOf(a, x) == (a, Words.Value(Address.Pgn(w))) && V.OffsetOf(x) == Words.Value(Address.Offst(w))
  {
    hide Words.Word, Words.Value, Address.Pgn, Address.Offst;
    Address.NumberSplits(addr % INT_RANGE);
    BusInInt(addr);
  }

  lemma AlignedTwice(incSz: nat)
    requires incSz % PAGESZ == 0
    ensures V.PagesFor(incSz) == incSz / PAGESZ
  {
    Address.PageAlignIsLeastMultiple(incSz);
  }

  /** At the end of the bus the page wraps around, but there is none to map. */
  lemma MapAtWord(m: Mem, a: nat, end: nat, n: nat)
    requires Inv(m) && end % PAGESZ == 0 && end + n * PAGESZ <= BUS_SPACE && Legal(m, Map(a, end / PAGESZ, n))
    ensures Legal(m, Map(a, PageAtEnd(end), n))
    ensures DoPaged(m, Map(a, PageAtEnd(end), n)).0 == DoPaged(m, Map(a, end / PAGESZ, n)).0
  {
    hide Inv, PageAtEnd, DoPaged, Legal;
    EndSplits(end);
    if end == BUS_SPACE { MapNothing(m, a, end / PAGESZ, PageAtEnd(end)); }
  }

  lemma MapNothing(m: Mem, a: nat, p: nat, p': nat)
    requires Inv(m) && Legal(m, Map(a, p, 0)) && p' < MAX_PGN
    ensures Legal(m, Map(a, p', 0)) && DoPaged(m, Map(a, p', 0)).0 == DoPaged(m, Map(a, p, 0)).0
  {
    hide Inv;
  }

  lemma EndSplits(end: nat)
    ensures PageAtEnd(end) == end % BUS_SPACE / PAGESZ
  {
    hide Words.Word, Words.Value, Address.Pgn, Address.Offst;
    Address.NumberSplits(end);
  }
}
