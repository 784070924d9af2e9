/** mm-vm.c and mm.c: page tables, fault path and byte access over the two devices, repaired
    as PagingSpec says, and proved against it. Every process has its own table and FIFO list;
    all share RAM and the active swap device. */
module PageTables {
  import opened PagingSpec
  import opened Entries

  /** mm_struct, with the 2^14 entries a 22-bit bus needs, zero-initialised. The FIFO list of
      resident pages is a sequence, newest first. */
  class Mm {
    const pgd: array<bv32>
    var fifo: seq<nat>

    constructor ()
      ensures fresh(pgd) && pgd.Length == MAX_PGN && fifo == []
      ensures forall p :: 0 <= p < MAX_PGN ==> pgd[p] == 0
    {
      pgd := new bv32[MAX_PGN](_ => 0);
      fifo := [];
    }
  }

  ghost function EntryOf(where: map<Page, Loc>, pg: Page): (r: Entry) {
    if pg !in where then Absent
    else match where[pg] case Ram(f) => InRam(f) case Swp(f) => InSwap(f)
  }

  /** The tables of all processes. */
  class Tables {
    const mms: seq<Mm>
    /** How entries are read and written; Entries.MmCodec is the source's way. */
    const codec: Codec
    ghost const repr: set<object>
    ghost var where: map<Page, Loc>
    ghost var fifo: seq<seq<nat>>

    ghost predicate Apart() {
      && Lawful(codec) && this in repr
      && (forall a :: 0 <= a < |mms| ==> mms[a] in repr && mms[a].pgd in repr && mms[a].pgd.Length == MAX_PGN)
      && (forall a, b :: 0 <= a < b < |mms| ==> mms[a] != mms[b] && mms[a].pgd != mms[b].pgd)
    }

    /** Process a's FIFO list and page table say what `fifo` and `where` say. */
    ghost predicate TableOk(a: nat)
      requires Apart() && a < |mms| == |fifo|
      reads this, mms[a], mms[a].pgd
    {
      && mms[a].fifo == fifo[a]
      && forall p :: 0 <= p < MAX_PGN ==> codec.decode(mms[a].pgd[p]) == EntryOf(where, (a, p))
    }

    ghost predicate Valid()
      reads repr
    {
      && Apart() && |fifo| == |mms|
      && forall a :: 0 <= a < |mms| ==> mms[a] in repr && TableOk(a)
    }

    constructor (codec: Codec, n: nat)
      requires Lawful(codec)
      ensures Valid() && fresh(repr) && this.codec == codec && |mms| == n
      ensures where == map[] && fifo == NoPages(n)
    {
      var mms: seq<Mm> := [];
      ghost var repr: set<object> := {};
      for i := 0 to n
        invariant |mms| == i
        invariant fresh(repr)
        invariant forall a :: 0 <= a < i ==> mms[a] in repr && mms[a].pgd in repr
        invariant forall a :: 0 <= a < i ==> mms[a].pgd.Length == MAX_PGN && mms[a].fifo == []
        invariant forall a, p :: 0 <= a < i && 0 <= p < MAX_PGN ==> mms[a].pgd[p] == 0
        invariant forall a, b :: 0 <= a < b < i ==> mms[a] != mms[b] && mms[a].pgd != mms[b].pgd
      {
        var mm := new Mm();
        mms := mms + [mm];
        repr := repr + {mm, mm.pgd};
      }
      this.mms := mms;
      this.codec := codec;
      this.repr := repr + {this};
      where := map[];
      fifo := NoPages(n);
    }

    method Lookup(a: nat, p: nat) returns (e: Entry)
      requires Valid() && a < |mms| && p < MAX_PGN
      ensures e == EntryOf(where, (a, p))
    {
      assert TableOk(a);
      return codec.decode(mms[a].pgd[p]);
    }

    /** pte_set_fpn on the entry, and enlist_pgn_node. */
    method SetResident(a: nat, p: nat, f: int)
      requires Valid() && a < |mms| && p < MAX_PGN && 0 <= f < MAX_FPN
      modifies this, mms[a], mms[a].pgd
      ensures Valid()
      ensures where == old(where)[(a, p) := Ram(f)] && fifo == old(fifo)[a := [p] + old(fifo)[a]]
    {
      assert TableOk(a);
      var mm := mms[a];
      var e := codec.setFpn(mm.pgd[p], f);
      FpnLaw(codec, mm.pgd[p], f);
      mm.pgd[p] := e;
      mm.fifo := [p] + mm.fifo;
      where, fifo := where[(a, p) := Ram(f)], fifo[a := [p] + fifo[a]];
      forall q | 0 <= q < MAX_PGN
        ensures codec.decode(mm.pgd[q]) == EntryOf(where, (a, q))
      {
        if q != p { assert codec.decode(old(mm.pgd[q])) == EntryOf(old(where), (a, q)); }
      }
      OthersStay(a);
    }

    /** find_victim_page with the victim unlinked. */
    method PopVictim(a: nat) returns (p: nat)
      requires Valid() && a < |mms| && fifo[a] != []
      modifies this, mms[a], mms[a].pgd
      ensures Valid() && where == old(where) && p == old(fifo)[a][|old(fifo)[a]| - 1]
      ensures fifo == old(fifo)[a := old(fifo)[a][..|old(fifo)[a]| - 1]]
    {
      assert TableOk(a);
      var mm := mms[a];
      p := mm.fifo[|mm.fifo| - 1];
      mm.fifo := mm.fifo[..|mm.fifo| - 1];
      fifo := fifo[a := fifo[a][..|fifo[a]| - 1]];
      OthersStay(a);
    }

    method NoVictim(a: nat) returns (none: bool)
      requires Valid() && a < |mms|
      ensures none <==> fifo[a] == []
    {
      assert TableOk(a);
      return mms[a].fifo == [];
    }

    /** pte_set_swap on the entry. */
    method SetSwapped(a: nat, p: nat, s: int)
      requires Valid() && a < |mms| && p < MAX_PGN && 0 <= s < MAX_SWPOFF
      modifies this, mms[a], mms[a].pgd
      ensures Valid() && where == old(where)[(a, p) := Swp(s)] && fifo == old(fifo)
    {
      assert TableOk(a);
      var mm := mms[a];
      var e := codec.setSwap(mm.pgd[p], s);
      SwapLaw(codec, mm.pgd[p], s);
      mm.pgd[p] := e;
      where := where[(a, p) := Swp(s)];
      forall q | 0 <= q < MAX_PGN
        ensures codec.decode(mm.pgd[q]) == EntryOf(where, (a, q))
      {
        if q != p { assert codec.decode(old(mm.pgd[q])) == EntryOf(old(where), (a, q)); }
      }
      OthersStay(a);
    }

    /** A change to process a's table leaves the tables of the others right. */
    twostate lemma OthersStay(a: nat)
      requires old(Valid()) && a < |mms| && |fifo| == |mms|
      requires forall b :: 0 <= b < |mms| && b != a ==> fifo[b] == old(fifo)[b]
      requires forall pg: Page :: pg.0 != a ==>
        (pg in where <==> pg in old(where)) && (pg in where ==> where[pg] == old(where)[pg])
      requires forall b :: 0 <= b < |mms| && b != a ==>
        mms[b].fifo == old(mms[b].fifo) && mms[b].pgd[..] == old(mms[b].pgd[..])
      ensures forall b :: 0 <= b < |mms| && b != a ==> TableOk(b)
    {
      forall b | 0 <= b < |mms| && b != a
        ensures TableOk(b)
      {
        assert old(TableOk(b));
        forall p | 0 <= p < MAX_PGN
          ensures codec.decode(mms[b].pgd[p]) == EntryOf(where, (b, p))
        {
          assert mms[b].pgd[..][p] == old(mms[b].pgd[..])[p];
        }
      }
    }
  }

  // ---- vmap_page_range as written ------------------------------------------------------

  /** As written the loop stores every frame in the first entry of the table. */
  function VmapAsWritten(codec: Codec, pgd: seq<bv32>, frames: seq<int>): (out: seq<bv32>)
    requires |pgd| > 0
    ensures |out| == |pgd|
    decreases |frames|
  {
    if frames == [] then pgd else VmapAsWritten(codec, pgd[0 := codec.setFpn(pgd[0], frames[0])], frames[1..])
  }

  ghost predicate MapsPages(codec: Codec, pgd: seq<bv32>, p: nat, frames: seq<int>)
    requires p + |frames| <= |pgd|
  {
    forall i :: 0 <= i < |frames| ==> codec.decode(pgd[p + i]) == InRam(frames[i])
  }

  lemma {:induction false} OnlyFirstEntryChanges(codec: Codec, pgd: seq<bv32>, frames: seq<int>)
    requires |pgd| > 0 && Lawful(codec) && forall f :: f in frames ==> 0 <= f < MAX_FPN
    ensures VmapAsWritten(codec, pgd, frames)[1..] == pgd[1..]
    ensures frames != [] ==> codec.decode(VmapAsWritten(codec, pgd, frames)[0]) == InRam(frames[|frames| - 1])
    decreases |frames|
  {
    if frames == [] {
    } else {
      var next := pgd[0 := codec.setFpn(pgd[0], frames[0])];
      assert frames[0] in frames && forall f :: f in frames[1..] ==> f in frames;
      FpnLaw(codec, pgd[0], frames[0]);
      OnlyFirstEntryChanges(codec, next, frames[1..]);
      assert next[1..] == pgd[1..];
    }
  }

  /** So it maps what it was asked to map only if that is nothing, or page 0 alone. */
  lemma VmapAsWrittenMapsIffPageZero(codec: Codec, pgd: seq<bv32>, p: nat, frames: seq<int>)
    requires |pgd| > 0 && Lawful(codec) && p + |frames| <= |pgd|
    requires forall f :: f in frames ==> 0 <= f < MAX_FPN
    requires forall i :: p <= i < p + |frames| ==> codec.decode(pgd[i]) == Absent
    ensures MapsPages(codec, VmapAsWritten(codec, pgd, frames), p, frames)
      <==> frames == [] || (p == 0 && |frames| == 1)
  {
    OnlyFirstEntryChanges(codec, pgd, frames);
    var out := VmapAsWritten(codec, pgd, frames);
    if frames != [] && !(p == 0 && |frames| == 1) {
      var i := if p == 0 then 1 else 0;
      assert out[p + i] == out[1..][p + i - 1] == pgd[p + i];
    }
  }
}

/** pg_getpage, pg_getval and pg_setval of mm-vm.c, vm_map_ram of mm.c. */
module Paging {
  import opened Options
  import opened Geometry
  import opened Frames
  import opened PagingSpec
  import opened Entries
  import opened PageTables
  import opened Memphy
  import Address

  ghost predicate Holds(d: Device, storage: seq<Byte>, free: seq<int>)
    reads d, d.nodes, d.storage
  {
    d.Valid() && d.rdmflg && d.storage[..] == storage && d.Free() == free
  }

  /** The two devices and the tables. Each method here is one step of the operations below;
      `mem` always says what devices and tables hold. */
  class Machine {
    const ram: Device
    const swp: Device
    const tables: Tables
    ghost var mem: Mem

    ghost predicate Apart() {
      && ram != swp && ram.storage != swp.storage
      && tables.Apart()
      && {this as object, ram, swp, ram.storage, swp.storage} !! tables.repr
    }

    ghost predicate Valid()
      reads this, ram, ram.nodes, ram.storage, swp, swp.nodes, swp.storage, tables.repr
    {
      && Apart()
      && tables.Valid() && tables.where == mem.where && tables.fifo == mem.fifo
      && Holds(ram, mem.ram, mem.ramFree)
      && Holds(swp, mem.swp, mem.swpFree)
    }

    constructor (ram: Device, swp: Device, tables: Tables)
      requires ram != swp && ram.storage != swp.storage && tables.Valid()
      requires {ram as object, swp, ram.storage, swp.storage} !! tables.repr
      requires ram.Valid() && ram.rdmflg && swp.Valid() && swp.rdmflg
      ensures Valid() && this.ram == ram && this.swp == swp && this.tables == tables
      ensures mem == Mem(tables.where, tables.fifo, ram.Free(), swp.Free(), ram.storage[..], swp.storage[..])
    {
      this.ram := ram;
      this.swp := swp;
      this.tables := tables;
      this.mem := Mem(tables.where, tables.fifo, ram.Free(), swp.Free(), ram.storage[..], swp.storage[..]);
    }

    method TakeRam() returns (r: int, f: int)
      requires Valid()
      modifies this, ram`freeFpList, ram`nodes
      ensures Valid()
      ensures old(mem).ramFree == [] ==> r == -1 && mem == old(mem)
      ensures old(mem).ramFree != [] ==> r == 0 && f == old(mem).ramFree[0]
      ensures old(mem).ramFree != [] ==> mem == old(mem).(ramFree := old(mem).ramFree[1..])
    {
      r, f := ram.GetFreeFp();
      mem := mem.(ramFree := ram.Free());
    }

    method TakeSwp() returns (r: int, s: int)
      requires Valid()
      modifies this, swp`freeFpList, swp`nodes
      ensures Valid()
      ensures old(mem).swpFree == [] ==> r == -1 && mem == old(mem)
      ensures old(mem).swpFree != [] ==> r == 0 && s == old(mem).swpFree[0]
      ensures old(mem).swpFree != [] ==> mem == old(mem).(swpFree := old(mem).swpFree[1..])
    {
      r, s := swp.GetFreeFp();
      mem := mem.(swpFree := swp.Free());
    }

    method CopyOut(f: int, s: int)
      requires Valid() && InStorage(mem.ram, f) && InStorage(mem.swp, s)
      modifies this, swp.storage
      ensures Valid() && mem == old(mem).(swp := CopyFrame(old(mem).ram, f, old(mem).swp, s))
    {
      SwapCopyPage(ram, f, swp, s);
      mem := mem.(swp := swp.storage[..]);
    }

    method CopyIn(s: int, f: int)
      requires Valid() && InStorage(mem.ram, f) && InStorage(mem.swp, s)
      modifies this, ram.storage
      ensures Valid() && mem == old(mem).(ram := CopyFrame(old(mem).swp, s, old(mem).ram, f))
    {
      SwapCopyPage(swp, s, ram, f);
      mem := mem.(ram := ram.storage[..]);
    }

    method Resident(a: nat, p: nat, f: int)
      requires Valid() && a < |tables.mms| && p < MAX_PGN && 0 <= f < MAX_FPN
      modifies this, tables, tables.mms[a], tables.mms[a].pgd
      ensures Valid() && |old(mem).fifo| == |tables.mms|
      ensures mem == MapPage(old(mem), (a, p), f)
    {
      tables.SetResident(a, p, f);
      mem := MapPage(mem, (a, p), f);
    }

    method Oldest(a: nat) returns (p: nat)
      requires Valid() && a < |tables.mms| && mem.fifo[a] != []
      modifies this, tables, tables.mms[a], tables.mms[a].pgd
      ensures Valid() && p == old(mem).fifo[a][|old(mem).fifo[a]| - 1]
      ensures mem == old(mem).(fifo := old(mem).fifo[a := old(mem).fifo[a][..|old(mem).fifo[a]| - 1]])
    {
      p := tables.PopVictim(a);
      mem := mem.(fifo := tables.fifo);
    }

    method Swapped(a: nat, p: nat, s: int)
      requires Valid() && a < |tables.mms| && p < MAX_PGN && 0 <= s < MAX_SWPOFF
      modifies this, tables, tables.mms[a], tables.mms[a].pgd
      ensures Valid() && mem == old(mem).(where := old(mem).where[(a, p) := Swp(s)])
    {
      tables.SetSwapped(a, p, s);
      mem := mem.(where := tables.where);
    }

    method Entry(a: nat, p: nat) returns (e: Entry)
      requires Valid() && a < |tables.mms| && p < MAX_PGN
      ensures e == EntryOf(mem.where, (a, p))
    {
      e := tables.Lookup(a, p);
    }

    method NoVictim(a: nat) returns (none: bool)
      requires Valid() && a < |tables.mms|
      ensures |mem.fifo| == |tables.mms| && (none <==> mem.fifo[a] == [])
    {
      none := tables.NoVictim(a);
    }

    method Load(addr: int) returns (data: Byte)
      requires Valid() && 0 <= addr < |mem.ram|
      ensures data == mem.ram[addr]
    {
      var _, b := ram.Read(addr);
      data := b;
    }

    method Store(addr: int, data: Byte)
      requires Valid() && 0 <= addr < |mem.ram|
      modifies this, ram.storage
      ensures Valid() && mem == old(mem).(ram := old(mem).ram[addr := data])
    {
      var _ := ram.Write(addr, data);
      mem := mem.(ram := ram.storage[..]);
    }

    // ---- Operations ----------------------------------------------------------------------

    /** Free a RAM frame by evicting the oldest page of process a. */
    method SwapOut(a: nat) returns (r: int, f: int)
      requires Valid() && a < |tables.mms| && mem.ramFree == [] && EvictSafe(mem, a)
      modifies this, swp`freeFpList, swp`nodes, swp.storage, tables, tables.mms[a], tables.mms[a].pgd
      ensures Valid() && a < |old(mem).fifo| && r == if CanServe(old(mem), a) then 0 else -1
      ensures r == -1 ==> mem == old(mem)
      ensures r == 0 ==> Evictable(old(mem), a)
      ensures r == 0 ==> [f] == Evict(old(mem), a).ramFree && mem == Evict(old(mem), a).(ramFree := [])
    {
      hide Valid;
      var none := NoVictim(a);
      if none {
        return -1, 0;
      }
      var got, s := TakeSwp();
      if got != 0 {
        return -1, 0;
      }
      var p := Oldest(a);
      var e := Entry(a, p);
      f := e.f;
      CopyOut(f, s);
      Swapped(a, p, s);
      return 0, f;
    }

    method BringIn(a: nat, p: nat, tgt: int, f: int)
      requires Valid() && a < |tables.mms| && p < MAX_PGN && CanBring(mem, (a, p), tgt, f)
      modifies this, ram.storage, tables, tables.mms[a], tables.mms[a].pgd
      ensures Valid() && mem == Bring(old(mem), (a, p), tgt, f)
      ensures (a, p) in mem.where && mem.where[(a, p)] == Ram(f)
    {
      hide Valid;
      CopyIn(tgt, f);
      Resident(a, p, f);
    }

    /** pg_getpage: -1 for a page that was never mapped, or when its fault cannot be served. */
    method GetPage(a: nat, p: nat) returns (r: int, fpn: int)
      requires Valid() && Inv(mem) && a < |tables.mms| && p < MAX_PGN
      modifies this, ram`freeFpList, ram`nodes, ram.storage, swp`freeFpList, swp`nodes, swp.storage
      modifies tables, tables.mms[a], tables.mms[a].pgd
      ensures Valid() && Inv(mem)
      ensures (a, p) !in old(mem).where ==> r == -1 && mem == old(mem)
      ensures (a, p) in old(mem).where ==> mem == Fetch(old(mem), (a, p)) && (a, p) in mem.where
      ensures (a, p) in old(mem).where && mem.where[(a, p)].Ram? ==> r == 0 && fpn == mem.where[(a, p)].f
      ensures (a, p) in old(mem).where && !mem.where[(a, p)].Ram? ==> r == -1
    {
      hide Valid, Inv, Fetch, CanBring, Bring, Evict, Evictable, CanServe, Flat, EvictSafe;
      var e := Entry(a, p);
      match e
      case Absent => return -1, 0;
      case InRam(f) =>
        FetchForms(mem, (a, p));
        return 0, f;
      case InSwap(tgt) =>
        FetchForms(mem, (a, p));
        FetchIsInvisible(mem, (a, p));
        if mem.ramFree != [] { FrameOrNone(mem, a); }
        EvictIsSafe(mem, a);
        var got, f := TakeRam();
        if got != 0 {
          got, f := SwapOut(a);
          if got != 0 {
            return -1, 0;
          }
        }
        BringIn(a, p, tgt, f);
        return 0, f;
    }

    method GetAt(a: nat, p: nat, off: nat) returns (r: int, data: Byte)
      requires Valid() && Inv(mem) && a < |tables.mms| && p < MAX_PGN && off < PAGESZ
      modifies this, ram`freeFpList, ram`nodes, ram.storage, swp`freeFpList, swp`nodes, swp.storage
      modifies tables, tables.mms[a], tables.mms[a].pgd
      ensures Valid() && Inv(mem)
      ensures Loaded(old(mem), mem, (a, p), off, if r == 0 then Some(data) else None)
    {
      hide Valid, Inv, Fetch, DoPaged, Legal, Served, Loaded, Stored, FrameOf, CanServe;
      ghost var before := mem;
      if (a, p) in before.where { FetchThenLoad(before, (a, p), off); }
      LoadedMeans(before, (a, p), off);
      var got, fpn := GetPage(a, p);
      if got != 0 {
        return -1, 0;
      }
      data := Load(fpn * PAGESZ + off);
      return 0, data;
    }

    method SetAt(a: nat, p: nat, off: nat, value: Byte) returns (r: int)
      requires Valid() && Inv(mem) && a < |tables.mms| && p < MAX_PGN && off < PAGESZ
      modifies this, ram`freeFpList, ram`nodes, ram.storage, swp`freeFpList, swp`nodes, swp.storage
      modifies tables, tables.mms[a], tables.mms[a].pgd
      ensures Valid() && Inv(mem)
      ensures Stored(old(mem), mem, (a, p), off, value, r == 0)
    {
      hide Valid, Inv, Fetch, DoPaged, Legal, Served, Loaded, Stored, FrameOf, CanServe;
      ghost var before := mem;
      if (a, p) in before.where { FetchThenStore(before, (a, p), off, value); }
      StoredMeans(before, (a, p), off, value);
      var got, fpn := GetPage(a, p);
      if got != 0 {
        return -1;
      }
      Store(fpn * PAGESZ + off, value);
      return 0;
    }

    /** pg_getval: the load of PagingSpec at the page and offset of the address. */
    method GetVal(a: nat, addr: bv32) returns (r: int, data: Byte)
      requires Valid() && Inv(mem) && a < |tables.mms|
      modifies this, ram`freeFpList, ram`nodes, ram.storage, swp`freeFpList, swp`nodes, swp.storage
      modifies tables, tables.mms[a], tables.mms[a].pgd
      ensures Valid() && Inv(mem)
      ensures Loaded(old(mem), mem, (a, Words.Value(Address.Pgn(addr))), Words.Value(Address.Offst(addr)),
                     if r == 0 then Some(data) else None)
    {
      hide Valid, Inv, Loaded, Stored, Words.Value, Address.Pgn, Address.Offst;
      var p, off := Address.Split(addr);
      r, data := GetAt(a, p, off);
    }

    /** pg_setval: the store of PagingSpec. */
    method SetVal(a: nat, addr: bv32, value: Byte) returns (r: int)
      requires Valid() && Inv(mem) && a < |tables.mms|
      modifies this, ram`freeFpList, ram`nodes, ram.storage, swp`freeFpList, swp`nodes, swp.storage
      modifies tables, tables.mms[a], tables.mms[a].pgd
      ensures Valid() && Inv(mem)
      ensures Stored(old(mem), mem, (a, Words.Value(Address.Pgn(addr))), Words.Value(Address.Offst(addr)),
                     value, r == 0)
    {
      hide Valid, Inv, Loaded, Stored, Words.Value, Address.Pgn, Address.Offst;
      var p, off := Address.Split(addr);
      r := SetAt(a, p, off, value);
    }

    /** alloc_pages_range: the frames got, newest first, as the source's list grows. */
    method AllocPages(n: nat) returns (r: int, frames: seq<int>)
      requires Valid()
      modifies this, ram`freeFpList, ram`nodes
      ensures Valid() && mem == TakeFrames(old(mem), n)
      ensures r == if n <= |old(mem).ramFree| then 0 else -1
      ensures r == 0 ==> frames == Backwards(old(mem).ramFree[..n])
    {
      hide Valid;
      frames := [];
      for pgit := 0 to n
        invariant Valid() && pgit <= |old(mem).ramFree|
        invariant mem == TakeFrames(old(mem), pgit) && frames == Backwards(old(mem).ramFree[..pgit])
      {
        var got, f := TakeRam();
        if got != 0 {
          return -1, frames;
        }
        BackwardsOneMore(old(mem).ramFree, pgit);
        frames := [f] + frames;
      }
      return 0, frames;
    }

    /** vmap_page_range, one entry for each page. */
    method VmapPages(a: nat, p: nat, frames: seq<int>)
      requires Valid() && a < |tables.mms| && p + |frames| <= MAX_PGN
      requires forall f :: f in frames ==> 0 <= f < MAX_FPN
      modifies this, tables, tables.mms[a], tables.mms[a].pgd
      ensures Valid() && a < |old(mem).fifo| && mem == MapAll(old(mem), a, p, frames)
    {
      assert a < |mem.fifo|;
      hide Valid;
      var fpit, pgit := frames, 0;
      while fpit != []
        invariant pgit <= |frames| && fpit == frames[pgit..]
        invariant Valid() && a < |mem.fifo| && a < |old(mem).fifo|
        invariant MapAll(mem, a, p + pgit, fpit) == MapAll(old(mem), a, p, frames)
        decreases |fpit|
      {
        assert fpit[0] in frames;
        Resident(a, p + pgit, fpit[0]);
        fpit, pgit := fpit[1..], pgit + 1;
      }
    }

    /** vm_map_ram: maps n pages from the page of address mapstart on, or fails with -1. */
    method VmMapRam(a: nat, mapstart: bv32, n: nat) returns (r: int)
      requires Valid() && Inv(mem) && a < |tables.mms|
      requires Unmapped(mem, a, Words.Value(Address.Pgn(mapstart)), n)
      modifies this, ram`freeFpList, ram`nodes, tables, tables.mms[a], tables.mms[a].pgd
      ensures Valid() && Inv(mem)
      ensures r == if n <= |old(mem).ramFree| then 0 else -1
      ensures mem == DoPaged(old(mem), PagingSpec.Map(a, Words.Value(Address.Pgn(mapstart)), n)).0
    {
      hide *;
      var p, _ := Address.Split(mapstart);
      AllocThenMap(mem, a, p, n);
      var got, frames := AllocPages(n);
      if got < 0 {
        return -1;
      }
      VmapPages(a, p, frames);
      return 0;
    }
  }

  /** RAM and the active swap device in random-access mode, and n processes with no page. The
      invariant holds exactly if the entry fields can number the frames of both devices. A device
      of less than two frames has an undefined free list. */
  method Boot(ramSize: nat, swpSize: nat, n: nat) returns (m: Machine)
    requires ramSize / PAGESZ >= 2 && swpSize / PAGESZ >= 2
    ensures m.Valid() && |m.tables.mms| == n
    ensures Inv(m.mem) <==> ramSize / PAGESZ <= MAX_FPN && swpSize / PAGESZ <= MAX_SWPOFF
    ensures |m.mem.ram| == ramSize && |m.mem.swp| == swpSize && m.mem == Blank(m.mem.ram, m.mem.swp, n)
  {
    hide Inv, Lawful, Decode, NoPages, Formatted, Machine.Valid, Tables.Valid, Device.Valid;
    var ram := new Device(ramSize, true);
    var swp := new Device(swpSize, true);
    MmCodecIsLawful();
    var tables := new Tables(MmCodec(), n);
    m := new Machine(ram, swp, tables);
    assert m.mem == Blank(m.mem.ram, m.mem.swp, n);
    BlankInv(m.mem.ram, m.mem.swp, n);
  }
}
