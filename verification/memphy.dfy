/** What mm-memphy.c promises, on values: frame contents and the pool of free frames. */
module Frames {
  import opened Geometry
  import opened Options
  import opened Arith

  type Byte = bv8

  predicate InStorage(storage: seq<Byte>, fpn: int) {
    0 <= fpn && (fpn + 1) * PAGESZ <= |storage|
  }

  function FrameOf(storage: seq<Byte>, fpn: int): (f: seq<Byte>)
    requires InStorage(storage, fpn)
    ensures |f| == PAGESZ
  {
    storage[fpn * PAGESZ..(fpn + 1) * PAGESZ]
  }

  /** The destination after __swap_cp_page. */
  function CopyFrame(src: seq<Byte>, sf: int, dst: seq<Byte>, df: int): (r: seq<Byte>)
    requires InStorage(src, sf) && InStorage(dst, df)
    ensures |r| == |dst|
  {
    dst[..df * PAGESZ] + FrameOf(src, sf) + dst[(df + 1) * PAGESZ..]
  }

  /** The destination after n cells. */
  ghost function CopyCells(src: seq<Byte>, sf: int, dst: seq<Byte>, df: int, n: nat): (r: seq<Byte>)
    requires InStorage(src, sf) && InStorage(dst, df) && n <= PAGESZ
    ensures |r| == |dst| && (n == 0 ==> r == dst) && (n == PAGESZ ==> r == CopyFrame(src, sf, dst, df))
  {
    dst[..df * PAGESZ] + src[sf * PAGESZ..sf * PAGESZ + n] + dst[df * PAGESZ + n..]
  }

  /** Copying within one device overwrites no cell that is still to be read. */
  lemma NextCell(src: seq<Byte>, sf: int, dst: seq<Byte>, df: int, n: nat)
    requires InStorage(src, sf) && InStorage(dst, df) && n < PAGESZ
    ensures 0 <= sf * PAGESZ + n < |src| && 0 <= df * PAGESZ + n < |dst|
    ensures CopyCells(src, sf, dst, df, n + 1)
         == CopyCells(src, sf, dst, df, n)[df * PAGESZ + n := src[sf * PAGESZ + n]]
    ensures src == dst ==> CopyCells(src, sf, dst, df, n)[sf * PAGESZ + n] == src[sf * PAGESZ + n]
  {
    if sf < df { assert sf * PAGESZ + n < df * PAGESZ; } else if sf > df { assert sf * PAGESZ >= (df + 1) * PAGESZ; }
  }

  /** A copy fills its destination frame and leaves every other frame alone. */
  lemma CopyChangesOneFrame(src: seq<Byte>, sf: int, dst: seq<Byte>, df: int, f: int)
    requires InStorage(src, sf) && InStorage(dst, df) && InStorage(dst, f)
    ensures FrameOf(CopyFrame(src, sf, dst, df), f) == if f == df then FrameOf(src, sf) else FrameOf(dst, f)
  {
    var r := CopyFrame(src, sf, dst, df);
    forall k | 0 <= k < PAGESZ
      ensures FrameOf(r, f)[k] == if f == df then FrameOf(src, sf)[k] else FrameOf(dst, f)[k]
    {
      assert FrameOf(r, f)[k] == r[f * PAGESZ + k];
      assert f < df ==> f * PAGESZ + k < df * PAGESZ;
      assert f > df ==> f * PAGESZ + k >= (df + 1) * PAGESZ;
    }
  }

  // ---- Evict and restore ---------------------------------------------------------------

  datatype Devices = Devices(ram: seq<Byte>, swp: seq<Byte>)

  datatype DevOp =
    | WriteRam(addr: nat, b: Byte)
    | WriteSwp(addr: nat, b: Byte)
    | CopyIn(sf: nat, rf: nat)     // swap to RAM
    | CopyOut(rf: nat, sf: nat)    // RAM to swap
    | CopyRam(rf: nat, rf': nat)
    | CopySwp(sf: nat, sf': nat)

  predicate Possible(d: Devices, op: DevOp) {
    match op
    case WriteRam(a, _) => a < |d.ram|
    case WriteSwp(a, _) => a < |d.swp|
    case CopyIn(sf, rf) => InStorage(d.swp, sf) && InStorage(d.ram, rf)
    case CopyOut(rf, sf) => InStorage(d.ram, rf) && InStorage(d.swp, sf)
    case CopyRam(rf, rf') => InStorage(d.ram, rf) && InStorage(d.ram, rf')
    case CopySwp(sf, sf') => InStorage(d.swp, sf) && InStorage(d.swp, sf')
  }

  function Do(d: Devices, op: DevOp): (d': Devices)
    requires Possible(d, op)
    ensures |d'.ram| == |d.ram| && |d'.swp| == |d.swp|
  {
    match op
    case WriteRam(a, b) => d.(ram := d.ram[a := b])
    case WriteSwp(a, b) => d.(swp := d.swp[a := b])
    case CopyIn(sf, rf) => d.(ram := CopyFrame(d.swp, sf, d.ram, rf))
    case CopyOut(rf, sf) => d.(swp := CopyFrame(d.ram, rf, d.swp, sf))
    case CopyRam(rf, rf') => d.(ram := CopyFrame(d.ram, rf, d.ram, rf'))
    case CopySwp(sf, sf') => d.(swp := CopyFrame(d.swp, sf, d.swp, sf'))
  }

  /** The operation writes no byte of swap frame f. */
  predicate Spares(op: DevOp, f: nat) {
    match op
    case WriteSwp(a, _) => !(f * PAGESZ <= a < (f + 1) * PAGESZ)
    case CopyOut(_, sf) => sf != f
    case CopySwp(_, sf') => sf' != f
    case _ => true
  }

  predicate AllPossible(d: Devices, ops: seq<DevOp>)
    decreases |ops|
  {
    ops == [] || (Possible(d, ops[0]) && AllPossible(Do(d, ops[0]), ops[1..]))
  }

  function DoAll(d: Devices, ops: seq<DevOp>): (d': Devices)
    requires AllPossible(d, ops)
    ensures |d'.ram| == |d.ram| && |d'.swp| == |d.swp|
    decreases |ops|
  {
    if ops == [] then d else DoAll(Do(d, ops[0]), ops[1..])
  }

  lemma {:induction false} SparedFrameStays(d: Devices, ops: seq<DevOp>, f: nat)
    requires AllPossible(d, ops) && InStorage(d.swp, f) && forall i :: 0 <= i < |ops| ==> Spares(ops[i], f)
    ensures FrameOf(DoAll(d, ops).swp, f) == FrameOf(d.swp, f)
    decreases |ops|
  {
    if ops == [] {
    } else {
      var op := ops[0];
      match op {
        case CopyOut(rf, sf) => CopyChangesOneFrame(d.ram, rf, d.swp, sf, f);
        case CopySwp(sf, sf') => CopyChangesOneFrame(d.swp, sf, d.swp, sf', f);
        case _ => assert Spares(op, f);
      }
      assert FrameOf(Do(d, op).swp, f) == FrameOf(d.swp, f);
      SparedFrameStays(Do(d, op), ops[1..], f);
    }
  }

  /** Evict-and-restore: copy RAM frame rf to swap frame sf, then do anything that spares sf,
      then copy sf back to any RAM frame: it holds the original bytes of rf. */
  lemma EvictThenRestore(d: Devices, rf: nat, sf: nat, ops: seq<DevOp>, rf': nat)
    requires InStorage(d.ram, rf) && InStorage(d.swp, sf) && InStorage(d.ram, rf')
    requires AllPossible(Do(d, CopyOut(rf, sf)), ops) && forall i :: 0 <= i < |ops| ==> Spares(ops[i], sf)
    ensures FrameOf(Do(DoAll(Do(d, CopyOut(rf, sf)), ops), CopyIn(sf, rf')).ram, rf') == FrameOf(d.ram, rf)
  {
    var evicted := Do(d, CopyOut(rf, sf));
    CopyChangesOneFrame(d.ram, rf, d.swp, sf, sf);
    SparedFrameStays(evicted, ops, sf);
    var later := DoAll(evicted, ops);
    CopyChangesOneFrame(later.swp, sf, later.ram, rf', rf');
  }

  // ---- The pool of free frames ---------------------------------------------------------

  datatype Pool = Pool(free: seq<int>, held: set<int>)

  datatype PoolOp = GetFrame | PutFrame(fpn: int)

  function NumFrames(maxsz: int): (r: int) { if maxsz >= 0 then maxsz / PAGESZ else -((-maxsz) / PAGESZ) }

  /** MEMPHY_format with two frames or more. */
  function Formatted(n: nat): (r: Pool) { Pool(seq(n, i => i), {}) }

  ghost predicate Partition(n: nat, p: Pool) {
    && Distinct(p.free)
    && (forall f :: f in p.free ==> f !in p.held)
    && (forall f :: f in p.free || f in p.held <==> 0 <= f < n)
  }

  /** MEMPHY_get_freefp, MEMPHY_put_freefp. */
  function PoolStep(p: Pool, op: PoolOp): (r: (Pool, Option<int>)) {
    match op
    case GetFrame =>
      if p.free == [] then (p, None) else (Pool(p.free[1..], p.held + {p.free[0]}), Some(p.free[0]))
    case PutFrame(f) => (Pool([f] + p.free, p.held - {f}), None)
  }

  ghost predicate OnlyHeldPut(p: Pool, ops: seq<PoolOp>)
    decreases |ops|
  {
    ops == [] || ((ops[0].PutFrame? ==> ops[0].fpn in p.held) && OnlyHeldPut(PoolStep(p, ops[0]).0, ops[1..]))
  }

  ghost function PoolRun(p: Pool, ops: seq<PoolOp>): (r: Pool)
    decreases |ops|
  {
    if ops == [] then p else PoolRun(PoolStep(p, ops[0]).0, ops[1..])
  }

  lemma PoolStepPartition(n: nat, p: Pool, op: PoolOp)
    requires Partition(n, p) && (op.PutFrame? ==> op.fpn in p.held)
    ensures Partition(n, PoolStep(p, op).0)
  {
    var q := PoolStep(p, op).0;
    match op
    case GetFrame =>
      if p.free != [] {
        assert p.free == [p.free[0]] + q.free;
        assert Distinct(q.free) && p.free[0] !in q.free;
      }
    case PutFrame(f) => assert f !in p.free;
  }

  lemma {:induction false} PoolRunPartition(n: nat, p: Pool, ops: seq<PoolOp>)
    requires Partition(n, p) && OnlyHeldPut(p, ops)
    ensures Partition(n, PoolRun(p, ops))
    decreases |ops|
  {
    if ops == [] {
    } else {
      PoolStepPartition(n, p, ops[0]);
      PoolRunPartition(n, PoolStep(p, ops[0]).0, ops[1..]);
    }
  }

  lemma {:induction false} FormattedRun(n: nat, i: nat)
    requires i <= n
    ensures var p := PoolRun(Formatted(n), seq(i, _ => GetFrame));
      |p.free| == n - i && forall k :: 0 <= k < n - i ==> p.free[k] == i + k
    decreases i
  {
    if i == 0 {
    } else {
      FormattedRun(n, i - 1);
      assert seq(i, _ => GetFrame) == seq(i - 1, _ => GetFrame) + [GetFrame];
      PoolRunSnoc(Formatted(n), seq(i - 1, _ => GetFrame), GetFrame);
    }
  }

  lemma {:induction false} PoolRunSnoc(p: Pool, ops: seq<PoolOp>, op: PoolOp)
    ensures PoolRun(p, ops + [op]) == PoolStep(PoolRun(p, ops), op).0
    decreases |ops|
  {
    if ops == [] {
      assert [op][1..] == [] && [] + [op] == [op];
      assert PoolRun(PoolStep(p, op).0, []) == PoolStep(p, op).0;
    } else {
      assert (ops + [op])[1..] == ops[1..] + [op];
      PoolRunSnoc(PoolStep(p, ops[0]).0, ops[1..], op);
    }
  }

  /** A formatted device hands its frames out in order, and then fails. */
  lemma FramesComeInOrder(n: nat, i: nat)
    requires i <= n
    ensures PoolStep(PoolRun(Formatted(n), seq(i, _ => GetFrame)), GetFrame).1 == if i < n then Some(i) else None
  {
    FormattedRun(n, i);
  }

  /** And a frame that is put back is the next to go. */
  lemma LastPutIsNextGot(p: Pool, f: int)
    ensures PoolStep(PoolStep(p, PutFrame(f)).0, GetFrame).1 == Some(f)
    ensures PoolStep(PoolStep(p, PutFrame(f)).0, GetFrame).0.free == p.free
  {
  }

  /** Conservation: after formatting and any gets and puts of held frames, free and held
      frames partition 0 .. n-1 without repetition, a get fails exactly when every frame is
      held, and every byte of a held frame lies within the device. */
  lemma FramesAreConserved(maxsz: nat, ops: seq<PoolOp>)
    requires OnlyHeldPut(Formatted(maxsz / PAGESZ), ops)
    ensures var (n, p) := (maxsz / PAGESZ, PoolRun(Formatted(maxsz / PAGESZ), ops));
      && Partition(n, p)
      && (PoolStep(p, GetFrame).1 == None <==> forall f :: 0 <= f < n ==> f in p.held)
      && (PoolStep(p, GetFrame).1.Some? ==>
            0 <= PoolStep(p, GetFrame).1.value < n && PoolStep(p, GetFrame).1.value !in p.held)
      && (forall f :: f in p.held ==> 0 <= f * PAGESZ && (f + 1) * PAGESZ <= maxsz)
  {
    var n, start := maxsz / PAGESZ, Formatted(maxsz / PAGESZ);
    forall f | 0 <= f < n
      ensures f in start.free
    {
      assert start.free[f] == f;
    }
    PoolRunPartition(n, start, ops);
    var p := PoolRun(start, ops);
    if p.free != [] { assert p.free[0] in p.free; }
  }
}

/** mm-memphy.c and __swap_cp_page of mm.c. */
module Memphy {
  import opened Geometry
  import opened Frames

  class FrameNode {
    var fpn: int
    var next: FrameNode?
  }

  ghost function Head(nodes: seq<FrameNode>): (r: FrameNode?) {
    if nodes == [] then null else nodes[0]
  }

  ghost predicate Linked(nodes: seq<FrameNode>)
    reads nodes
  {
    forall i :: 0 <= i < |nodes| ==> nodes[i].next == Head(nodes[i + 1..])
  }

  lemma LinkedTail(nodes: seq<FrameNode>)
    requires Linked(nodes) && nodes != []
    ensures Linked(nodes[1..]) && nodes[0].next == Head(nodes[1..])
  {
    forall i | 0 <= i < |nodes| - 1
      ensures nodes[1..][i].next == Head(nodes[1..][i + 1..])
    {
      assert nodes[1..][i] == nodes[i + 1] && nodes[1..][i + 1..] == nodes[i + 2..];
    }
  }

  lemma LinkedCons(node: FrameNode, nodes: seq<FrameNode>)
    requires Linked(nodes) && node.next == Head(nodes)
    ensures Linked([node] + nodes)
  {
    var all := [node] + nodes;
    forall i | 0 <= i < |all|
      ensures all[i].next == Head(all[i + 1..])
    {
      if i > 0 { assert all[i] == nodes[i - 1] && all[i + 1..] == nodes[i..]; } else { assert all[1..] == nodes; }
    }
  }

  class Device {
    const storage: array<Byte>
    const maxsz: int
    const rdmflg: bool
    var freeFpList: FrameNode?
    /** The nodes of the free list, in order. */
    ghost var nodes: seq<FrameNode>

    ghost predicate Valid()
      reads this, nodes
    {
      && storage.Length == maxsz
      && freeFpList == Head(nodes)
      && Linked(nodes)
    }

    /** The frame numbers on the free list. */
    ghost function Free(): (f: seq<int>)
      reads this, nodes
      ensures |f| == |nodes| && forall i :: 0 <= i < |nodes| ==> f[i] == nodes[i].fpn
    {
      seq(|nodes|, i requires 0 <= i < |nodes| reads this, nodes => nodes[i].fpn)
    }

    /** init_memphy. The source leaves the list of a device of less than two frames, or its last
        link, uninitialised, so nothing is promised about the list then. */
    constructor (maxSize: nat, randomFlg: bool)
      ensures maxsz == maxSize && storage.Length == maxSize && rdmflg == randomFlg && fresh(storage)
      ensures NumFrames(maxSize) >= 2 ==> Valid() && Free() == Formatted(NumFrames(maxSize)).free
      ensures maxSize / PAGESZ >= 2 ==>
        |Free()| == maxSize / PAGESZ && forall i :: 0 <= i < |Free()| ==> Free()[i] == i
      ensures fresh(nodes)
    {
      storage := new Byte[maxSize];
      maxsz := maxSize;
      rdmflg := randomFlg;
      freeFpList := null;
      nodes := [];
      new;
      var _ := Format();
    }

    /** MEMPHY_format. With exactly one frame the node's link is never set, so nothing is
        promised about the list then. */
    method Format() returns (r: int)
      requires storage.Length == maxsz
      modifies this
      ensures r == if NumFrames(maxsz) <= 0 then -1 else 0
      ensures r == -1 ==> nodes == old(nodes) && freeFpList == old(freeFpList)
      ensures r == 0 ==> fresh(nodes) && freeFpList != null && freeFpList.fpn == 0
      ensures NumFrames(maxsz) >= 2 ==> Valid() && Free() == Formatted(NumFrames(maxsz)).free
      ensures maxsz / PAGESZ >= 2 ==>
        |Free()| == maxsz / PAGESZ && forall i :: 0 <= i < |Free()| ==> Free()[i] == i
    {
      var numfp := NumFrames(maxsz);
      if numfp <= 0 {
        return -1;
      }
      var fst := new FrameNode;
      fst.fpn := 0;
      freeFpList := fst;
      nodes := [fst];
      for iter := 1 to numfp
        invariant |nodes| == iter && nodes[iter - 1] == fst && freeFpList == nodes[0]
        invariant fresh(nodes)
        invariant forall i :: 0 <= i < iter ==> nodes[i].fpn == i
        invariant forall i :: 0 <= i < iter - 1 ==> nodes[i] != fst && nodes[i].next == nodes[i + 1]
        invariant iter > 1 ==> fst.next == null
      {
        var newfst := new FrameNode;
        newfst.fpn := iter;
        newfst.next := null;
        fst.next := newfst;
        fst := newfst;
        nodes := nodes + [newfst];
      }
      return 0;
    }

    /** MEMPHY_get_freefp: 0 and the first free frame, or -1. */
    method GetFreeFp() returns (r: int, fpn: int)
      requires Valid()
      modifies this`freeFpList, this`nodes
      ensures Valid() && nodes == if old(nodes) == [] then [] else old(nodes)[1..]
      ensures old(Free()) == [] ==> r == -1 && Free() == []
      ensures old(Free()) != [] ==> r == 0 && fpn == old(Free())[0] && Free() == old(Free())[1..]
    {
      var fp := freeFpList;
      if fp == null {
        return -1, 0;
      }
      fpn := fp.fpn;
      freeFpList := fp.next;
      ghost var was := nodes;
      nodes := nodes[1..];
      LinkedTail(was);
      return 0, fpn;
    }

    /** MEMPHY_put_freefp. */
    method PutFreeFp(fpn: int) returns (r: int)
      requires Valid()
      modifies this`freeFpList, this`nodes
      ensures Valid() && |nodes| > 0 && fresh(nodes[0]) && nodes[1..] == old(nodes)
      ensures r == 0 && Free() == [fpn] + old(Free())
    {
      hide Linked;
      ghost var was := nodes;
      var node := new FrameNode;
      node.fpn := fpn;
      node.next := freeFpList;
      freeFpList := node;
      LinkedCons(node, was);
      nodes := [node] + was;
      assert nodes[1..] == was;
      return 0;
    }

    /** MEMPHY_read. A sequential device answers -1: its mode is refused by MEMPHY_seq_read. */
    method Read(addr: int) returns (r: int, value: Byte)
      requires rdmflg ==> 0 <= addr < storage.Length
      ensures rdmflg ==> r == 0 && value == storage[addr]
      ensures !rdmflg ==> r == -1
    {
      if rdmflg {
        return 0, storage[addr];
      }
      return -1, 0;
    }

    /** MEMPHY_write. */
    method Write(addr: int, data: Byte) returns (r: int)
      requires rdmflg ==> 0 <= addr < storage.Length
      modifies storage
      ensures rdmflg ==> r == 0 && storage[..] == old(storage[..])[addr := data]
      ensures !rdmflg ==> r == -1 && storage[..] == old(storage[..])
    {
      if rdmflg {
        storage[addr] := data;
        return 0;
      }
      return -1;
    }
  }

  /** __swap_cp_page between random-access devices, which may be the same one. */
  method SwapCopyPage(src: Device, srcfpn: int, dst: Device, dstfpn: int)
    requires src.rdmflg && dst.rdmflg
    requires InStorage(src.storage[..], srcfpn) && InStorage(dst.storage[..], dstfpn)
    modifies dst.storage
    ensures dst.storage[..] == CopyFrame(old(src.storage[..]), srcfpn, old(dst.storage[..]), dstfpn)
  {
    hide InStorage, CopyCells, CopyFrame;
    var s, d := srcfpn * PAGESZ, dstfpn * PAGESZ;
    ghost var from, was := src.storage[..], dst.storage[..];
    for cell := 0 to PAGESZ
      invariant dst.storage[..] == CopyCells(from, srcfpn, was, dstfpn, cell)
      invariant src.storage != dst.storage ==> src.storage[..] == from
    {
      NextCell(from, srcfpn, was, dstfpn, cell);
      var _, data := src.Read(s + cell);
      var _ := dst.Write(d + cell, data);
    }
  }
}
