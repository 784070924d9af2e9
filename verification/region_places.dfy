/** Where regions lie: which bytes the walk over the free list gives out, and which addresses
    __alloc returns, repaired and as written. */
module RegionPlaces {
  import opened Options
  import opened Geometry
  import opened Arith
  import opened RegionSpec
  import Address

  // ---- The walk ------------------------------------------------------------------------

  predicate FirstFit(rs: seq<Region>, size: nat, k: nat) {
    k < |rs| && Fits(rs[k], size) && forall i :: 0 <= i < k ==> !Fits(rs[i], size)
  }

  /** With the break it is first fit: the chunk is the lower end of the first region that holds
      the size, the regions before and behind stay, and a used-up region leaves the list unless
      it is the last. */
  lemma WalkIsFirstFit(rs: seq<Region>, size: nat, k: nat)
    requires FirstFit(rs, size, k)
    ensures var (left, cut) := Walk(rs, size, true);
      && cut == [Region(rs[k].start, rs[k].start + size)]
      && left == rs[..k] +
           (if rs[k].start + size < rs[k].end then [Region(rs[k].start + size, rs[k].end)] + rs[k + 1..]
            else if k + 1 < |rs| then rs[k + 1..]
            else [Region(rs[k].end, rs[k].end)])
  {
    FirstFitShrinks(rs, size, k);
    hide Walk;
  }

  lemma {:induction false} FirstFitShrinks(rs: seq<Region>, size: nat, k: nat)
    requires FirstFit(rs, size, k)
    ensures Walk(rs, size, true) == (rs[..k] + Shrink(rs[k..], size), [Chunk(rs[k], size)])
    decreases k
  {
    hide Shrink;
    if k == 0 {
      assert rs[..0] == [] && rs[0..] == rs && [] + Shrink(rs, size) == Shrink(rs, size);
    } else {
      assert forall i :: 0 <= i < k - 1 ==> rs[1..][i] == rs[i + 1];
      FirstFitShrinks(rs[1..], size, k - 1);
      assert rs[..k] == [rs[0]] + rs[1..][..k - 1] && rs[1..][k - 1..] == rs[k..];
      var n := Shrink(rs[k..], size);
      assert [rs[0]] + (rs[1..][..k - 1] + n) == ([rs[0]] + rs[1..][..k - 1]) + n;
    }
  }

  /** The j-th piece of this size from the lower end of a region. */
  function Piece(r: Region, size: nat, j: int): (p: Region) {
    Region(r.start + size * j, r.start + size * j + size)
  }

  /** All whole pieces of a region, in order. */
  function Pieces(r: Region, size: nat): (ps: seq<Region>)
    requires size > 0
    ensures |ps| == Length(r) / size && forall j :: 0 <= j < |ps| ==> ps[j] == Piece(r, size, j)
  {
    seq(Length(r) / size, j requires 0 <= j => Piece(r, size, j))
  }

  function AllPieces(rs: seq<Region>, size: nat): (ps: seq<Region>)
    requires size > 0
  {
    if rs == [] then [] else Pieces(rs[0], size) + AllPieces(rs[1..], size)
  }

  /** What the pieces leave of a region. */
  function Rest(r: Region, size: nat): (out: Region)
    requires size > 0
  {
    Region(r.start + size * (Length(r) / size), r.end)
  }

  predicate UsedUp(r: Region, size: nat)
    requires size > 0
  {
    Length(r) > 0 && Length(r) % size == 0
  }

  /** What they leave of the list: a region that is used up goes, unless it is the last. */
  function Rests(rs: seq<Region>, size: nat): (out: seq<Region>)
    requires size > 0
  {
    if rs == [] then []
    else (if UsedUp(rs[0], size) && |rs| > 1 then [] else [Rest(rs[0], size)]) + Rests(rs[1..], size)
  }

  lemma UnfitIsWhole(r: Region, size: nat)
    requires size > 0 && !Fits(r, size)
    ensures Pieces(r, size) == [] && Rest(r, size) == r && !UsedUp(r, size)
  {
    DivSmall(Length(r), size);
    if Length(r) > 0 { RemainderIs(Length(r), size, 0, Length(r)); }
  }

  lemma FirstPiece(r: Region, size: nat)
    requires size > 0 && Fits(r, size)
    ensures var r' := Region(r.start + size, r.end);
      && Pieces(r, size) == [Chunk(r, size)] + Pieces(r', size) && Rest(r, size) == Rest(r', size)
      && (UsedUp(r, size) <==> Length(r') == 0 || UsedUp(r', size))
  {
    var r' := Region(r.start + size, r.end);
    var n, q := Length(r'), Length(r') / size;
    DivStep(n, size);
    assert Length(r) == n + size;
    RemainderIs(n + size, size, q + 1, n % size);
    MulAtLeast(size, q + 1, q + 1);
    forall j | 0 <= j <= q
      ensures Pieces(r, size)[j] == ([Chunk(r, size)] + Pieces(r', size))[j]
    {
      MulAtLeast(size, j, j);
    }
  }

  lemma EmptyIsWhole(r: Region, size: nat)
    requires size > 0 && Length(r) == 0
    ensures Pieces(r, size) == [] && Rest(r, size) == r && !UsedUp(r, size)
  {
    DivSmall(0, size);
  }

  lemma PiecesCons(r: Region, tail: seq<Region>, size: nat)
    requires size > 0
    ensures AllPieces([r] + tail, size) == Pieces(r, size) + AllPieces(tail, size)
    ensures Rests([r] + tail, size)
         == (if UsedUp(r, size) && tail != [] then [] else [Rest(r, size)]) + Rests(tail, size)
  {
    assert ([r] + tail)[1..] == tail;
  }

  /** Without the break the walk gives out every whole piece of every region, from the first
      region on and each from its lower end, and leaves the rests. */
  lemma {:induction false} WalkGivesAllPieces(rs: seq<Region>, size: nat)
    requires size > 0
    ensures Walk(rs, size, false) == (Rests(rs, size), AllPieces(rs, size))
    decreases Bytes(rs), |rs|
  {
    if rs == [] {
    } else {
      hide Pieces, Rest, UsedUp, AllPieces, Rests, Shrink;
      var r, tail := rs[0], rs[1..];
      assert rs == [r] + tail;
      PiecesCons(r, tail, size);
      if !Fits(r, size) {
        UnfitIsWhole(r, size);
        WalkGivesAllPieces(tail, size);
        assert [] + AllPieces(tail, size) == AllPieces(tail, size);
      } else {
        WalkOfFit(rs, size, false);
        ShrinkSheds(r, tail, size);
        WalkGivesAllPieces(Shrink(rs, size), size);
      }
    }
  }

  /** Cutting a chunk off the first region takes away its first piece and leaves the rests. */
  lemma ShrinkSheds(r: Region, tail: seq<Region>, size: nat)
    requires size > 0 && Fits(r, size)
    ensures var (rs, n) := ([r] + tail, Shrink([r] + tail, size));
      && AllPieces(rs, size) == [Chunk(r, size)] + AllPieces(n, size) && Rests(rs, size) == Rests(n, size)
      && Bytes(n) < Bytes(rs)
  {
    hide Pieces, Rest, UsedUp, AllPieces, Rests;
    var r' := Region(r.start + size, r.end);
    PiecesCons(r, tail, size);
    PiecesCons(r', tail, size);
    FirstPiece(r, size);
    assert ([Chunk(r, size)] + Pieces(r', size)) + AllPieces(tail, size)
        == [Chunk(r, size)] + (Pieces(r', size) + AllPieces(tail, size));
    if r'.start < r'.end || tail == [] {
      assert Shrink([r] + tail, size) == [r'] + tail;
    } else {
      EmptyIsWhole(r', size);
      assert Shrink([r] + tail, size) == tail;
    }
  }

  lemma {:induction false} NoPieces(rs: seq<Region>, size: nat)
    requires size > 0 && forall i :: 0 <= i < |rs| ==> !Fits(rs[i], size)
    ensures AllPieces(rs, size) == []
  {
    if rs == [] {
    } else {
      UnfitIsWhole(rs[0], size);
      NoPieces(rs[1..], size);
    }
  }

  predicate LastFit(rs: seq<Region>, size: nat, k: nat) {
    k < |rs| && Fits(rs[k], size) && forall i :: k < i < |rs| ==> !Fits(rs[i], size)
  }

  lemma {:induction false} LastPiece(rs: seq<Region>, size: nat, k: nat)
    requires size > 0 && LastFit(rs, size, k)
    ensures Length(rs[k]) / size > 0
    ensures var ps := AllPieces(rs, size); ps != [] && ps[|ps| - 1] == Piece(rs[k], size, Length(rs[k]) / size - 1)
    decreases k
  {
    hide Piece, Pieces;
    FitHasPiece(rs[k], size);
    assert forall i :: 0 <= i < |rs| - 1 ==> rs[1..][i] == rs[i + 1];
    if k == 0 {
      NoPieces(rs[1..], size);
      hide AllPieces;
      OnlyPieces(rs, size);
    } else {
      LastPiece(rs[1..], size, k - 1);
    }
  }

  lemma FitHasPiece(r: Region, size: nat)
    requires size > 0 && Fits(r, size)
    ensures Length(r) / size > 0
  {
    DivStep(Length(r) - size, size);
  }

  lemma OnlyPieces(rs: seq<Region>, size: nat)
    requires size > 0 && rs != [] && AllPieces(rs[1..], size) == []
    ensures AllPieces(rs, size) == Pieces(rs[0], size)
  {
  }

  // ---- __alloc and __free --------------------------------------------------------------

  /** Where the repaired __alloc puts a region: at the lower end of the first free region that
      holds it, else on new pages from the break on. */
  lemma AllocPlaces(h: Heap, id: nat, size: nat, mapOk: bool)
    requires id < |h.live|
    ensures var (n, out) := Alloc(h, id, size, mapOk, false);
      && (forall k: nat :: FirstFit(h.free, size, k) ==>
            out == Some(h.free[k].start) && n.live == h.live[id := Region(h.free[k].start, h.free[k].start + size)]
            && n.end == h.end && n.sbrk == h.sbrk)
      && (mapOk && (forall r :: r in h.free ==> !Fits(r, size)) ==>
            out == Some(h.sbrk) && n.live == h.live[id := Region(h.sbrk, n.sbrk)] && n.free == h.free
            && Address.LeastMultiple(size, n.sbrk - h.sbrk) && n.end - h.end == n.sbrk - h.sbrk)
  {
    hide Walk, Address.PageAlign, Address.LeastMultiple;
    WalkFailsIffNothingFits(h.free, size, true);
    Address.PageAlignIsLeastMultiple(size);
    forall k: nat | FirstFit(h.free, size, k)
      ensures Walk(h.free, size, true).1 == [Region(h.free[k].start, h.free[k].start + size)]
    {
      WalkIsFirstFit(h.free, size, k);
    }
  }

  /** What __free does: the region goes to the front of the free list unless it is empty, and the
      symbol becomes invalid. So the next __alloc that fits the region gets its address. */
  lemma FreedIsGivenNext(h: Heap, id: int, id': nat, size: nat, mapOk: bool)
    requires |h.live| == SYMTBL_SZ && 0 <= id < SYMTBL_SZ && id' < SYMTBL_SZ
    ensures var n := Free(h, id).0;
      && n.live == h.live[id := Region(-1, -1)]
      && n.free == (if Empty(h.live[id]) then h.free else [h.live[id]] + h.free)
      && (!Empty(h.live[id]) && Fits(h.live[id], size) ==>
            && Alloc(n, id', size, mapOk, false).1 == Some(h.live[id].start)
            && Alloc(n, id', size, mapOk, false).0.live[id'] == Region(h.live[id].start, h.live[id].start + size))
  {
    hide Alloc;
    var n := Free(h, id).0;
    AllocPlaces(n, id', size, mapOk);
    if !Empty(h.live[id]) && Fits(h.live[id], size) { assert FirstFit(n.free, size, 0); }
  }

  /** Where the written __alloc puts one: on the last piece of the last free region that holds it,
      or else at the break, which stays where it is, whether the pages could be mapped or not. */
  lemma AllocAsWrittenPlaces(h: Heap, id: nat, size: nat, mapOk: bool)
    requires id < |h.live| && size > 0
    ensures var (n, out) := Alloc(h, id, size, mapOk, true);
      && n.sbrk == h.sbrk && n.start == h.start
      && (forall k: nat :: LastFit(h.free, size, k) ==>
            var p := Piece(h.free[k], size, Length(h.free[k]) / size - 1);
            out == Some(p.start) && n.live == h.live[id := p] && n.free == Rests(h.free, size) && n.end == h.end)
      && ((forall r :: r in h.free ==> !Fits(r, size)) ==>
            && out == Some(h.sbrk) && n.free == h.free && Address.LeastMultiple(size, n.end - h.end)
            && n.live == h.live[id := Region(h.sbrk, h.sbrk + n.end - h.end)])
  {
    hide Walk, Rests, AllPieces, Piece, Address.PageAlign, Address.LeastMultiple;
    WalkFailsIffNothingFits(h.free, size, false);
    WalkGivesAllPieces(h.free, size);
    Address.PageAlignIsLeastMultiple(size);
    forall k: nat | LastFit(h.free, size, k)
      ensures var ps := AllPieces(h.free, size);
        Length(h.free[k]) / size > 0 && ps != [] && ps[|ps| - 1] == Piece(h.free[k], size, Length(h.free[k]) / size - 1)
    {
      LastPiece(h.free, size, k);
    }
  }

  // ---- Runs as written -----------------------------------------------------------------

  predicate Callable(h: Heap, op: HeapOp) {
    |h.live| == SYMTBL_SZ && (op.AllocOp? ==> op.id < SYMTBL_SZ && op.size > 0)
  }

  function DoWritten(h: Heap, op: HeapOp): (r: Heap)
    requires Callable(h, op)
    ensures |r.live| == SYMTBL_SZ
  {
    match op
    case AllocOp(id, size, mapOk) => Alloc(h, id, size, mapOk, true).0
    case FreeOp(rgid) => Free(h, rgid).0
  }

  predicate AllCallable(h: Heap, ops: seq<HeapOp>)
    decreases |ops|
  {
    ops == [] || (Callable(h, ops[0]) && AllCallable(DoWritten(h, ops[0]), ops[1..]))
  }

  function RunWritten(h: Heap, ops: seq<HeapOp>): (r: Heap)
    requires AllCallable(h, ops)
    decreases |ops|
  {
    if ops == [] then h else RunWritten(DoWritten(h, ops[0]), ops[1..])
  }

  lemma {:induction false} BreakNeverMoves(h: Heap, ops: seq<HeapOp>)
    requires AllCallable(h, ops)
    ensures RunWritten(h, ops).sbrk == h.sbrk
    decreases |ops|
  {
    if ops == [] {
    } else {
      BreakNeverMoves(DoWritten(h, ops[0]), ops[1..]);
    }
  }

  predicate NothingFits(h: Heap, size: nat) { forall r :: r in h.free ==> !Fits(r, size) }

  /** As written, all allocations that find no free region get the same address, whatever comes
      between them: the area's start. */
  lemma WrittenAllocsCollide(ops: seq<HeapOp>, id: nat, size: nat, mapOk: bool)
    requires AllCallable(Fresh(), ops) && id < SYMTBL_SZ && size > 0 && NothingFits(RunWritten(Fresh(), ops), size)
    ensures id < |RunWritten(Fresh(), ops).live|
    ensures var (n, out) := Alloc(RunWritten(Fresh(), ops), id, size, mapOk, true);
      out == Some(0) && n.live[id].start == 0 && n.live[id].end >= size
  {
    hide Alloc;
    BreakNeverMoves(Fresh(), ops);
    RunKeepsTable(Fresh(), ops);
    AllocAsWrittenPlaces(RunWritten(Fresh(), ops), id, size, mapOk);
  }

  lemma {:induction false} RunKeepsTable(h: Heap, ops: seq<HeapOp>)
    requires AllCallable(h, ops) && |h.live| == SYMTBL_SZ
    ensures |RunWritten(h, ops).live| == SYMTBL_SZ
    decreases |ops|
  {
    if ops == [] {
    } else {
      RunKeepsTable(DoWritten(h, ops[0]), ops[1..]);
    }
  }

  /** One allocation after another, each for an id of its own. */
  predicate OnlyAllocs(ops: seq<HeapOp>) {
    && (forall i :: 0 <= i < |ops| ==> ops[i].AllocOp? && ops[i].id < SYMTBL_SZ && ops[i].size > 0)
    && (forall i, j :: 0 <= i < j < |ops| ==> ops[i].id != ops[j].id)
  }

  /** No free byte, and the break at 0. */
  predicate NothingFree(h: Heap) { |h.live| == SYMTBL_SZ && h.free == [Region(0, 0)] && h.sbrk == 0 }

  lemma {:induction false} WrittenRegions(h: Heap, ops: seq<HeapOp>, id: nat)
    requires NothingFree(h) && OnlyAllocs(ops) && id < SYMTBL_SZ
    ensures AllCallable(h, ops) && |RunWritten(h, ops).live| == SYMTBL_SZ
    ensures (forall i :: 0 <= i < |ops| ==> ops[i].id != id) ==> RunWritten(h, ops).live[id] == h.live[id]
    ensures (exists i :: 0 <= i < |ops| && ops[i].id == id) ==>
      RunWritten(h, ops).live[id].start == 0 < RunWritten(h, ops).live[id].end
    decreases |ops|
  {
    hide Alloc;
    if ops == [] {
    } else {
      var op, rest := ops[0], ops[1..];
      AllocAsWrittenPlaces(h, op.id, op.size, op.mapOk);
      assert forall i :: 0 <= i < |rest| ==> rest[i] == ops[i + 1];
      WrittenRegions(DoWritten(h, op), rest, id);
    }
  }

  /** So variables overlap as soon as there are two: a run of written allocations for different
      ids has disjoint regions exactly if it has at most one. */
  lemma WrittenAllocsOverlapIffTwo(ops: seq<HeapOp>)
    requires OnlyAllocs(ops)
    ensures AllCallable(Fresh(), ops)
    ensures PairwiseDisjoint(RunWritten(Fresh(), ops).live) <==> |ops| <= 1
  {
    hide RunWritten, AllCallable, Fresh;
    FreshIsFree();
    forall id: nat | id < SYMTBL_SZ
      ensures AllCallable(Fresh(), ops) && |RunWritten(Fresh(), ops).live| == SYMTBL_SZ
      ensures (forall i :: 0 <= i < |ops| ==> ops[i].id != id) ==> RunWritten(Fresh(), ops).live[id] == Region(0, 0)
      ensures (exists i :: 0 <= i < |ops| && ops[i].id == id) ==>
        RunWritten(Fresh(), ops).live[id].start == 0 < RunWritten(Fresh(), ops).live[id].end
    {
      WrittenRegions(Fresh(), ops, id);
    }
    WrittenRegions(Fresh(), ops, 0);
    var live := RunWritten(Fresh(), ops).live;
    if |ops| >= 2 {
      OverlapAtZero(live, ops[0].id, ops[1].id);
    } else {
      OneRegion(live, if ops == [] then 0 else ops[0].id);
    }
  }

  lemma FreshIsFree()
    ensures NothingFree(Fresh()) && forall id :: 0 <= id < SYMTBL_SZ ==> Fresh().live[id] == Region(0, 0)
  {
  }

  lemma OverlapAtZero(live: seq<Region>, a: nat, b: nat)
    requires a < |live| && b < |live| && a != b
    requires live[a].start == 0 < live[a].end && live[b].start == 0 < live[b].end
    ensures !PairwiseDisjoint(live)
  {
    assert !Disjoint(live[a], live[b]) && !Disjoint(live[b], live[a]);
  }

  lemma OneRegion(live: seq<Region>, a: nat)
    requires forall id :: 0 <= id < |live| && id != a ==> live[id] == Region(0, 0)
    ensures PairwiseDisjoint(live)
  {
  }
}
