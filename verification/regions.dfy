/** The heap of a process on values: free regions, symbol table, and the break. */
module RegionSpec {
  import opened Options
  import opened Geometry
  import Address
  import Arith

  const SYMTBL_SZ: nat := 30

  datatype Region = Region(start: int, end: int)

  /** From init_mm: an empty first node, empty symbols, an empty area at 0. */
  datatype Heap = Heap(free: seq<Region>, live: seq<Region>, start: int, end: int, sbrk: int)

  predicate In(r: Region, a: int) { r.start <= a < r.end }

  /** How many regions hold address a. */
  function Count(rs: seq<Region>, a: int): (r: nat) {
    if rs == [] then 0 else (if In(rs[0], a) then 1 else 0) + Count(rs[1..], a)
  }

  predicate Fits(r: Region, size: int) { r.start + size <= r.end }

  function Length(r: Region): (out: nat) { if r.start < r.end then r.end - r.start else 0 }

  function Bytes(rs: seq<Region>): (r: nat) {
    if rs == [] then 0 else Length(rs[0]) + Bytes(rs[1..])
  }

  /** The list after a chunk is cut off its first region: a used-up node takes over the next
      one, and the last node of the list stays as an empty region. */
  function Shrink(rs: seq<Region>, size: nat): (out: seq<Region>)
    requires rs != [] && Fits(rs[0], size)
    ensures Bytes(out) + size == Bytes(rs)
  {
    var r := rs[0];
    if r.start + size < r.end then [Region(r.start + size, r.end)] + rs[1..]
    else if |rs| > 1 then rs[1..]
    else [Region(r.end, r.end)]
  }

  lemma ShrinkAt(rs: seq<Region>, k: nat, size: nat)
    requires k < |rs| && Fits(rs[k], size)
    ensures rs[..k] + Shrink(rs[k..], size) ==
      if rs[k].start + size < rs[k].end then rs[k := Region(rs[k].start + size, rs[k].end)]
      else if k + 1 < |rs| then rs[..k] + rs[k + 1..]
      else rs[k := Region(rs[k].end, rs[k].end)]
  {
  }

  function Chunk(r: Region, size: nat): (out: Region) { Region(r.start, r.start + size) }

  /** get_free_vmrg_area: the list it leaves and the chunks it cuts off. The source goes on
      after a fit and returns the last chunk; with `once` the walk ends at the first. */
  function Walk(rs: seq<Region>, size: nat, once: bool): (out: (seq<Region>, seq<Region>))
    requires size > 0 || once
    decreases Bytes(rs), |rs|
  {
    if rs == [] then ([], [])
    else if !Fits(rs[0], size) then
      var (left, cut) := Walk(rs[1..], size, once);
      ([rs[0]] + left, cut)
    else if once then (Shrink(rs, size), [Chunk(rs[0], size)])
    else
      var (left, cut) := Walk(Shrink(rs, size), size, once);
      (left, [Chunk(rs[0], size)] + cut)
  }

  /** A walk that is to give `all` has come to region k with these chunks cut off. */
  ghost predicate WalkedTo(all: (seq<Region>, seq<Region>), rs: seq<Region>, k: nat, cut: seq<Region>,
                           size: nat, once: bool)
    requires size > 0 || once
  {
    k <= |rs| && var (left, more) := Walk(rs[k..], size, once); all.0 == rs[..k] + left && all.1 == cut + more
  }

  lemma WalkStart(rs: seq<Region>, size: nat, once: bool)
    requires size > 0 || once
    ensures WalkedTo(Walk(rs, size, once), rs, 0, [], size, once)
  {
    assert rs[0..] == rs;
  }

  lemma WalkSkips(all: (seq<Region>, seq<Region>), rs: seq<Region>, k: nat, cut: seq<Region>, size: nat, once: bool)
    requires (size > 0 || once) && WalkedTo(all, rs, k, cut, size, once) && k < |rs| && !Fits(rs[k], size)
    ensures WalkedTo(all, rs, k + 1, cut, size, once) && Bytes(rs[k + 1..]) <= Bytes(rs[k..])
  {
    assert rs[k..][1..] == rs[k + 1..];
  }

  lemma WalkCuts(all: (seq<Region>, seq<Region>), rs: seq<Region>, k: nat, cut: seq<Region>, size: nat, once: bool)
    requires (size > 0 || once) && WalkedTo(all, rs, k, cut, size, once) && k < |rs| && Fits(rs[k], size)
    ensures var (n, c) := (rs[..k] + Shrink(rs[k..], size), cut + [Chunk(rs[k], size)]);
      if once then WalkedTo(all, n, |n|, c, size, once)
      else WalkedTo(all, n, k, c, size, once) && Bytes(n[k..]) < Bytes(rs[k..])
  {
    hide Shrink, Bytes;
    var tail := Shrink(rs[k..], size);
    WalkOfFit(rs[k..], size, once);
    Splice(rs, k, tail);
    Prepend(cut, Chunk(rs[k], size), if once then [] else Walk(tail, size, once).1);
    hide Walk;
  }

  lemma WalkOfFit(rs: seq<Region>, size: nat, once: bool)
    requires (size > 0 || once) && rs != [] && Fits(rs[0], size)
    ensures var (left, cut) := Walk(rs, size, once);
      if once then left == Shrink(rs, size) && cut == [Chunk(rs[0], size)]
      else var (left', cut') := Walk(Shrink(rs, size), size, once); left == left' && cut == [Chunk(rs[0], size)] + cut'
  {
  }

  lemma Splice(rs: seq<Region>, k: nat, tail: seq<Region>)
    requires k <= |rs|
    ensures var n := rs[..k] + tail; n[..k] == rs[..k] && n[k..] == tail && n[..|n|] == n && n[|n|..] == []
  {
  }

  lemma Prepend(cut: seq<Region>, c: Region, more: seq<Region>)
    ensures cut + ([c] + more) == (cut + [c]) + more
  {
  }

  lemma WalkEnds(all: (seq<Region>, seq<Region>), rs: seq<Region>, cut: seq<Region>, size: nat, once: bool)
    requires (size > 0 || once) && WalkedTo(all, rs, |rs|, cut, size, once)
    ensures all.0 == rs && all.1 == cut
  {
  }

  // ---- The loop without a break --------------------------------------------------------

  /** One iteration on what is left of the list: a chunk is cut off the first region, or the
      walk goes on to the next. */
  function Next(rs: seq<Region>, size: nat): (out: seq<Region>)
    requires rs != []
  {
    if Fits(rs[0], size) then Shrink(rs, size) else rs[1..]
  }

  /** The loop of get_free_vmrg_area makes n iterations on this list. */
  predicate Iterates(rs: seq<Region>, size: nat, n: nat)
    decreases n
  {
    n == 0 || (rs != [] && Iterates(Next(rs, size), size, n - 1))
  }

  /** With a positive size it ends: bytes left, then nodes left, get fewer. */
  lemma {:induction false} PositiveSizeEnds(rs: seq<Region>, size: nat, n: nat)
    requires size > 0 && Iterates(rs, size, n)
    ensures n <= Bytes(rs) + |rs|
    decreases n
  {
    if n == 0 {
    } else {
      PositiveSizeEnds(Next(rs, size), size, n - 1);
    }
  }

  /** Where the loop never gets past region i: a fit of size 0 leaves the list as it is unless
      it drops an empty node for the next. */
  predicate StandsStill(rs: seq<Region>, i: int) {
    0 <= i < |rs| && Fits(rs[i], 0) && (Length(rs[i]) > 0 || i == |rs| - 1)
  }

  lemma {:induction false} StandsForEver(rs: seq<Region>, i: nat, n: nat)
    requires StandsStill(rs, i)
    ensures Iterates(rs, 0, n)
    decreases n
  {
    if n == 0 {
    } else if Fits(rs[0], 0) && (Length(rs[0]) > 0 || |rs| == 1) {
      assert Shrink(rs, 0) == rs;
      StandsForEver(rs, i, n - 1);
    } else {
      StandsForEver(rs[1..], i - 1, n - 1);
    }
  }

  lemma {:induction false} NothingStandsStillEnds(rs: seq<Region>, n: nat)
    requires Iterates(rs, 0, n) && forall i :: !StandsStill(rs, i)
    ensures n <= |rs|
    decreases n
  {
    if n == 0 {
    } else {
      assert !StandsStill(rs, 0);
      forall i
        ensures !StandsStill(rs[1..], i)
      {
        assert !StandsStill(rs, i + 1);
      }
      NothingStandsStillEnds(rs[1..], n - 1);
    }
  }

  ghost predicate RunsForEver(rs: seq<Region>) { forall n: nat :: Iterates(rs, 0, n) }

  lemma EndsWithin(rs: seq<Region>)
    requires forall i :: !StandsStill(rs, i)
    ensures !RunsForEver(rs)
  {
    var n: nat := |rs| + 1;
    if Iterates(rs, 0, n) { NothingStandsStillEnds(rs, n); }
  }

  /** With size 0 it runs for ever exactly when there is such a region. */
  lemma ZeroSizeDivergesIff(rs: seq<Region>)
    ensures RunsForEver(rs) <==> exists i :: StandsStill(rs, i)
  {
    if i :| StandsStill(rs, i) {
      forall n: nat
        ensures Iterates(rs, 0, n)
      {
        StandsForEver(rs, i, n);
      }
    } else {
      EndsWithin(rs);
    }
  }

  // ---- What the walk does --------------------------------------------------------------

  lemma CountCons(r: Region, rs: seq<Region>, a: int)
    ensures Count([r] + rs, a) == (if In(r, a) then 1 else 0) + Count(rs, a)
  {
    assert ([r] + rs)[1..] == rs;
  }

  lemma ShrinkCount(rs: seq<Region>, size: nat, a: int)
    requires rs != [] && Fits(rs[0], size)
    ensures Count(rs, a) == Count(Shrink(rs, size), a) + (if In(Chunk(rs[0], size), a) then 1 else 0)
  {
    if rs[0].start + size < rs[0].end { CountCons(Region(rs[0].start + size, rs[0].end), rs[1..], a); }
  }

  /** No byte is created, lost or doubled: it stays on the list or is in one of the chunks. */
  lemma {:induction false} WalkKeepsBytes(rs: seq<Region>, size: nat, once: bool, a: int)
    requires size > 0 || once
    ensures var (left, cut) := Walk(rs, size, once); Count(rs, a) == Count(left, a) + Count(cut, a)
    decreases Bytes(rs), |rs|
  {
    if rs == [] {
    } else if !Fits(rs[0], size) {
      WalkKeepsBytes(rs[1..], size, once, a);
      CountCons(rs[0], Walk(rs[1..], size, once).0, a);
    } else {
      ShrinkCount(rs, size, a);
      if !once {
        WalkKeepsBytes(Shrink(rs, size), size, once, a);
        CountCons(Chunk(rs[0], size), Walk(Shrink(rs, size), size, once).1, a);
      }
    }
  }

  predicate Inside(c: Region, r: Region) { r.start <= c.start <= c.end <= r.end }

  /** Every chunk has the size asked for and lies inside one region of the old list. */
  lemma {:induction false} ChunksLieInside(rs: seq<Region>, size: nat, once: bool, c: Region)
    requires (size > 0 || once) && c in Walk(rs, size, once).1
    ensures c.end == c.start + size && exists r :: r in rs && Inside(c, r)
    decreases Bytes(rs), |rs|
  {
    if !Fits(rs[0], size) {
      ChunksLieInside(rs[1..], size, once, c);
      var r :| r in rs[1..] && Inside(c, r);
      assert r in rs;
    } else if c == Chunk(rs[0], size) {
      assert rs[0] in rs && Inside(c, rs[0]);
    } else {
      ChunksLieInside(Shrink(rs, size), size, once, c);
      var r :| r in Shrink(rs, size) && Inside(c, r);
      if r in rs[1..] { assert r in rs; } else { assert rs[0] in rs && Inside(c, rs[0]); }
    }
  }

  /** How many chunks the list holds. */
  function Chunks(rs: seq<Region>, size: nat): (r: nat)
    requires size > 0
  {
    if rs == [] then 0 else Length(rs[0]) / size + Chunks(rs[1..], size)
  }

  lemma ChunksCons(r: Region, tail: seq<Region>, size: nat)
    requires size > 0
    ensures Chunks([r] + tail, size) == Length(r) / size + Chunks(tail, size)
  {
    assert ([r] + tail)[1..] == tail;
  }

  lemma ShrinkChunks(rs: seq<Region>, size: nat)
    requires size > 0 && rs != [] && Fits(rs[0], size)
    ensures Chunks(rs, size) == 1 + Chunks(Shrink(rs, size), size)
  {
    hide Chunks;
    var r, tail := rs[0], rs[1..];
    assert rs == [r] + tail;
    ChunksCons(r, tail, size);
    Arith.DivSmall(0, size);
    Arith.DivStep(Length(r) - size, size);
    if r.start + size < r.end {
      ChunksCons(Region(r.start + size, r.end), tail, size);
    } else if tail == [] {
      assert Shrink(rs, size) == [Region(r.end, r.end)] + tail;
      ChunksCons(Region(r.end, r.end), tail, size);
    }
  }

  lemma UnfitChunks(rs: seq<Region>, size: nat)
    requires size > 0 && rs != [] && !Fits(rs[0], size)
    ensures Chunks(rs, size) == Chunks(rs[1..], size)
  {
    Arith.DivSmall(Length(rs[0]), size);
  }

  /** The walk without a break cuts off every chunk the list holds; with one, at most one. */
  lemma {:induction false} WalkCutsAll(rs: seq<Region>, size: nat, once: bool)
    requires size > 0
    ensures |Walk(rs, size, once).1| == if once && Chunks(rs, size) > 1 then 1 else Chunks(rs, size)
    decreases Bytes(rs), |rs|
  {
    if rs == [] {
      assert Chunks(rs, size) == 0;
    } else if !Fits(rs[0], size) {
      hide Chunks;
      UnfitChunks(rs, size);
      WalkCutsAll(rs[1..], size, once);
    } else {
      hide Chunks;
      ShrinkChunks(rs, size);
      if !once { WalkCutsAll(Shrink(rs, size), size, once); }
    }
  }

  /** Nothing is cut off exactly when nothing fits, and then the list is unchanged. */
  lemma {:induction false} WalkFailsIffNothingFits(rs: seq<Region>, size: nat, once: bool)
    requires size > 0 || once
    ensures Walk(rs, size, once).1 == [] <==> forall r :: r in rs ==> !Fits(r, size)
    ensures Walk(rs, size, once).1 == [] ==> Walk(rs, size, once).0 == rs
    decreases |rs|
  {
    if rs != [] && !Fits(rs[0], size) {
      WalkFailsIffNothingFits(rs[1..], size, once);
      assert rs == [rs[0]] + rs[1..];
    } else if rs != [] {
      assert rs[0] in rs;
    }
  }

  // ---- Disjointness --------------------------------------------------------------------

  /** No chunk can be mistaken for the mark of a failed walk. */
  lemma ChunksStartInside(h: Heap, size: nat, once: bool)
    requires (size > 0 || once) && Wf(h)
    ensures forall c :: c in Walk(h.free, size, once).1 ==> c.start >= 0
    ensures h.free == [] ==> Walk(h.free, size, once) == ([], [])
  {
    forall c | c in Walk(h.free, size, once).1
      ensures c.start >= 0
    {
      ChunksLieInside(h.free, size, once, c);
    }
  }

  predicate Disjoint(r: Region, s: Region) {
    r.end <= s.start || s.end <= r.start || r.start >= r.end || s.start >= s.end
  }

  predicate PairwiseDisjoint(rs: seq<Region>) { forall i, j :: 0 <= i < j < |rs| ==> Disjoint(rs[i], rs[j]) }

  lemma {:induction false} CountPositive(rs: seq<Region>, i: int, a: int)
    requires 0 <= i < |rs| && In(rs[i], a)
    ensures Count(rs, a) >= 1
  {
    if i == 0 {
    } else {
      CountPositive(rs[1..], i - 1, a);
    }
  }

  lemma {:induction false} CountTwo(rs: seq<Region>, i: int, j: int, a: int)
    requires 0 <= i < j < |rs| && In(rs[i], a) && In(rs[j], a)
    ensures Count(rs, a) >= 2
  {
    if i == 0 { CountPositive(rs[1..], j - 1, a); } else { CountTwo(rs[1..], i - 1, j - 1, a); }
  }

  lemma {:induction false} CountedOnce(rs: seq<Region>, a: int)
    requires PairwiseDisjoint(rs)
    ensures Count(rs, a) <= 1
  {
    if rs == [] {
    } else {
      assert forall i, j :: 0 <= i < j < |rs| - 1 ==> rs[1..][i] == rs[i + 1] && rs[1..][j] == rs[j + 1];
      CountedOnce(rs[1..], a);
      if Count(rs[1..], a) == 1 {
        var i := Holder(rs[1..], a);
        assert Disjoint(rs[0], rs[i + 1]);
      }
    }
  }

  lemma {:induction false} Holder(rs: seq<Region>, a: int) returns (i: nat)
    requires Count(rs, a) >= 1
    ensures i < |rs| && In(rs[i], a)
  {
    if In(rs[0], a) { i := 0; } else { i := Holder(rs[1..], a); i := i + 1; }
  }

  /** Regions are pairwise disjoint exactly when no byte is counted twice. */
  lemma DisjointIffCountedOnce(rs: seq<Region>)
    ensures PairwiseDisjoint(rs) <==> forall a :: Count(rs, a) <= 1
  {
    if PairwiseDisjoint(rs) {
      forall a ensures Count(rs, a) <= 1 { CountedOnce(rs, a); }
    } else {
      var i, j :| 0 <= i < j < |rs| && !Disjoint(rs[i], rs[j]);
      var a := if rs[i].start >= rs[j].start then rs[i].start else rs[j].start;
      CountTwo(rs, i, j, a);
    }
  }

  lemma {:induction false} CountAppend(rs: seq<Region>, ss: seq<Region>, a: int)
    ensures Count(rs + ss, a) == Count(rs, a) + Count(ss, a)
  {
    if rs == [] {
      assert rs + ss == ss;
    } else {
      CountAppend(rs[1..], ss, a);
      assert (rs + ss)[1..] == rs[1..] + ss;
    }
  }

  /** On a pairwise disjoint list the walk, with or without the break, leaves a pairwise
      disjoint list, also together with all the chunks it cut off. */
  lemma WalkIsSound(rs: seq<Region>, size: nat, once: bool)
    requires (size > 0 || once) && PairwiseDisjoint(rs)
    ensures var (left, cut) := Walk(rs, size, once); PairwiseDisjoint(left + cut) && PairwiseDisjoint(left)
  {
    var (left, cut) := Walk(rs, size, once);
    DisjointIffCountedOnce(rs);
    forall a
      ensures Count(left + cut, a) <= 1 && Count(left, a) <= 1
    {
      WalkKeepsBytes(rs, size, once, a);
      CountAppend(left, cut, a);
    }
    DisjointIffCountedOnce(left + cut);
    DisjointIffCountedOnce(left);
  }

  // ---- Allocating and freeing variables ------------------------------------------------

  ghost predicate Wf(h: Heap) {
    && |h.live| == SYMTBL_SZ && 0 <= h.start <= h.sbrk
    && forall r :: r in h.free ==> r.start >= 0
  }

  function Fresh(): (r: Heap) {
    Heap([Region(0, 0)], seq(SYMTBL_SZ, _ => Region(0, 0)), 0, 0, 0)
  }

  /** __alloc. Meant: the walk stops at a fit, the break moves with the area's end, and a
      failed mapping (mapOk) fails the call. As written: no break, the end alone moves, and the
      result of the mapping is ignored. */
  function Alloc(h: Heap, id: nat, size: nat, mapOk: bool, asWritten: bool): (r: (Heap, Option<int>))
    requires id < |h.live| && (size > 0 || !asWritten)
    ensures |r.0.live| == |h.live|
  {
    var (left, cut) := Walk(h.free, size, !asWritten);
    var inc := Address.PageAlign(size);
    if cut != [] then
      (h.(free := left, live := h.live[id := cut[|cut| - 1]]), Some(cut[|cut| - 1].start))
    else if asWritten then
      (h.(live := h.live[id := Region(h.sbrk, h.sbrk + inc)], end := h.end + inc), Some(h.sbrk))
    else if mapOk then
      (h.(live := h.live[id := Region(h.sbrk, h.sbrk + inc)], end := h.end + inc, sbrk := h.sbrk + inc), Some(h.sbrk))
    else (h, None)
  }

  /** enlist_vm_freerg_list. */
  function Enlist(free: seq<Region>, r: Region): (out: seq<Region>) {
    if r.start >= r.end then free else [r] + free
  }

  /** __free. Meant: get_symrg_byid, which lets id 30 through to one past the table, refuses it
      like every other id outside the table. */
  function Free(h: Heap, id: int): (r: (Heap, int))
    requires |h.live| == SYMTBL_SZ
  {
    if id < 0 || id >= SYMTBL_SZ then (h, -1)
    else (h.(free := Enlist(h.free, h.live[id]), live := h.live[id := Region(-1, -1)]), 0)
  }

  /** Exactly one region holds address a inside the area, none outside. */
  ghost predicate CountsTo(h: Heap, a: int) {
    Count(h.free, a) + Count(h.live, a) == if h.start <= a < h.sbrk then 1 else 0
  }

  /** Live and free regions share no byte and cover exactly [start, sbrk); the break is a whole
      number of pages above the start and is the area's end. */
  ghost predicate Tiles(h: Heap) {
    && Wf(h) && h.sbrk == h.end && (h.sbrk - h.start) % PAGESZ == 0
    && forall a :: CountsTo(h, a)
  }

  lemma {:induction false} CountNone(rs: seq<Region>, a: int)
    requires forall i :: 0 <= i < |rs| ==> !In(rs[i], a)
    ensures Count(rs, a) == 0
  {
    if rs == [] {
    } else {
      assert forall i :: 0 <= i < |rs| - 1 ==> rs[1..][i] == rs[i + 1];
      CountNone(rs[1..], a);
    }
  }

  lemma FreshTiles()
    ensures Tiles(Fresh())
  {
    forall a
      ensures CountsTo(Fresh(), a)
    {
      CountNone(Fresh().live, a);
      CountNone(Fresh().free, a);
    }
  }

  ghost predicate Covered(rs: seq<Region>, a: int) { exists r :: r in rs && In(r, a) }

  /** What tiling means for the regions themselves. */
  lemma TilingMeans(h: Heap)
    requires Tiles(h)
    ensures PairwiseDisjoint(h.free + h.live)
    ensures forall a :: h.start <= a < h.sbrk <==> Covered(h.free + h.live, a)
  {
    var all := h.free + h.live;
    forall a
      ensures Count(all, a) <= 1
      ensures h.start <= a < h.sbrk <==> Covered(all, a)
    {
      assert CountsTo(h, a);
      CountAppend(h.free, h.live, a);
      if Count(all, a) == 1 {
        var i := Holder(all, a);
        assert all[i] in all;
      } else if Covered(all, a) {
        var r :| r in all && In(r, a);
        var i :| 0 <= i < |all| && all[i] == r;
        CountPositive(all, i, a);
      }
    }
    DisjointIffCountedOnce(all);
  }

  lemma {:induction false} CountUpdate(rs: seq<Region>, i: nat, r: Region, a: int)
    requires i < |rs|
    ensures Count(rs[i := r], a) + (if In(rs[i], a) then 1 else 0) == Count(rs, a) + (if In(r, a) then 1 else 0)
  {
    if i == 0 {
      assert rs[i := r] == [r] + rs[1..];
    } else {
      assert rs[i := r][1..] == rs[1..][i - 1 := r];
      CountUpdate(rs[1..], i - 1, r, a);
    }
  }

  predicate Empty(r: Region) { r.start >= r.end }

  lemma PageAlignCovers(size: nat)
    ensures Address.PageAlign(size) >= size && Address.PageAlign(size) % PAGESZ == 0
    ensures size > 0 ==> Address.PageAlign(size) > 0
  {
    Address.PageAlignIsLeastMultiple(size);
  }

  lemma WalkStaysNonNegative(rs: seq<Region>, size: nat, once: bool)
    requires (size > 0 || once) && forall r :: r in rs ==> r.start >= 0
    ensures forall r :: r in Walk(rs, size, once).0 ==> r.start >= 0
    decreases Bytes(rs), |rs|
  {
    if rs == [] {
    } else if !Fits(rs[0], size) {
      WalkStaysNonNegative(rs[1..], size, once);
    } else if !once {
      assert forall r :: r in Shrink(rs, size) ==> r in rs[1..] || r.start >= rs[0].start;
      WalkStaysNonNegative(Shrink(rs, size), size, once);
    }
  }

  /** The bytes of the heap before and after an allocation that found a free region. */
  lemma AllocCounts(h: Heap, id: nat, size: nat, asWritten: bool, a: int)
    requires id < |h.live| && (size > 0 || !asWritten) && Walk(h.free, size, !asWritten).1 != []
    ensures var (n, cut) := (Alloc(h, id, size, true, asWritten).0, Walk(h.free, size, !asWritten).1);
      Count(n.free, a) + Count(n.live, a) + (if In(h.live[id], a) then 1 else 0) + Count(cut[..|cut| - 1], a)
      == Count(h.free, a) + Count(h.live, a)
  {
    var (left, cut) := Walk(h.free, size, !asWritten);
    WalkKeepsBytes(h.free, size, !asWritten, a);
    CountUpdate(h.live, id, cut[|cut| - 1], a);
    CountAppend(cut[..|cut| - 1], [cut[|cut| - 1]], a);
    assert cut == cut[..|cut| - 1] + [cut[|cut| - 1]];
  }

  lemma OneChunkAtMost(rs: seq<Region>, size: nat)
    ensures |Walk(rs, size, true).1| <= 1
  {
  }

  lemma AllocWf(h: Heap, id: nat, size: nat, mapOk: bool, asWritten: bool)
    requires Wf(h) && id < |h.live| && (size > 0 || !asWritten)
    ensures Wf(Alloc(h, id, size, mapOk, asWritten).0)
  {
    WalkStaysNonNegative(h.free, size, !asWritten);
    PageAlignCovers(size);
  }

  lemma AllocCountsTo(h: Heap, id: nat, size: nat, mapOk: bool, a: int)
    requires Tiles(h) && id < |h.live| && Alloc(h, id, size, mapOk, false).1.Some?
    ensures CountsTo(Alloc(h, id, size, mapOk, false).0, a) <==> !In(h.live[id], a)
  {
    hide Address.PageAlign;
    assert CountsTo(h, a);
    OneChunkAtMost(h.free, size);
    if Walk(h.free, size, true).1 != [] {
      AllocCounts(h, id, size, false, a);
    } else {
      PageAlignCovers(size);
      CountUpdate(h.live, id, Region(h.sbrk, h.sbrk + Address.PageAlign(size)), a);
      if In(h.live[id], a) { CountPositive(h.live, id, a); }
    }
  }

  /** Allocation keeps the tiling exactly when the variable holds no region yet, or fails. */
  lemma AllocTilesIffFree(h: Heap, id: nat, size: nat, mapOk: bool)
    requires Tiles(h) && id < SYMTBL_SZ
    ensures var (n, out) := Alloc(h, id, size, mapOk, false); Tiles(n) <==> out == None || Empty(h.live[id])
  {
    hide Alloc, CountsTo;
    AllocEnds(h, id, size, mapOk);
    var (n, out) := Alloc(h, id, size, mapOk, false);
    if out.Some? {
      AllocWf(h, id, size, mapOk, false);
      forall a ensures CountsTo(n, a) <==> !In(h.live[id], a) { AllocCountsTo(h, id, size, mapOk, a); }
      if !Empty(h.live[id]) { assert In(h.live[id], h.live[id].start) && !CountsTo(n, h.live[id].start); }
    }
  }

  lemma AllocEnds(h: Heap, id: nat, size: nat, mapOk: bool)
    requires id < |h.live| && h.sbrk == h.end && (h.sbrk - h.start) % PAGESZ == 0
    ensures var (n, out) := Alloc(h, id, size, mapOk, false);
      (out == None ==> n == h) && n.sbrk == n.end && (n.sbrk - n.start) % PAGESZ == 0
  {
    hide Walk, Address.PageAlign;
    WalkFailsIffNothingFits(h.free, size, true);
    PageAlignCovers(size);
  }

  /** As written it does so exactly when the variable holds no region yet and the free list
      holds one chunk of the size: with more, all but the last are lost; with none, the break
      stays behind the end. */
  lemma AllocAsWrittenTilesIffOneChunk(h: Heap, id: nat, size: nat, mapOk: bool)
    requires Tiles(h) && id < SYMTBL_SZ && size > 0
    ensures Tiles(Alloc(h, id, size, mapOk, true).0) <==> Chunks(h.free, size) == 1 && Empty(h.live[id])
  {
    hide Address.PageAlign;
    var (n, cut) := (Alloc(h, id, size, mapOk, true).0, Walk(h.free, size, false).1);
    WalkCutsAll(h.free, size, false);
    AllocWf(h, id, size, mapOk, true);
    if cut == [] {
      PageAlignCovers(size);
      assert n.sbrk != n.end;
    } else {
      forall a
        ensures CountsTo(n, a) <==> Count(cut[..|cut| - 1], a) == 0 && !In(h.live[id], a)
      {
        assert CountsTo(h, a);
        AllocCounts(h, id, size, true, a);
      }
      if !Empty(h.live[id]) {
        assert !CountsTo(n, h.live[id].start);
      } else if |cut| > 1 {
        assert cut[0] in cut;
        ChunksLieInside(h.free, size, false, cut[0]);
        CountPositive(cut[..|cut| - 1], 0, cut[0].start);
        assert !CountsTo(n, cut[0].start);
      }
    }
  }

  /** What a successful allocation gives: a region of at least the size asked for, and nothing
      else changes in the table; it fails exactly when nothing fits and no page can be mapped. */
  lemma AllocGivesRegion(h: Heap, id: nat, size: nat, mapOk: bool)
    requires id < |h.live|
    ensures var (n, out) := Alloc(h, id, size, mapOk, false);
      && (out == None <==> !mapOk && forall r :: r in h.free ==> !Fits(r, size))
      && (out == None ==> n == h)
      && (out.Some? ==> n.live == h.live[id := n.live[id]] && n.live[id].start == out.value)
      && (out.Some? ==> n.live[id].end - n.live[id].start >= size)
  {
    hide Address.PageAlign;
    WalkFailsIffNothingFits(h.free, size, true);
    PageAlignCovers(size);
    var cut := Walk(h.free, size, true).1;
    if cut != [] { ChunksLieInside(h.free, size, true, cut[|cut| - 1]); }
  }

  /** No byte of the new region was held by any variable. */
  lemma AllocGivesUnusedBytes(h: Heap, id: nat, size: nat, mapOk: bool, a: int)
    requires Tiles(h) && id < SYMTBL_SZ && Empty(h.live[id])
    ensures var (n, out) := Alloc(h, id, size, mapOk, false);
      out.Some? && In(n.live[id], a) ==> Count(h.live, a) == 0
  {
    hide Alloc;
    var (n, out) := Alloc(h, id, size, mapOk, false);
    if out.Some? && In(n.live[id], a) {
      AllocTilesIffFree(h, id, size, mapOk);
      AllocGivesRegion(h, id, size, mapOk);
      assert CountsTo(n, a);
      CountUpdate(h.live, id, n.live[id], a);
      CountPositive(n.live, id, a);
    }
  }

  lemma FreeTiles(h: Heap, id: int)
    requires Tiles(h)
    ensures Tiles(Free(h, id).0)
  {
    if 0 <= id < SYMTBL_SZ {
      var n := Free(h, id).0;
      forall a
        ensures CountsTo(n, a)
      {
        assert CountsTo(h, a);
        CountUpdate(h.live, id, Region(-1, -1), a);
        CountCons(h.live[id], h.free, a);
      }
      if !Empty(h.live[id]) {
        CountPositive(h.live, id, h.live[id].start);
        assert CountsTo(h, h.live[id].start);
      }
    }
  }

  // ---- Without freeing before reuse ----------------------------------------------------

  /** At most one region holds address a inside the area, none outside. */
  ghost predicate CountsAtMost(h: Heap, a: int) {
    Count(h.free, a) + Count(h.live, a) <= if h.start <= a < h.sbrk then 1 else 0
  }

  /** What is left of the tiling if ids are used again while they hold a region: those regions
      are lost, but still no byte is in two. */
  ghost predicate Packed(h: Heap) {
    && Wf(h) && h.sbrk == h.end && (h.sbrk - h.start) % PAGESZ == 0
    && forall a :: CountsAtMost(h, a)
  }

  lemma TilesArePacked(h: Heap)
    requires Tiles(h)
    ensures Packed(h)
  {
    forall a
      ensures CountsAtMost(h, a)
    {
      assert CountsTo(h, a);
    }
  }

  lemma AllocCountsAtMost(h: Heap, id: nat, size: nat, mapOk: bool, a: int)
    requires Packed(h) && id < |h.live|
    ensures CountsAtMost(Alloc(h, id, size, mapOk, false).0, a)
  {
    hide Address.PageAlign;
    assert CountsAtMost(h, a);
    PageAlignCovers(size);
    if Walk(h.free, size, true).1 != [] {
      AllocCounts(h, id, size, false, a);
    } else {
      CountUpdate(h.live, id, Region(h.sbrk, h.sbrk + Address.PageAlign(size)), a);
    }
  }

  /** Allocation keeps that, whatever the id holds. */
  lemma AllocPacked(h: Heap, id: nat, size: nat, mapOk: bool)
    requires Packed(h) && id < |h.live|
    ensures Packed(Alloc(h, id, size, mapOk, false).0)
  {
    hide Alloc, CountsAtMost;
    AllocWf(h, id, size, mapOk, false);
    AllocEnds(h, id, size, mapOk);
    forall a
      ensures CountsAtMost(Alloc(h, id, size, mapOk, false).0, a)
    {
      AllocCountsAtMost(h, id, size, mapOk, a);
    }
  }

  lemma FreePacked(h: Heap, id: int)
    requires Packed(h)
    ensures Packed(Free(h, id).0)
  {
    if 0 <= id < SYMTBL_SZ {
      var n := Free(h, id).0;
      forall a
        ensures CountsAtMost(n, a)
      {
        assert CountsAtMost(h, a);
        CountUpdate(h.live, id, Region(-1, -1), a);
        CountCons(h.live[id], h.free, a);
      }
      if !Empty(h.live[id]) {
        CountPositive(h.live, id, h.live[id].start);
        assert CountsAtMost(h, h.live[id].start);
      }
    }
  }

  // ---- Whole runs ----------------------------------------------------------------------

  datatype HeapOp = AllocOp(id: nat, size: nat, mapOk: bool) | FreeOp(rgid: int)

  /** Each id is freed before reuse. */
  predicate Proper(h: Heap, op: HeapOp) {
    match op
    case AllocOp(id, _, _) => id < SYMTBL_SZ && id < |h.live| && Empty(h.live[id])
    case FreeOp(_) => |h.live| == SYMTBL_SZ
  }

  function Do(h: Heap, op: HeapOp): (r: Heap)
    requires Proper(h, op)
  {
    match op
    case AllocOp(id, size, mapOk) => Alloc(h, id, size, mapOk, false).0
    case FreeOp(rgid) => Free(h, rgid).0
  }

  predicate AllProper(h: Heap, ops: seq<HeapOp>)
    decreases |ops|
  {
    ops == [] || (Proper(h, ops[0]) && AllProper(Do(h, ops[0]), ops[1..]))
  }

  function DoAll(h: Heap, ops: seq<HeapOp>): (r: Heap)
    requires AllProper(h, ops)
    decreases |ops|
  {
    if ops == [] then h else DoAll(Do(h, ops[0]), ops[1..])
  }

  lemma {:induction false} RunTiles(h: Heap, ops: seq<HeapOp>)
    requires Tiles(h) && AllProper(h, ops)
    ensures Tiles(DoAll(h, ops))
    decreases |ops|
  {
    if ops == [] {
    } else {
      match ops[0] {
        case AllocOp(id, size, mapOk) => AllocTilesIffFree(h, id, size, mapOk);
        case FreeOp(rgid) => FreeTiles(h, rgid);
      }
      RunTiles(Do(h, ops[0]), ops[1..]);
    }
  }

  /** Live and free regions tile the heap after any run of allocations and frees. */
  lemma HeapIsTiled(ops: seq<HeapOp>)
    requires AllProper(Fresh(), ops)
    ensures var h := DoAll(Fresh(), ops);
      && PairwiseDisjoint(h.free + h.live)
      && (forall a :: h.start <= a < h.sbrk <==> Covered(h.free + h.live, a))
      && h.sbrk == h.end && (h.sbrk - h.start) % PAGESZ == 0
  {
    FreshTiles();
    RunTiles(Fresh(), ops);
    TilingMeans(DoAll(Fresh(), ops));
  }
}

/** The free list, the symbol table and the break of mm-vm.c. */
module Regions {
  import opened Arith
  import opened RegionSpec

  class RgNode {
    var start: int
    var end: int
    var next: RgNode?

    constructor (start: int, end: int, next: RgNode?)
      ensures this.start == start && this.end == end && this.next == next
    {
      this.start, this.end, this.next := start, end, next;
    }
  }

  ghost function Head(nodes: seq<RgNode>): (r: RgNode?) {
    if nodes == [] then null else nodes[0]
  }

  ghost predicate NodeIs(n: RgNode, next: RgNode?, r: Region)
    reads n
  {
    n.next == next && n.start == r.start && n.end == r.end
  }

  /** The nodes are linked in this order and hold these regions. */
  ghost predicate Lists(nodes: seq<RgNode>, rs: seq<Region>)
    reads nodes
  {
    && |nodes| == |rs| && Distinct(nodes)
    && (forall i :: 0 <= i < |nodes| ==> NodeIs(nodes[i], Head(nodes[i + 1..]), rs[i]))
  }

  class Area {
    var freeList: RgNode?
    const symtab: array<Region>
    const vmStart: int
    var vmEnd: int
    var sbrk: int
    ghost var nodes: seq<RgNode>
    ghost var heap: Heap

    ghost predicate Valid()
      reads this, nodes, symtab
    {
      && freeList == Head(nodes) && Lists(nodes, heap.free)
      && symtab.Length == SYMTBL_SZ && symtab[..] == heap.live
      && vmStart == heap.start && vmEnd == heap.end && sbrk == heap.sbrk
    }

    /** init_mm, with a zero-initialised table. */
    constructor ()
      ensures Valid() && heap == Fresh() && fresh(symtab) && fresh(nodes)
      ensures heap.free == [Region(0, 0)] && forall id :: 0 <= id < SYMTBL_SZ ==> heap.live[id] == Region(0, 0)
      ensures vmStart == vmEnd == sbrk == 0
    {
      var first := new RgNode(0, 0, null);
      freeList := first;
      nodes := [first];
      symtab := new Region[SYMTBL_SZ](_ => Region(0, 0));
      vmStart, vmEnd, sbrk := 0, 0, 0;
      heap := Fresh();
      new;
      assert symtab[..] == heap.live;
    }

    /** Sets the bounds of node k. */
    method Resize(ghost k: nat, rgit: RgNode, start: int, end: int)
      requires Valid() && k < |nodes| && rgit == nodes[k]
      modifies this`heap, rgit`start, rgit`end
      ensures Valid() && heap == old(heap).(free := old(heap).free[k := Region(start, end)])
    {
      rgit.start, rgit.end := start, end;
      heap := heap.(free := heap.free[k := Region(start, end)]);
    }

    /** Makes node k the copy of its successor, which leaves the list. */
    method TakeOverNext(ghost k: nat, rgit: RgNode, nextrg: RgNode)
      requires Valid() && k < |nodes| && rgit == nodes[k] && rgit.next == nextrg
      modifies this`heap, this`nodes, rgit
      ensures Valid() && |old(heap).free| > k + 1
      ensures heap == old(heap).(free := old(heap).free[..k] + old(heap).free[k + 1..])
      ensures nodes[k] == rgit && forall n :: n in nodes ==> n in old(nodes)
    {
      hide Distinct, Removed, Head;
      ghost var was, rs := nodes, heap.free;
      NodeAt(k);
      NodeAt(k + 1);
      OtherNodes(was, k);
      hide Lists;
      rgit.start, rgit.end := nextrg.start, nextrg.end;
      rgit.next := nextrg.next;
      RemovalLists(was, rs, k);
      nodes := Removed(was, k + 1);
      heap := heap.(free := rs[..k] + rs[k + 1..]);
    }

    /** Cuts a chunk off node k, which has room for it. */
    method Cut(ghost k: nat, rgit: RgNode, size: nat)
      requires Valid() && k < |nodes| && rgit == nodes[k] && Fits(heap.free[k], size)
      modifies this`nodes, this`heap, rgit
      ensures Valid() && |nodes| > k && nodes[k] == rgit && forall n :: n in nodes ==> n in old(nodes)
      ensures heap == old(heap).(free := old(heap).free[..k] + Shrink(old(heap).free[k..], size))
    {
      assert NodeIs(rgit, Head(nodes[k + 1..]), heap.free[k]) && |nodes| == |heap.free|;
      ShrinkAt(heap.free, k, size);
      hide Valid, Shrink;
      if rgit.start + size < rgit.end {
        Resize(k, rgit, rgit.start + size, rgit.end);
      } else {
        var nextrg := rgit.next;
        if nextrg != null {
          TakeOverNext(k, rgit, nextrg);
        } else {
          Resize(k, rgit, rgit.end, rgit.end);
        }
      }
    }

    /** What a list pointer that stands at node k reads. */
    lemma NodeAt(k: nat)
      requires Valid() && k <= |nodes|
      ensures |nodes| == |heap.free| && freeList == Head(nodes[0..])
      ensures Head(nodes[k..]) == null <==> k == |nodes|
      ensures k < |nodes| ==> nodes[k] in nodes && Head(nodes[k..]) == nodes[k]
      ensures k < |nodes| ==> NodeIs(nodes[k], Head(nodes[k + 1..]), heap.free[k])
    {
      assert nodes[0..] == nodes;
    }

    /** get_free_vmrg_area: 0 and the last chunk cut off, or -1. */
    method GetFreeArea(size: nat, once: bool) returns (r: int, newrg: Region)
      requires Valid() && (size > 0 || once) && Wf(heap)
      modifies this`nodes, this`heap, nodes
      ensures Valid() && forall n :: n in nodes ==> n in old(nodes)
      ensures var (left, cut) := Walk(old(heap).free, size, once);
        && heap == old(heap).(free := left)
        && r == (if cut == [] then -1 else 0)
        && newrg == if cut == [] then Region(-1, -1) else cut[|cut| - 1]
    {
      hide Valid, Lists, Walk, WalkedTo, Bytes, Shrink, Wf, Head, Distinct;
      ghost var all := Walk(heap.free, size, once);
      ChunksStartInside(heap, size, once);
      newrg := Region(-1, -1);
      var rgit := freeList;
      NodeAt(0);
      if rgit == null {
        return -1, newrg;
      }
      WalkStart(heap.free, size, once);
      ghost var k: nat, cut: seq<Region>, done := 0, [], false;
      while rgit != null
        invariant Valid() && forall n :: n in nodes ==> n in old(nodes)
        invariant heap == old(heap).(free := heap.free) && k <= |nodes| == |heap.free|
        invariant rgit == Head(nodes[k..]) && WalkedTo(all, heap.free, k, cut, size, once)
        invariant newrg == if cut == [] then Region(-1, -1) else cut[|cut| - 1]
        decreases Bytes(heap.free[k..]), |nodes| - k
      {
        NodeAt(k);
        if rgit.start + size <= rgit.end {
          newrg := Region(rgit.start, rgit.start + size);
          WalkCuts(all, heap.free, k, cut, size, once);
          cut := cut + [newrg];
          Cut(k, rgit, size);
          NodeAt(k);
          if once {
            k := |nodes|;
            break;
          }
        } else {
          WalkSkips(all, heap.free, k, cut, size, once);
          rgit := rgit.next;
          k := k + 1;
        }
      }
      NodeAt(k);
      WalkEnds(all, heap.free, cut, size, once);
      if newrg.start == -1 {
        return -1, newrg;
      }
      return 0, newrg;
    }

    method SetSymbol(id: int, rg: Region)
      requires Valid() && 0 <= id < SYMTBL_SZ
      modifies this`heap, symtab
      ensures Valid() && |old(heap).live| == SYMTBL_SZ && heap == old(heap).(live := old(heap).live[id := rg])
    {
      symtab[id] := rg;
      heap := heap.(live := heap.live[id := rg]);
    }

    /** inc_vma_limit: the area's end moves; the break moves with it unless as written. */
    method Increase(incSz: int, asWritten: bool)
      requires Valid()
      modifies this`heap, this`vmEnd, this`sbrk
      ensures Valid()
      ensures heap == old(heap).(end := old(heap).end + incSz,
                                 sbrk := if asWritten then old(heap).sbrk else old(heap).sbrk + incSz)
    {
      vmEnd := vmEnd + incSz;
      if !asWritten {
        sbrk := sbrk + incSz;
      }
      heap := heap.(end := vmEnd, sbrk := sbrk);
    }

    /** __alloc, as meant or as written. */
    method Alloc(id: nat, size: nat, mapOk: bool, asWritten: bool) returns (r: int, addr: int)
      requires Valid() && Wf(heap) && id < SYMTBL_SZ && (size > 0 || !asWritten)
      modifies this`nodes, this`heap, this`vmEnd, this`sbrk, nodes, symtab
      ensures Valid()
      ensures var (h, out) := RegionSpec.Alloc(old(heap), id, size, mapOk, asWritten);
        heap == h && r == (if out.Some? then 0 else -1) && (out.Some? ==> addr == out.value)
      ensures asWritten ==> r == 0 && heap.sbrk == old(heap).sbrk
      ensures (forall n :: n in old(heap).free ==> !Fits(n, size)) && r == 0 ==>
        && addr == old(heap).sbrk && |heap.live| == SYMTBL_SZ
        && heap.live[id] == Region(addr, addr + Address.PageAlign(size))
    {
      hide Valid, Walk, Wf, Address.PageAlign;
      WalkFailsIffNothingFits(heap.free, size, !asWritten);
      var got, rg := GetFreeArea(size, !asWritten);
      if got == 0 {
        SetSymbol(id, rg);
        return 0, rg.start;
      }
      var incSz := Address.PageAlign(size);
      var oldSbrk := Sbrk();
      if !asWritten && !mapOk {
        return -1, 0;
      }
      Increase(incSz, asWritten);
      SetSymbol(id, Region(oldSbrk, oldSbrk + incSz));
      return 0, oldSbrk;
    }

    method Sbrk() returns (s: int)
      requires Valid()
      ensures s == heap.sbrk
    {
      return sbrk;
    }

    method VmEnd() returns (e: int)
      requires Valid()
      ensures e == heap.end
    {
      return vmEnd;
    }

    /** get_symrg_byid for an id in the table. */
    method Symbol(id: nat) returns (rg: Region)
      requires Valid() && id < SYMTBL_SZ
      ensures |heap.live| == SYMTBL_SZ && rg == heap.live[id]
    {
      return symtab[id];
    }

    /** enlist_vm_freerg_list, with a node of its own for the region. */
    method Enlist(rg: Region) returns (r: int)
      requires Valid()
      modifies this`freeList, this`nodes, this`heap
      ensures Valid() && heap == old(heap).(free := RegionSpec.Enlist(old(heap).free, rg))
      ensures forall n :: n in nodes ==> n in old(nodes) || fresh(n)
      ensures r == if Empty(rg) then -1 else 0
    {
      if rg.start >= rg.end {
        return -1;
      }
      var node := new RgNode(rg.start, rg.end, freeList);
      freeList := node;
      PushedLists(node, nodes, heap.free);
      nodes := [node] + nodes;
      heap := heap.(free := [rg] + heap.free);
      return 0;
    }

    /** __free. */
    method Free(rgid: int) returns (r: int)
      requires Valid()
      modifies this`freeList, this`nodes, this`heap, symtab
      ensures Valid() && |old(heap).live| == SYMTBL_SZ && (heap, r) == RegionSpec.Free(old(heap), rgid)
      ensures 0 <= rgid < SYMTBL_SZ ==> heap.live == old(heap).live[rgid := Region(-1, -1)]
      ensures 0 <= rgid < SYMTBL_SZ && !Empty(old(heap).live[rgid]) ==>
        heap.free == [old(heap).live[rgid]] + old(heap).free
      ensures forall n :: n in nodes ==> n in old(nodes) || fresh(n)
    {
      if rgid < 0 || rgid >= SYMTBL_SZ {
        return -1;
      }
      var rg := symtab[rgid];
      var _ := Enlist(rg);
      SetSymbol(rgid, Region(-1, -1));
      return 0;
    }
  }

  lemma PushedLists(node: RgNode, nodes: seq<RgNode>, rs: seq<Region>)
    requires Lists(nodes, rs) && node !in nodes && node.next == Head(nodes)
    ensures Lists([node] + nodes, [Region(node.start, node.end)] + rs)
  {
    var n := [node] + nodes;
    forall i | 0 <= i < |n|
      ensures NodeIs(n[i], Head(n[i + 1..]), ([Region(node.start, node.end)] + rs)[i])
    {
      if i == 0 {
        assert n[1..] == nodes;
      } else {
        assert n[i + 1..] == nodes[i..] && NodeIs(nodes[i - 1], Head(nodes[i..]), rs[i - 1]);
      }
    }
  }

  lemma OtherNodes(nodes: seq<RgNode>, k: nat)
    requires k < |nodes| && Distinct(nodes)
    ensures forall i :: 0 <= i < |nodes| && i != k ==> nodes[i] != nodes[k]
  {
  }

  ghost function Removed(nodes: seq<RgNode>, k: nat): (n: seq<RgNode>)
    requires k < |nodes|
    ensures |n| == |nodes| - 1 && forall i :: 0 <= i < |n| ==> n[i] == if i < k then nodes[i] else nodes[i + 1]
    ensures forall x :: x in n ==> x in nodes
    ensures Head(n) == if k > 0 then Head(nodes) else Head(nodes[1..])
  {
    nodes[..k] + nodes[k + 1..]
  }

  /** Node k is already a copy of the next one. */
  lemma RemovalLists(nodes: seq<RgNode>, rs: seq<Region>, k: nat)
    requires k + 1 < |nodes| == |rs| && Distinct(nodes)
    requires forall i :: 0 <= i < |nodes| && i != k ==> NodeIs(nodes[i], Head(nodes[i + 1..]), rs[i])
    requires NodeIs(nodes[k], Head(nodes[k + 2..]), rs[k + 1])
    ensures Lists(Removed(nodes, k + 1), rs[..k] + rs[k + 1..])
  {
    RemovedIsDistinct(nodes, k + 1);
    hide Distinct, NodeIs;
    var n, ss := Removed(nodes, k + 1), rs[..k] + rs[k + 1..];
    forall i | 0 <= i < |n|
      ensures NodeIs(n[i], Head(n[i + 1..]), ss[i])
    {
      RemovedHead(nodes, k + 1, i);
    }
  }

  lemma RemovedIsDistinct(nodes: seq<RgNode>, k: nat)
    requires k < |nodes| && Distinct(nodes)
    ensures Distinct(Removed(nodes, k))
  {
  }

  lemma RemovedHead(nodes: seq<RgNode>, k: nat, i: nat)
    requires k < |nodes| && i < |nodes| - 1
    ensures Head(Removed(nodes, k)[i + 1..]) == if i + 1 < k then Head(nodes[i + 1..]) else Head(nodes[i + 2..])
  {
  }
}
