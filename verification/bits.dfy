/** bitops.h and the address macros of mm.h, on 32-bit words. */
module Bits {

  function Bit(nr: nat): (r: bv32)
    requires nr < 32
  {
    1 << nr
  }

  function GenMask(h: bv32, l: bv32): (r: bv32)
    requires l <= h && h < 32
  {
    (0xFFFF_FFFF << l) & (0xFFFF_FFFF >> (31 - h))
  }

  function NBits2(n: bv32): (r: bv32) { if n & 2 != 0 then 1 else 0 }

  function NBits4(n: bv32): (r: bv32) { if n & 0xC != 0 then 2 + NBits2(n >> 2) else NBits2(n) }

  function NBits8(n: bv32): (r: bv32) { if n & 0xF0 != 0 then 4 + NBits4(n >> 4) else NBits4(n) }

  function NBits16(n: bv32): (r: bv32) { if n & 0xFF00 != 0 then 8 + NBits8(n >> 8) else NBits8(n) }

  function NBits32(n: bv32): (r: bv32) { if n & 0xFFFF_0000 != 0 then 16 + NBits16(n >> 16) else NBits16(n) }

  function NBits(n: bv32): (r: bv32) { if n == 0 then 0 else NBits32(n) }

  /** NBITS(n) is the position of the highest set bit: the integer part of log2 n. */
  lemma NBitsIsLog2(n: bv32)
    requires n != 0
    ensures NBits(n) < 32 && n >> NBits(n) == 1
  {
  }

  /** C's integer division truncates towards zero. */
  function CDiv(a: int, b: int): (r: int)
    requires b > 0
  {
    if a >= 0 then a / b else -((-a) / b)
  }

  function DivRoundUp(n: int, d: int): (r: int)
    requires d > 0
  {
    CDiv(n + d - 1, d)
  }

  function SetBit(v: bv32, mask: bv32): (r: bv32) { v | mask }

  function ClrBit(v: bv32, mask: bv32): (r: bv32) { v & !mask }

  function SetVal(v: bv32, value: bv32, mask: bv32, offst: bv32): (r: bv32)
    requires offst < 32
  {
    (v & !mask) | ((value << offst) & mask)
  }

  function GetVal(v: bv32, mask: bv32, offst: bv32): (r: bv32)
    requires offst < 32
  {
    (v & mask) >> offst
  }
}

/** The page geometry of mm.h. */
module Address {
  import Arith
  import opened Geometry
  import opened Bits
  import opened Words

  const CPU_BUS_WIDTH: nat := 22

  // Field positions: an offset has NBITS(PAGESZ) bits, a page number the rest of the bus.
  const OFFST_LOBIT: bv32 := 0
  const OFFST_HIBIT: bv32 := NBits(256) - 1
  const PGN_LOBIT: bv32 := NBits(256)
  const PGN_HIBIT: bv32 := 22 - 1

  lemma FieldBits()
    ensures OFFST_HIBIT == 7 && PGN_LOBIT == 8 && PGN_HIBIT == 21
    ensures PAGESZ == 256 && CPU_BUS_WIDTH == 22
  {
  }

  /** PAGING_PGN. */
  function Pgn(addr: bv32): (r: bv32) { GetVal(addr, GenMask(PGN_HIBIT, PGN_LOBIT), PGN_LOBIT) }

  /** PAGING_OFFST. */
  function Offst(addr: bv32): (r: bv32) { GetVal(addr, GenMask(OFFST_HIBIT, OFFST_LOBIT), OFFST_LOBIT) }

  lemma FieldForms(addr: bv32)
    ensures Pgn(addr) == (addr & 0x003F_FF00) >> 8 && Offst(addr) == addr & 0xFF
  {
    FieldBits();
    assert GenMask(21, 8) == 0x003F_FF00;
    assert GenMask(7, 0) == 0xFF;
  }

  /** Page number and offset split every 22-bit address, and joining them is the inverse. */
  lemma AddressSplits(addr: bv32)
    requires addr < 0x40_0000
    ensures Pgn(addr) < 0x4000 && Offst(addr) < 0x100
    ensures Pgn(addr) * 256 + Offst(addr) == addr
  {
    FieldForms(addr);
  }

  lemma AddressJoins(pgn: bv32, off: bv32)
    requires pgn < 0x4000 && off < 0x100
    ensures pgn * 256 + off < 0x40_0000
    ensures Pgn(pgn * 256 + off) == pgn && Offst(pgn * 256 + off) == off
  {
    FieldForms(pgn * 256 + off);
  }

  lemma NibblesShift(addr: bv32)
    ensures var (p, o) := (Pgn(addr), Offst(addr));
      && Nibble0(p) == Nibble2(addr) && Nibble1(p) == Nibble3(addr) && Nibble2(p) == Nibble4(addr)
      && Nibble3(p) == Nibble5(addr) & 3 && Nibble4(p) == 0 && Nibble5(p) == 0
      && Nibble0(o) == Nibble0(addr) && Nibble1(o) == Nibble1(addr)
      && Nibble2(o) == 0 && Nibble3(o) == 0 && Nibble4(o) == 0 && Nibble5(o) == 0
  {
    FieldForms(addr);
  }

  lemma NibbleValue(x: bv4)
    ensures 0 <= x as int < 16 && (x & 3) as int == (x as int) % 4
    ensures x == 0 ==> x as int == 0
  {
  }

  lemma JoinSums(a: nat, b: nat, c: nat, d: nat, e: nat, q: nat, r: nat)
    requires a < 16 && b < 16 && c < 16 && d < 16 && e < 16 && r < 4
    ensures Join(c, d, e, r, 0, 0) < 0x4000 && Join(a, b, 0, 0, 0, 0) < 256
    ensures Join(a, b, c, d, e, 4 * q + r) == 0x40_0000 * q + Join(c, d, e, r, 0, 0) * 256 + Join(a, b, 0, 0, 0, 0)
  {
  }

  /** Six hexadecimal digits modulo the bus, split after the lowest two. */
  lemma JoinSplits(a: nat, b: nat, c: nat, d: nat, e: nat, f: nat)
    requires a < 16 && b < 16 && c < 16 && d < 16 && e < 16 && f < 16
    ensures Join(c, d, e, f % 4, 0, 0) < 0x4000 && Join(a, b, 0, 0, 0, 0) < PAGESZ
    ensures Join(a, b, c, d, e, f) % BUS_SPACE == Join(c, d, e, f % 4, 0, 0) * PAGESZ + Join(a, b, 0, 0, 0, 0)
  {
    hide Join;
    JoinSums(a, b, c, d, e, f / 4, f % 4);
    Arith.RemainderIs(Join(a, b, c, d, e, f), BUS_SPACE, f / 4,
                      Join(c, d, e, f % 4, 0, 0) * 256 + Join(a, b, 0, 0, 0, 0));
  }

  /** The same split on values: page numbers index 2^14 entries, offsets 2^8 bytes, and page
      number times page size plus offset is the address without the bits beyond the bus. */
  lemma AddressValueSplits(addr: bv32)
    ensures Value(Pgn(addr)) < 0x4000 && Value(Offst(addr)) < PAGESZ
    ensures Value(addr) % BUS_SPACE == Value(Pgn(addr)) * PAGESZ + Value(Offst(addr))
  {
    hide Pgn, Offst, Join, Nibble0, Nibble1, Nibble2, Nibble3, Nibble4, Nibble5;
    NibblesShift(addr);
    NibbleValue(Nibble0(addr));
    NibbleValue(Nibble1(addr));
    NibbleValue(Nibble2(addr));
    NibbleValue(Nibble3(addr));
    NibbleValue(Nibble4(addr));
    NibbleValue(Nibble5(addr));
    NibbleValue(0);
    JoinSplits(Nibble0(addr) as int, Nibble1(addr) as int, Nibble2(addr) as int,
               Nibble3(addr) as int, Nibble4(addr) as int, Nibble5(addr) as int);
  }

  lemma SplitIsUnique(n: nat, p: nat, o: nat)
    requires n == p * PAGESZ + o && o < PAGESZ
    ensures p == n / PAGESZ && o == n % PAGESZ
  {
  }

  lemma WordsAreWider(n: nat)
    ensures n % 0x100_0000 % BUS_SPACE == n % BUS_SPACE
  {
    var q, m := n / 0x100_0000, n % 0x100_0000;
    Arith.RemainderIs(n, BUS_SPACE, 4 * q + m / BUS_SPACE, m % BUS_SPACE);
  }

  /** A number handed over as a word splits, modulo the bus, into its page and its offset. */
  lemma NumberSplits(n: nat)
    ensures Value(Pgn(Word(n))) == n % BUS_SPACE / PAGESZ && Value(Offst(Word(n))) == n % BUS_SPACE % PAGESZ
  {
    hide Pgn, Offst, Value, Word;
    ValueOfWord(n);
    AddressValueSplits(Word(n));
    WordsAreWider(n);
    SplitIsUnique(n % BUS_SPACE, Value(Pgn(Word(n))), Value(Offst(Word(n))));
  }

  /** The page number and the offset of an address as numbers. */
  method Split(addr: bv32) returns (pgn: nat, off: nat)
    ensures pgn < 0x4000 && off < PAGESZ
    ensures pgn == Value(Pgn(addr)) && off == Value(Offst(addr))
    ensures Value(addr) % BUS_SPACE == pgn * PAGESZ + off
  {
    hide Pgn, Offst, Value;
    pgn, off := Value(Pgn(addr)), Value(Offst(addr));
    AddressValueSplits(addr);
  }

  /** PAGING_PAGE_ALIGNSZ. */
  function PageAlign(sz: int): (r: int) { DivRoundUp(sz, PAGESZ) * PAGESZ }

  predicate LeastMultiple(sz: int, m: int) {
    m % PAGESZ == 0 && m >= sz && m - PAGESZ < sz
  }

  /** Alignment rounds up to the least multiple of the page size, except where C's division
      of the negative sz + 255 truncates upwards. */
  lemma PageAlignIsLeastMultiple(sz: int)
    ensures LeastMultiple(sz, PageAlign(sz)) <==> sz >= -255 || sz % PAGESZ == 1
    ensures sz >= 0 ==> PageAlign(PageAlign(sz)) == PageAlign(sz) >= sz
  {
    var n := sz + 255;
    if n < 0 {
      var q, r := (-n) / 256, (-n) % 256;
      assert PageAlign(sz) == -256 * q && sz == -256 * q - r - 255;
      assert r == 0 <==> sz % 256 == 1;
    }
  }
}

/** The page table entry fields of mm.h and the setters of mm.c. */
module Pte {
  import opened Bits

  // Fields: frame number 12..0; swap type 4..0 and swap offset 25..5. Flags: present 31,
  // swapped 30, dirty 28.

  lemma Masks()
    ensures Bit(31) == 0x8000_0000 && Bit(30) == 0x4000_0000 && Bit(28) == 0x1000_0000
    ensures GenMask(12, 0) == 0x1FFF && GenMask(4, 0) == 0x1F && GenMask(25, 5) == 0x03FF_FFE0
  {
  }

  function Fpn(pte: bv32): (r: bv32) { GetVal(pte, GenMask(12, 0), 0) }

  function SwpTyp(pte: bv32): (r: bv32) { GetVal(pte, GenMask(4, 0), 0) }

  function SwpOff(pte: bv32): (r: bv32) { GetVal(pte, GenMask(25, 5), 5) }

  predicate Present(pte: bv32) { pte & Bit(31) != 0 }

  predicate Swapped(pte: bv32) { pte & Bit(30) != 0 }

  /** pte_set_fpn. */
  function SetFpn(pte: bv32, fpn: bv32): (r: bv32) {
    SetVal(ClrBit(SetBit(pte, Bit(31)), Bit(30)), fpn, GenMask(12, 0), 0)
  }

  /** pte_set_swap. As in the source, the entry of a swapped page keeps the present bit set. */
  function SetSwap(pte: bv32, swptyp: bv32, swpoff: bv32): (r: bv32) {
    SetVal(SetVal(SetBit(SetBit(pte, Bit(31)), Bit(30)), swptyp, GenMask(4, 0), 0), swpoff, GenMask(25, 5), 5)
  }

  lemma SetFpnForm(pte: bv32, fpn: bv32)
    ensures SetFpn(pte, fpn) == (((pte | 0x8000_0000) & 0xBFFF_FFFF) & 0xFFFF_E000) | (fpn & 0x1FFF)
  {
    Masks();
  }

  lemma SetSwapForm(pte: bv32, swptyp: bv32, swpoff: bv32)
    ensures SetSwap(pte, swptyp, swpoff)
         == ((pte | 0xC000_0000) & 0xFC00_0000) | (swptyp & 0x1F) | ((swpoff << 5) & 0x03FF_FFE0)
  {
    Masks();
  }

  lemma FieldForms(pte: bv32)
    ensures Fpn(pte) == pte & 0x1FFF && SwpTyp(pte) == pte & 0x1F && SwpOff(pte) == (pte & 0x03FF_FFE0) >> 5
  {
    Masks();
  }

  lemma FlagForms(pte: bv32)
    ensures Present(pte) <==> pte & 0x8000_0000 != 0
    ensures Swapped(pte) <==> pte & 0x4000_0000 != 0
  {
  }

  /** A frame number reads back; bits 13 to 29 are untouched. */
  lemma SetFpnReadsBack(pte: bv32, fpn: bv32)
    requires fpn < 0x2000
    ensures var e := SetFpn(pte, fpn);
      Fpn(e) == fpn && Present(e) && !Swapped(e) && e & 0x3FFF_E000 == pte & 0x3FFF_E000
  {
    SetFpnForm(pte, fpn);
    FieldForms(SetFpn(pte, fpn));
    FlagForms(SetFpn(pte, fpn));
  }

  /** Swap type and offset read back; bits 26 to 29 are untouched. */
  lemma SetSwapReadsBack(pte: bv32, swptyp: bv32, swpoff: bv32)
    requires swptyp < 0x20 && swpoff < 0x20_0000
    ensures var e := SetSwap(pte, swptyp, swpoff);
      SwpTyp(e) == swptyp && SwpOff(e) == swpoff && Present(e) && Swapped(e) && e & 0x3C00_0000 == pte & 0x3C00_0000
  {
    SetSwapForm(pte, swptyp, swpoff);
    FieldForms(SetSwap(pte, swptyp, swpoff));
    FlagForms(SetSwap(pte, swptyp, swpoff));
  }

  datatype Op = FpnOp(fpn: bv32) | SwapOp(swptyp: bv32, swpoff: bv32)

  predicate InRange(op: Op) {
    match op case FpnOp(fpn) => fpn < 0x2000 case SwapOp(swptyp, swpoff) => swptyp < 0x20 && swpoff < 0x20_0000
  }

  function Set(pte: bv32, op: Op): (r: bv32) {
    match op case FpnOp(fpn) => SetFpn(pte, fpn) case SwapOp(swptyp, swpoff) => SetSwap(pte, swptyp, swpoff)
  }

  function SetAll(pte: bv32, ops: seq<Op>): (r: bv32) {
    if ops == [] then pte else Set(SetAll(pte, ops[..|ops| - 1]), ops[|ops| - 1])
  }

  /** The entry shows what `op` stored, with the flags that go with it. */
  predicate ReadsBack(e: bv32, op: Op) {
    match op
    case FpnOp(fpn) => Fpn(e) == fpn && Present(e) && !Swapped(e)
    case SwapOp(swptyp, swpoff) => SwpTyp(e) == swptyp && SwpOff(e) == swpoff && Present(e) && Swapped(e)
  }

  /** After any sequence of setters the fields of the last one read back with its flags. */
  lemma LastSetterReadsBack(pte: bv32, ops: seq<Op>)
    requires ops != [] && forall i :: 0 <= i < |ops| ==> InRange(ops[i])
    ensures ReadsBack(SetAll(pte, ops), ops[|ops| - 1])
  {
    match ops[|ops| - 1]
    case FpnOp(fpn) => SetFpnReadsBack(SetAll(pte, ops[..|ops| - 1]), fpn);
    case SwapOp(swptyp, swpoff) => SetSwapReadsBack(SetAll(pte, ops[..|ops| - 1]), swptyp, swpoff);
  }

  /** No sequence of setters touches anything outside the fields and flags: not bits 26 to
      29, and not bits 13 to 29 if only frame numbers are set. */
  lemma {:induction false} OutsideIsUntouched(pte: bv32, ops: seq<Op>)
    ensures SetAll(pte, ops) & 0x3C00_0000 == pte & 0x3C00_0000
  {
    if ops == [] {
    } else {
      OutsideIsUntouched(pte, ops[..|ops| - 1]);
      SetOutside(SetAll(pte, ops[..|ops| - 1]), ops[|ops| - 1]);
    }
  }

  lemma SetOutside(pte: bv32, op: Op)
    ensures Set(pte, op) & 0x3C00_0000 == pte & 0x3C00_0000
  {
    match op
    case FpnOp(fpn) => SetFpnForm(pte, fpn);
    case SwapOp(swptyp, swpoff) => SetSwapForm(pte, swptyp, swpoff);
  }

  lemma {:induction false} FrameSettersTouchFrameBits(pte: bv32, ops: seq<Op>)
    requires forall i :: 0 <= i < |ops| ==> ops[i].FpnOp?
    ensures SetAll(pte, ops) & 0x3FFF_E000 == pte & 0x3FFF_E000
  {
    if ops == [] {
    } else {
      FrameSettersTouchFrameBits(pte, ops[..|ops| - 1]);
      SetFpnForm(SetAll(pte, ops[..|ops| - 1]), ops[|ops| - 1].fpn);
    }
  }

  /** init_pte: its return value and the entry it leaves. */
  function InitPte(pte: bv32, pre: bool, fpn: bv32, swp: bool, swptyp: bv32, swpoff: bv32): (r: (int, bv32)) {
    if !pre then (0, pte)
    else if !swp then
      if fpn == 0 then (-1, pte)
      else (0, SetVal(ClrBit(ClrBit(SetBit(pte, Bit(31)), Bit(30)), Bit(28)), fpn, GenMask(12, 0), 0))
    else
      (0, SetVal(SetVal(ClrBit(SetBit(SetBit(pte, Bit(31)), Bit(30)), Bit(28)), swptyp, GenMask(4, 0), 0),
                 swpoff, GenMask(25, 5), 5))
  }

  /** init_pte leaves an entry alone that is not to be present. Otherwise it is the matching
      setter on the entry without its dirty bit, except that it refuses frame 0, which
      pte_set_fpn and the frame pool both use. */
  lemma InitPteIsSetter(pte: bv32, fpn: bv32, swptyp: bv32, swpoff: bv32)
    ensures InitPte(pte, false, fpn, true, swptyp, swpoff) == (0, pte)
    ensures InitPte(pte, false, fpn, false, swptyp, swpoff) == (0, pte)
    ensures InitPte(pte, true, fpn, true, swptyp, swpoff) == (0, SetSwap(ClrBit(pte, Bit(28)), swptyp, swpoff))
    ensures InitPte(pte, true, fpn, false, swptyp, swpoff) == (0, SetFpn(ClrBit(pte, Bit(28)), fpn)) <==> fpn != 0
  {
    ClearThenSet(pte);
    ClearThenSetBoth(pte);
  }

  lemma FlagMasks()
    ensures Bit(31) == 0x8000_0000 && Bit(30) == 0x4000_0000
    ensures !Bit(30) == 0xBFFF_FFFF && !Bit(28) == 0xEFFF_FFFF
  {
  }

  lemma ClearThenSet(pte: bv32)
    ensures ClrBit(ClrBit(SetBit(pte, Bit(31)), Bit(30)), Bit(28))
         == ClrBit(SetBit(ClrBit(pte, Bit(28)), Bit(31)), Bit(30))
  {
    FlagMasks();
    OnMasks(pte);
  }

  lemma ClearThenSetBoth(pte: bv32)
    ensures ClrBit(SetBit(SetBit(pte, Bit(31)), Bit(30)), Bit(28))
         == SetBit(SetBit(ClrBit(pte, Bit(28)), Bit(31)), Bit(30))
  {
    FlagMasks();
    OnMasks(pte);
  }

  lemma OnMasks(pte: bv32)
    ensures ((pte | 0x8000_0000) & 0xBFFF_FFFF) & 0xEFFF_FFFF == ((pte & 0xEFFF_FFFF) | 0x8000_0000) & 0xBFFF_FFFF
    ensures ((pte | 0x8000_0000) | 0x4000_0000) & 0xEFFF_FFFF == ((pte & 0xEFFF_FFFF) | 0x8000_0000) | 0x4000_0000
  {
  }
}

/** Values of up to 24 bits and their words, digit by hexadecimal digit: the solver converts
    four bits at a time without effort, and 32 not at all. Entry fields have at most 21. */
module Words {

  function Digit(n: nat, unit: nat): (r: nat)
    requires unit > 0
    ensures Digit(n, unit) < 16
  {
    n / unit % 16
  }

  function Pack(a: bv4, b: bv4, c: bv4, d: bv4, e: bv4, f: bv4): (r: bv32) {
    (a as bv32) | (b as bv32 << 4) | (c as bv32 << 8) | (d as bv32 << 12) | (e as bv32 << 16) | (f as bv32 << 20)
  }

  function Join(a: nat, b: nat, c: nat, d: nat, e: nat, f: nat): (r: nat) {
    a + 0x10 * b + 0x100 * c + 0x1000 * d + 0x1_0000 * e + 0x10_0000 * f
  }

  function Nibble0(w: bv32): (r: bv4) { (w & 0xF) as bv4 }

  function Nibble1(w: bv32): (r: bv4) { ((w >> 4) & 0xF) as bv4 }

  function Nibble2(w: bv32): (r: bv4) { ((w >> 8) & 0xF) as bv4 }

  function Nibble3(w: bv32): (r: bv4) { ((w >> 12) & 0xF) as bv4 }

  function Nibble4(w: bv32): (r: bv4) { ((w >> 16) & 0xF) as bv4 }

  function Nibble5(w: bv32): (r: bv4) { ((w >> 20) & 0xF) as bv4 }

  /** The value of the lowest 24 bits of w. */
  function Value(w: bv32): (r: nat) {
    Join(Nibble0(w) as int, Nibble1(w) as int, Nibble2(w) as int,
         Nibble3(w) as int, Nibble4(w) as int, Nibble5(w) as int)
  }

  /** The word of n modulo 2^24. */
  function Word(n: nat): (r: bv32) {
    Pack(Digit(n, 1) as bv4, Digit(n, 0x10) as bv4, Digit(n, 0x100) as bv4,
         Digit(n, 0x1000) as bv4, Digit(n, 0x1_0000) as bv4, Digit(n, 0x10_0000) as bv4)
  }

  lemma Unpack(a: bv4, b: bv4, c: bv4, d: bv4, e: bv4, f: bv4)
    ensures var w := Pack(a, b, c, d, e, f);
      && Nibble0(w) == a && Nibble1(w) == b && Nibble2(w) == c
      && Nibble3(w) == d && Nibble4(w) == e && Nibble5(w) == f
  {
  }

  lemma DigitValue(n: nat)
    requires n < 16
    ensures (n as bv4) as int == n
  {
  }

  lemma DigitBelow2(n: nat)
    requires n < 2
    ensures (n as bv4) <= 1
  {
  }

  lemma JoinDigits(n: nat)
    ensures Join(Digit(n, 1), Digit(n, 0x10), Digit(n, 0x100),
                 Digit(n, 0x1000), Digit(n, 0x1_0000), Digit(n, 0x10_0000)) == n % 0x100_0000
  {
    hide Digit;
    SplitTwo(n);
    SplitTwo(n / 0x100);
    SplitTwo(n / 0x1_0000);
    SameDigits(n);
    assert n / 0x100 / 0x100 == n / 0x1_0000 && n / 0x1_0000 / 0x100 == n / 0x100_0000;
  }

  lemma SplitTwo(n: nat)
    ensures n == Digit(n, 1) + 0x10 * Digit(n, 0x10) + 0x100 * (n / 0x100)
  {
  }

  lemma SameDigits(n: nat)
    ensures Digit(n, 0x100) == Digit(n / 0x100, 1) && Digit(n, 0x1000) == Digit(n / 0x100, 0x10)
    ensures Digit(n, 0x1_0000) == Digit(n / 0x1_0000, 1) && Digit(n, 0x10_0000) == Digit(n / 0x1_0000, 0x10)
  {
  }

  /** Every 24-bit value reads back from its word. */
  lemma ValueOfWord(n: nat)
    ensures Value(Word(n)) == n % 0x100_0000
  {
    hide Join, Pack, Digit, Nibble0, Nibble1, Nibble2, Nibble3, Nibble4, Nibble5;
    var a, b, c := Digit(n, 1), Digit(n, 0x10), Digit(n, 0x100);
    var d, e, f := Digit(n, 0x1000), Digit(n, 0x1_0000), Digit(n, 0x10_0000);
    Unpack(a as bv4, b as bv4, c as bv4, d as bv4, e as bv4, f as bv4);
    DigitValue(a);
    DigitValue(b);
    DigitValue(c);
    DigitValue(d);
    DigitValue(e);
    DigitValue(f);
    JoinDigits(n);
  }

  lemma ValueOfSmallWord(n: nat)
    requires n < 0x100_0000
    ensures Value(Word(n)) == n
  {
    hide Value, Word;
    ValueOfWord(n);
  }

  lemma PackFits(a: bv4, b: bv4, c: bv4, d: bv4, e: bv4, f: bv4)
    ensures f <= 1 ==> Pack(a, b, c, d, e, f) < 0x20_0000
    ensures d <= 1 && e == f == 0 ==> Pack(a, b, c, d, e, f) < 0x2000
  {
  }

  /** The word of a swap offset fits its field. */
  lemma SlotWordFits(n: nat)
    requires n < 0x20_0000
    ensures Word(n) < 0x20_0000
  {
    DigitBelow2(Digit(n, 0x10_0000));
    PackFits(Digit(n, 1) as bv4, Digit(n, 0x10) as bv4, Digit(n, 0x100) as bv4,
             Digit(n, 0x1000) as bv4, Digit(n, 0x1_0000) as bv4, Digit(n, 0x10_0000) as bv4);
  }

  /** The word of a frame number fits its field. */
  lemma FrameWordFits(n: nat)
    requires n < 0x2000
    ensures Word(n) < 0x2000
  {
    assert Digit(n, 0x1_0000) == 0 && Digit(n, 0x10_0000) == 0;
    DigitBelow2(Digit(n, 0x1000));
    PackFits(Digit(n, 1) as bv4, Digit(n, 0x10) as bv4, Digit(n, 0x100) as bv4,
             Digit(n, 0x1000) as bv4, Digit(n, 0x1_0000) as bv4, Digit(n, 0x10_0000) as bv4);
  }
}

/** Entries as the repaired fault path uses them. */
module Entries {
  import opened Bits
  import opened Words
  import Pte

  datatype Entry = Absent | InRam(f: int) | InSwap(f: int)

  function Decode(pte: bv32): (r: Entry) {
    if Pte.Present(pte) then InRam(Value(Pte.Fpn(pte)))
    else if Pte.Swapped(pte) then InSwap(Value(Pte.SwpOff(pte)))
    else Absent
  }

  /** pte_set_swap for an evicted page: unlike the source's, not present. */
  function SetOut(pte: bv32, swptyp: bv32, swpoff: bv32): (r: bv32) {
    ClrBit(Pte.SetSwap(pte, swptyp, swpoff), Bit(31))
  }

  lemma ZeroIsAbsent()
    ensures Decode(0) == Absent
  {
    Pte.FlagForms(0);
  }

  /** The entry of a resident page decodes to its frame. */
  lemma DecodeSetFpn(pte: bv32, f: nat)
    requires f < 0x2000
    ensures Decode(Pte.SetFpn(pte, Word(f))) == InRam(f)
  {
    hide Value, Word, Pte.SetFpn, Pte.Fpn, Pte.Present;
    ValueOfSmallWord(f);
    FrameWordFits(f);
    Pte.SetFpnReadsBack(pte, Word(f));
  }

  lemma ClearForm(w: bv32)
    ensures ClrBit(w, Bit(31)) == w & 0x7FFF_FFFF
  {
    assert !Bit(31) == 0x7FFF_FFFF;
  }

  /** Clearing the top bit of an entry. */
  lemma ClearPresent(w: bv32)
    ensures var e := ClrBit(w, Bit(31));
      && !Pte.Present(e) && (Pte.Swapped(e) <==> Pte.Swapped(w))
      && Pte.SwpOff(e) == Pte.SwpOff(w) && Pte.SwpTyp(e) == Pte.SwpTyp(w)
  {
    hide ClrBit, Bit, Pte.Present, Pte.Swapped, Pte.SwpOff, Pte.SwpTyp;
    ClearForm(w);
    TopBitOnly(w);
    Pte.FieldForms(w);
    Pte.FlagForms(w);
    Pte.FieldForms(w & 0x7FFF_FFFF);
    Pte.FlagForms(w & 0x7FFF_FFFF);
  }

  /** An evicted entry reads back: swapped, not present, with its device and its swap frame. */
  lemma SetOutReadsBack(pte: bv32, swptyp: bv32, swpoff: bv32)
    requires swptyp < 0x20 && swpoff < 0x20_0000
    ensures var e := SetOut(pte, swptyp, swpoff);
      !Pte.Present(e) && Pte.Swapped(e) && Pte.SwpTyp(e) == swptyp && Pte.SwpOff(e) == swpoff
  {
    hide ClrBit, Bit, Pte.SetSwap, Pte.Present, Pte.Swapped, Pte.SwpOff, Pte.SwpTyp;
    Pte.SetSwapReadsBack(pte, swptyp, swpoff);
    ClearPresent(Pte.SetSwap(pte, swptyp, swpoff));
  }

  lemma TopBitOnly(w: bv32)
    ensures (w & 0x7FFF_FFFF) & 0x8000_0000 == 0
    ensures (w & 0x7FFF_FFFF) & 0x4000_0000 == w & 0x4000_0000
    ensures (w & 0x7FFF_FFFF) & 0x03FF_FFE0 == w & 0x03FF_FFE0
    ensures (w & 0x7FFF_FFFF) & 0x1F == w & 0x1F
  {
  }

  /** The entry of an evicted page decodes to its swap frame. */
  lemma DecodeSetOut(pte: bv32, s: nat)
    requires s < 0x20_0000
    ensures Decode(SetOut(pte, 0, Word(s))) == InSwap(s)
  {
    hide Value, Word, SetOut, Pte.SwpOff, Pte.Present, Pte.Swapped;
    ValueOfSmallWord(s);
    SlotWordFits(s);
    SetOutReadsBack(pte, 0, Word(s));
  }

  /** Every page goes to the first swap device. */
  lemma EvictedToDeviceZero(pte: bv32, s: nat)
    requires s < 0x20_0000
    ensures Pte.SwpTyp(MmCodec().setSwap(pte, s)) == 0
  {
    hide Value, Word, SetOut, Pte.SwpOff, Pte.Present, Pte.Swapped, Pte.SwpTyp;
    SlotWordFits(s);
    SetOutReadsBack(pte, 0, Word(s));
  }

  /** Reading an entry, and the two setters on ints, as one value: Paging is proved for any
      codec with these laws, so that its proofs never look at bits. */
  datatype Codec = Codec(decode: bv32 -> Entry, setFpn: (bv32, int) -> bv32, setSwap: (bv32, int) -> bv32)

  ghost predicate Lawful(c: Codec) {
    && c.decode(0) == Absent
    && (forall pte, f :: 0 <= f < 0x2000 ==> c.decode(c.setFpn(pte, f)) == InRam(f))
    && (forall pte, s :: 0 <= s < 0x20_0000 ==> c.decode(c.setSwap(pte, s)) == InSwap(s))
  }

  lemma FpnLaw(c: Codec, pte: bv32, f: int)
    requires Lawful(c) && 0 <= f < 0x2000
    ensures c.decode(c.setFpn(pte, f)) == InRam(f)
  {
  }

  lemma SwapLaw(c: Codec, pte: bv32, s: int)
    requires Lawful(c) && 0 <= s < 0x20_0000
    ensures c.decode(c.setSwap(pte, s)) == InSwap(s)
  {
  }

  function WordOf(n: int): (r: bv32) { if n >= 0 then Word(n) else 0 }

  /** The entry layout of mm.h with the setters of mm.c. */
  function MmCodec(): (r: Codec) {
    Codec(Decode, FrameEntry, SwapEntry)
  }

  function FrameEntry(pte: bv32, f: int): (r: bv32) { Pte.SetFpn(pte, WordOf(f)) }

  function SwapEntry(pte: bv32, s: int): (r: bv32) { SetOut(pte, 0, WordOf(s)) }

  lemma MmCodecIsLawful()
    ensures Lawful(MmCodec())
  {
    ZeroIsAbsent();
    forall pte, f: int | 0 <= f < 0x2000
      ensures Decode(FrameEntry(pte, f)) == InRam(f)
    {
      DecodeSetFpn(pte, f);
    }
    forall pte, s: int | 0 <= s < 0x20_0000
      ensures Decode(SwapEntry(pte, s)) == InSwap(s)
    {
      DecodeSetOut(pte, s);
    }
  }

  /** A frame one past what the field can hold decodes to frame 0. */
  lemma FrameFieldWraps()
    ensures Decode(FrameEntry(0, 0x2000)) == InRam(0)
  {
    assert Word(0x2000) == 0x2000;
    Pte.SetFpnForm(0, 0x2000);
    Pte.FieldForms(Pte.SetFpn(0, 0x2000));
    Pte.FlagForms(Pte.SetFpn(0, 0x2000));
  }

  lemma SlotFieldWraps()
    ensures Decode(SwapEntry(0, 0x20_0000)) == InSwap(0)
  {
    assert Word(0x20_0000) == 0x20_0000;
    var w := Pte.SetSwap(0, 0, 0x20_0000);
    Pte.SetSwapForm(0, 0, 0x20_0000);
    Pte.FieldForms(SetOut(0, 0, 0x20_0000));
    Pte.FlagForms(SetOut(0, 0, 0x20_0000));
    assert !Bit(31) == 0x7FFF_FFFF;
    TopBitOnly(w);
  }

  /** The entry tells the frames of a device of n frames apart exactly when its field can number
      them: up to 2^13 in RAM, up to 2^21 in swap. */
  lemma FieldsHoldDevicesIff(n: nat)
    ensures (forall f: int :: 0 <= f < n ==> Decode(FrameEntry(0, f)) == InRam(f)) <==> n <= 0x2000
    ensures (forall s: int :: 0 <= s < n ==> Decode(SwapEntry(0, s)) == InSwap(s)) <==> n <= 0x20_0000
  {
    hide Decode, FrameEntry, SwapEntry;
    MmCodecIsLawful();
    FrameFieldWraps();
    SlotFieldWraps();
    CodecFields();
  }

  lemma CodecFields()
    requires Lawful(MmCodec())
    ensures forall f: int :: 0 <= f < 0x2000 ==> Decode(FrameEntry(0, f)) == InRam(f)
    ensures forall s: int :: 0 <= s < 0x20_0000 ==> Decode(SwapEntry(0, s)) == InSwap(s)
  {
    hide Decode, FrameEntry, SwapEntry;
    forall f: int | 0 <= f < 0x2000
      ensures Decode(FrameEntry(0, f)) == InRam(f)
    {
      FpnLaw(MmCodec(), 0, f);
    }
    forall s: int | 0 <= s < 0x20_0000
      ensures Decode(SwapEntry(0, s)) == InSwap(s)
    {
      SwapLaw(MmCodec(), 0, s);
    }
  }
}

/** The decoders of the fault path as mm.h writes them: they do not read the bits that the
    setters of mm.c write. */
module Decoders {
  import opened Geometry
  import opened Bits
  import opened Address
  import Pte

  // Field positions: from NBITS(PAGESZ) to below NBITS(MEMRAMSZ) and NBITS(MEMSWPSZ).
  const FPN_LOBIT: bv32 := NBits(256)
  const FPN_HIBIT: bv32 := NBits(Bit(10)) - 1
  const SWP_LOBIT: bv32 := NBits(256)
  const SWP_HIBIT: bv32 := NBits(Bit(14)) - 1
  const SWPFPN_OFFSET: bv32 := 5

  lemma DecoderBits()
    ensures FPN_LOBIT == SWP_LOBIT == 8 && FPN_HIBIT == 9 && SWP_HIBIT == 13
  {
    hide NBits;
    assert Bit(10) == 0x400 && Bit(14) == 0x4000;
    NBitsOfSizes();
  }

  lemma NBitsOfSizes()
    ensures NBits(256) == 8 && NBits(0x400) == 10 && NBits(0x4000) == 14
  {
  }

  /** PAGING_FPN. */
  function PagingFpn(pte: bv32): (r: bv32) { GetVal(pte, GenMask(FPN_HIBIT, FPN_LOBIT), FPN_LOBIT) }

  /** PAGING_SWP. */
  function PagingSwp(pte: bv32): (r: bv32) { (pte & GenMask(SWP_HIBIT, SWP_LOBIT)) >> SWPFPN_OFFSET }

  lemma DecoderForms(pte: bv32)
    ensures PagingFpn(pte) == (pte & 0x300) >> 8 && PagingSwp(pte) == (pte & 0x3F00) >> 5
  {
    DecoderBits();
    assert GenMask(9, 8) == 0x300;
    assert GenMask(13, 8) == 0x3F00;
  }

  /** PAGING_FPN gives back the frame number pte_set_fpn stored only for frame 0. */
  lemma PagingFpnIsExactIff(pte: bv32, fpn: bv32)
    requires fpn < 0x2000
    ensures PagingFpn(Pte.SetFpn(pte, fpn)) == fpn <==> fpn == 0
  {
    Pte.SetFpnForm(pte, fpn);
    DecoderForms(Pte.SetFpn(pte, fpn));
  }

  /** PAGING_SWP gives back the swap offset only for multiples of 8 below 512. */
  lemma PagingSwpIsExactIff(pte: bv32, swptyp: bv32, swpoff: bv32)
    requires swptyp < 0x20 && swpoff < 0x20_0000
    ensures PagingSwp(Pte.SetSwap(pte, swptyp, swpoff)) == swpoff <==> swpoff < 512 && swpoff % 8 == 0
  {
    Pte.SetSwapForm(pte, swptyp, swpoff);
    DecoderForms(Pte.SetSwap(pte, swptyp, swpoff));
  }

  /** PAGING_MAX_PGN divides the bus width in bits by the page size: one entry, where the bus
      addresses 2^14 pages. */
  lemma PageTableHasOneEntry()
    ensures DivRoundUp(CPU_BUS_WIDTH, PAGESZ) == 1
  {
  }
}
