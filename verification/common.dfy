/** What several modules share. */
module Options {
  datatype Option<+T> = None | Some(value: T)
}

/** Bytes in a page or a frame, and on the 22-bit bus. */
module Geometry {
  const PAGESZ: nat := 256
  const BUS_SPACE: nat := 0x40_0000
}

module Arith {

  /** No element twice. */
  predicate Distinct<T(==)>(q: seq<T>) { forall i, j :: 0 <= i < j < |q| ==> q[i] != q[j] }

  ghost function Sum(b: seq<int>): (r: int) { if b == [] then 0 else b[0] + Sum(b[1..]) }

  lemma {:induction false} SumUpdate(b: seq<int>, i: nat, v: int)
    requires i < |b|
    ensures Sum(b[i := v]) == Sum(b) - b[i] + v
  {
    if i == 0 {
      assert b[i := v][1..] == b[1..];
    } else {
      assert b[i := v][1..] == b[1..][i - 1 := v];
      SumUpdate(b[1..], i - 1, v);
    }
  }

  lemma {:induction false} SumNonNegative(b: seq<int>)
    requires forall i :: 0 <= i < |b| ==> b[i] >= 0
    ensures Sum(b) >= 0
  {
    if b == [] {
    } else {
      SumNonNegative(b[1..]);
    }
  }

  lemma {:induction false} SumAtMost(b: seq<int>, c: seq<int>)
    requires |b| == |c| && forall i :: 0 <= i < |b| ==> b[i] <= c[i]
    ensures Sum(b) <= Sum(c)
  {
    if b == [] {
    } else {
      SumAtMost(b[1..], c[1..]);
    }
  }

  lemma {:induction false} SumBound(b: seq<int>, bound: nat)
    requires forall i :: 0 <= i < |b| ==> b[i] <= bound
    ensures Sum(b) <= bound * |b|
  {
    if b == [] {
    } else {
      SumBound(b[1..], bound);
    }
  }

  lemma MulAtLeast(w: nat, a: int, b: int)
    requires a >= b
    ensures w * a >= w * b
    ensures w * b == w * (b - 1) + w
  {
    var d := a - b;
    assert w * a == w * b + w * d;
    assert w * d >= 0;
  }

  lemma DivUnique(x: int, w: nat, q: int, r: int)
    requires 0 <= r < w && x == w * q + r
    ensures x / w == q
  {
    var q', r' := x / w, x % w;
    assert x == w * q' + r';
    if q > q' { MulAtLeast(w, q, q' + 1); } else if q < q' { MulAtLeast(w, q', q + 1); }
  }

  lemma RemainderIs(x: int, w: nat, q: int, r: int)
    requires 0 <= r < w && x == w * q + r
    ensures x % w == r
  {
    DivUnique(x, w, q, r);
    assert x == w * (x / w) + x % w;
  }

  lemma DivSmall(x: nat, w: nat)
    requires x < w
    ensures x / w == 0
  {
    DivUnique(x, w, 0, x);
  }

  lemma DivStep(x: nat, w: nat)
    requires w > 0
    ensures (x + w) / w == x / w + 1
  {
    var q, r := x / w, x % w;
    assert x + w == w * (q + 1) + r;
    DivUnique(x + w, w, q + 1, r);
  }
}
