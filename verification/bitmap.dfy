/** Occupancy bitmaps: one bit per price level, in 64-bit words. */
module Bitmap {
  import opened Types

  function Double(x: bv64): bv64 {
    x << 1
  }

  /** `1ull << b`, one place at a time. */
  function OneAt(b: nat): bv64 {
    if b == 0 then 1 else Double(OneAt(b - 1))
  }

  predicate Meets(x: bv64, y: bv64) {
    x & y != 0
  }

  function WithBits(x: bv64, y: bv64): bv64 {
    x | y
  }

  function WithoutBits(x: bv64, y: bv64): bv64 {
    x & !y
  }

  predicate Bit(w: bv64, b: nat)
    requires b < 64
  {
    Meets(w, OneAt(b))
  }

  predicate HasBit(bm: seq<bv64>, j: nat)
    requires j / 64 < |bm|
  {
    Bit(bm[j / 64], j % 64)
  }

  function SetBit(bm: seq<bv64>, j: nat): seq<bv64>
    requires j / 64 < |bm|
  {
    bm[j / 64 := WithBits(bm[j / 64], OneAt(j % 64))]
  }

  function ClearBit(bm: seq<bv64>, j: nat): seq<bv64>
    requires j / 64 < |bm|
  {
    bm[j / 64 := WithoutBits(bm[j / 64], OneAt(j % 64))]
  }

  /** A bit is set exactly when its level is occupied; no bit lies beyond the levels. */
  ghost predicate Reflects(bm: seq<bv64>, qs: seq<seq<u64>>) {
    && |bm| == (|qs| + 63) / 64
    && forall j {:trigger HasBit(bm, j)} :: 0 <= j < 64 * |bm| ==> (HasBit(bm, j) <==> j < |qs| && qs[j] != [])
  }

  lemma DoubleApart(x: bv64, y: bv64)
    ensures !Meets(x, y) ==> !Meets(Double(x), Double(y))
    ensures !Meets(1, Double(x))
  {}

  lemma {:induction false} OnesApart(b: nat, c: nat)
    requires b < c
    ensures !Meets(OneAt(b), OneAt(c)) && !Meets(OneAt(c), OneAt(b))
  {
    if b > 0 {
      OnesApart(b - 1, c - 1);
      DoubleApart(OneAt(b - 1), OneAt(c - 1));
    } else {
      DoubleApart(OneAt(c - 1), 0);
    }
    MeetsCommutes(OneAt(b), OneAt(c));
  }

  lemma MeetsCommutes(x: bv64, y: bv64)
    ensures Meets(x, y) == Meets(y, x)
  {}

  /** Eight doublings at a time up to the top bit of the word. */
  lemma TopOne()
    ensures OneAt(63) == 0x8000_0000_0000_0000
  {
    assert OneAt(8) == 0x100;
    assert OneAt(16) == 0x1_0000;
    assert OneAt(24) == 0x100_0000;
    assert OneAt(32) == 0x1_0000_0000;
    assert OneAt(40) == 0x100_0000_0000;
    assert OneAt(48) == 0x1_0000_0000_0000;
    assert OneAt(56) == 0x100_0000_0000_0000;
  }

  lemma {:induction false} OneNonZero(b: nat)
    requires b < 64
    ensures Meets(OneAt(b), OneAt(b))
    decreases 64 - b
  {
    if b < 63 {
      OneNonZero(b + 1);
      DoubleNonZero(OneAt(b));
    } else {
      TopOne();
    }
  }

  lemma DoubleNonZero(x: bv64)
    ensures Meets(Double(x), Double(x)) ==> Meets(x, x)
  {}

  lemma OrMeets(w: bv64, m: bv64, n: bv64)
    requires !Meets(m, n) && Meets(w, n)
    ensures Meets(WithBits(w, m), n)
  {}

  lemma OrMisses(w: bv64, m: bv64, n: bv64)
    requires !Meets(m, n) && !Meets(w, n)
    ensures !Meets(WithBits(w, m), n)
  {}

  lemma OrOwn(w: bv64, m: bv64)
    requires Meets(m, m)
    ensures Meets(WithBits(w, m), m)
  {}

  lemma AndNotMeets(w: bv64, m: bv64, n: bv64)
    requires !Meets(m, n) && Meets(w, n)
    ensures Meets(WithoutBits(w, m), n)
  {}

  lemma AndNotMisses(w: bv64, m: bv64, n: bv64)
    requires !Meets(w, n)
    ensures !Meets(WithoutBits(w, m), n)
  {}

  lemma AndNotOwn(w: bv64, m: bv64)
    ensures !Meets(WithoutBits(w, m), m)
  {}

  lemma OtherBit(w: bv64, b: nat, c: nat)
    requires b < 64 && c < 64 && b != c
    ensures Bit(WithBits(w, OneAt(b)), c) == Bit(w, c)
    ensures Bit(WithoutBits(w, OneAt(b)), c) == Bit(w, c)
  {
    if b < c { OnesApart(b, c); } else { OnesApart(c, b); }
    if Bit(w, c) {
      OrMeets(w, OneAt(b), OneAt(c));
      AndNotMeets(w, OneAt(b), OneAt(c));
    } else {
      OrMisses(w, OneAt(b), OneAt(c));
      AndNotMisses(w, OneAt(b), OneAt(c));
    }
  }

  lemma OwnBit(w: bv64, b: nat)
    requires b < 64
    ensures Bit(WithBits(w, OneAt(b)), b) && !Bit(WithoutBits(w, OneAt(b)), b)
  {
    OneNonZero(b);
    OrOwn(w, OneAt(b));
    AndNotOwn(w, OneAt(b));
  }

  lemma ZeroMisses(m: bv64)
    ensures !Meets(0, m)
  {}

  lemma SetReflects(bm: seq<bv64>, qs: seq<seq<u64>>, i: nat, q: seq<u64>)
    requires Reflects(bm, qs) && i < |qs| && q != []
    ensures Reflects(SetBit(bm, i), qs[i := q])
  {
    forall j | 0 <= j < 64 * |bm|
      ensures HasBit(SetBit(bm, i), j) <==> j < |qs| && qs[i := q][j] != []
    {
      assert HasBit(bm, j) <==> j < |qs| && qs[j] != [];
      if i / 64 == j / 64 { if i == j { OwnBit(bm[i / 64], i % 64); } else { OtherBit(bm[i / 64], i % 64, j % 64); } }
    }
  }

  lemma ClearReflects(bm: seq<bv64>, qs: seq<seq<u64>>, i: nat)
    requires Reflects(bm, qs) && i < |qs|
    ensures Reflects(ClearBit(bm, i), qs[i := []])
  {
    forall j | 0 <= j < 64 * |bm|
      ensures HasBit(ClearBit(bm, i), j) <==> j < |qs| && qs[i := []][j] != []
    {
      assert HasBit(bm, j) <==> j < |qs| && qs[j] != [];
      if i / 64 == j / 64 { if i == j { OwnBit(bm[i / 64], i % 64); } else { OtherBit(bm[i / 64], i % 64, j % 64); } }
    }
  }

  /** Replacing one non-empty queue by another changes no occupancy. */
  lemma SameReflects(bm: seq<bv64>, qs: seq<seq<u64>>, i: nat, q: seq<u64>)
    requires Reflects(bm, qs) && i < |qs| && (q == [] <==> qs[i] == [])
    ensures Reflects(bm, qs[i := q])
  {
    forall j | 0 <= j < 64 * |bm|
      ensures HasBit(bm, j) <==> j < |qs| && qs[i := q][j] != []
    {
      assert HasBit(bm, j) <==> j < |qs| && qs[j] != [];
    }
  }

  function Half(x: bv64): bv64 {
    x >> 1
  }

  lemma HalfMeets(w: bv64, m: bv64)
    ensures !Meets(m, 0x8000_0000_0000_0000) ==> (Meets(Half(w), m) <==> Meets(w, Double(m)))
    ensures !Meets(Half(w), 0x8000_0000_0000_0000)
  {}

  lemma HalfBit(w: bv64, b: nat)
    requires b < 63
    ensures Bit(Half(w), b) == Bit(w, b + 1)
    ensures !Bit(Half(w), 63)
  {
    OnesApart(b, 63);
    TopOne();
    HalfMeets(w, OneAt(b));
  }

  lemma HalfLess(w: bv64)
    requires w != 0 && !Meets(w, 1)
    ensures Half(w) != 0 && Half(w) < w
  {}

  /** `std::countr_zero` on a non-zero word: the position of the lowest set bit. */
  function CountrZero(w: bv64): (r: nat)
    requires w != 0
    ensures r < 64 && Bit(w, r) && forall b :: 0 <= b < r ==> !Bit(w, b)
    decreases w
  {
    if Meets(w, 1) then 0 else
      HalfLess(w);
      var r := CountrZero(Half(w));
      assert r < 63 by { HalfBit(w, 0); }
      assert Bit(w, r + 1) && forall b :: 0 <= b < r + 1 ==> !Bit(w, b) by {
        HalfBit(w, r);
        forall b | 0 <= b < r + 1 ensures !Bit(w, b) { if b > 0 { HalfBit(w, b - 1); } }
      }
      r + 1
  }

  /** The highest set bit at or below position `n`. */
  function LastBit(w: bv64, n: nat): (r: nat)
    requires n < 64 && exists b: nat :: b <= n && Bit(w, b)
    ensures r <= n && Bit(w, r) && forall b :: r < b <= n ==> !Bit(w, b)
  {
    if Bit(w, n) then n else LastBit(w, n - 1)
  }

  /** `std::countl_zero` on a non-zero word: how many zeros lie above the highest set bit. */
  function CountlZero(w: bv64): (r: nat)
    requires w != 0
    ensures r < 64 && Bit(w, 63 - r) && forall b :: 63 - r < b < 64 ==> !Bit(w, b)
  {
    assert Bit(w, CountrZero(w));
    63 - LastBit(w, 63)
  }
}
