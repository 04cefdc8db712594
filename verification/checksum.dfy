/** The 64-bit hashes: FNV-1a over bytes, and the mixing step the checksums are folds of. */
module Checksum {
  import opened Types

  /** The starting state as coded, which is not the published FNV-1a basis. */
  const FNV_BASIS: u64 := 1469598103934665603
  const FNV_PRIME: u64 := 1099511628211

  /** Bitwise exclusive or of the lowest `n` bits. */
  function XorBits(n: nat, x: nat, y: nat): (r: nat)
    ensures r < Pow2(n)
  {
    if n == 0 then 0 else 2 * XorBits(n - 1, x / 2, y / 2) + (if x % 2 == y % 2 then 0 else 1)
  }

  function Pow2(n: nat): nat {
    if n == 0 then 1 else 2 * Pow2(n - 1)
  }

  /** Bit by bit: it is one where the two differ. */
  lemma {:induction false} XorBitsAre(n: nat, x: nat, y: nat, i: nat)
    requires i < n
    ensures Pow2(i) > 0
    ensures XorBits(n, x, y) / Pow2(i) % 2 == if x / Pow2(i) % 2 == y / Pow2(i) % 2 then 0 else 1
  {
    Pow2Positive(i);
    XorHalves(n, x, y);
    hide XorBits;
    if i == 0 {
      assert Pow2(0) == 1;
    } else {
      Pow2Positive(i - 1);
      XorBitsAre(n - 1, x / 2, y / 2, i - 1);
      HalfFirst(XorBits(n, x, y), Pow2(i - 1));
      HalfFirst(x, Pow2(i - 1));
      HalfFirst(y, Pow2(i - 1));
    }
  }

  lemma XorHalves(n: nat, x: nat, y: nat)
    requires n > 0
    ensures XorBits(n, x, y) / 2 == XorBits(n - 1, x / 2, y / 2)
    ensures XorBits(n, x, y) % 2 == if x % 2 == y % 2 then 0 else 1
  {}

  lemma {:induction false} Pow2Positive(n: nat)
    ensures Pow2(n) > 0
  {
    if n > 0 { Pow2Positive(n - 1); }
  }

  lemma HalfFirst(v: nat, p: nat)
    requires p > 0
    ensures v / 2 / p == v / (2 * p)
  {
    var d := v / 2 / p;
    var a := 2 * (v / 2 - p * d) + v % 2;
    assert v == 2 * p * d + a && 0 <= a < 2 * p;
    QuotientIs(v, 2 * p, d, a);
  }

  lemma QuotientIs(v: nat, p: nat, d: nat, a: nat)
    requires v == p * d + a && a < p
    ensures v / p == d
  {
    var q := v / p;
    if q < d { Multiples(p, q + 1, d); }
    if d < q { Multiples(p, d + 1, q); }
  }

  lemma Multiples(p: nat, x: int, y: int)
    requires x <= y
    ensures p * x <= p * y
  {}

  /** `h ^= b`: a byte reaches only the lowest byte of the state. */
  function XorByte(h: u64, b: u8): (r: u64)
    ensures r / 256 == h / 256
  {
    assert Pow2(8) == 256;
    h - h % 256 + XorBits(8, h % 256, b)
  }

  function FnvStep(h: u64, b: u8): u64 {
    XorByte(h, b) * FNV_PRIME % W64
  }

  /** `fnv1a64` continued from state `h`. */
  function FnvFrom(h: u64, data: Bytes): u64
    decreases |data|
  {
    if data == [] then h else FnvFrom(FnvStep(h, data[0]), data[1..])
  }

  function Fnv(data: Bytes): u64 {
    FnvFrom(FNV_BASIS, data)
  }

  method Fnv1a64(data: Bytes) returns (h: u64)
    ensures h == Fnv(data)
  {
    hide FnvStep;
    h := FNV_BASIS;
    var i := 0;
    while i < |data|
      invariant i <= |data|
      invariant Fnv(data) == FnvFrom(h, data[i..])
    {
      h := FnvStep(h, data[i]);
      assert data[i..][1..] == data[i + 1..];
      i := i + 1;
    }
  }

  // ---- one byte changed, hash changed ----

  lemma {:induction false} XorEqual(n: nat, x: nat, x': nat, y: nat, y': nat, bound: nat)
    requires XorBits(n, x, y) == XorBits(n, x', y') && (x == x' || y == y')
    requires x < bound && x' < bound && y < bound && y' < bound && bound == Pow2(n)
    ensures x == x' && y == y'
  {
    if n > 0 {
      var p, p' := XorBits(n - 1, x / 2, y / 2), XorBits(n - 1, x' / 2, y' / 2);
      assert p == p';
      assert x % 2 == x' % 2 && y % 2 == y' % 2;
      XorEqual(n - 1, x / 2, x' / 2, y / 2, y' / 2, bound / 2);
    }
  }

  /** The multiplier is odd, hence invertible modulo 2^64. */
  lemma TimesPrimeInjective(g: u64, h: u64)
    requires g * FNV_PRIME % W64 == h * FNV_PRIME % W64
    ensures g == h
  {
    var k, l := g * FNV_PRIME / W64, h * FNV_PRIME / W64;
    var inverse := 0xce965057aff6957b;
    var r := FNV_PRIME * inverse / W64;
    assert (g - h) * FNV_PRIME == (k - l) * W64;
    assert FNV_PRIME * inverse == 1 + r * W64;
    assert (g - h) * (1 + r * W64) == (k - l) * W64 * inverse;
    assert g - h == W64 * ((k - l) * inverse - (g - h) * r);
  }

  lemma StepInjective(g: u64, h: u64, a: u8, b: u8)
    requires FnvStep(g, a) == FnvStep(h, b) && (g == h || a == b)
    ensures g == h && a == b
  {
    TimesPrimeInjective(XorByte(g, a), XorByte(h, b));
    assert Pow2(8) == 256;
    XorEqual(8, g % 256, h % 256, a, b, 256);
  }

  lemma {:induction false} FnvInjectiveInState(g: u64, h: u64, data: Bytes)
    requires FnvFrom(g, data) == FnvFrom(h, data)
    ensures g == h
    decreases |data|
  {
    hide FnvStep;
    if data != [] {
      FnvInjectiveInState(FnvStep(g, data[0]), FnvStep(h, data[0]), data[1..]);
      StepInjective(g, h, data[0], data[0]);
    }
  }

  /** Changing any one byte changes the hash. */
  lemma {:induction false} FnvDetectsByte(h: u64, data: Bytes, i: nat, b: u8)
    requires i < |data| && data[i] != b
    ensures FnvFrom(h, data) != FnvFrom(h, data[i := b])
    decreases |data|
  {
    hide FnvStep;
    if i == 0 {
      assert data[0 := b][1..] == data[1..];
      if FnvFrom(h, data) == FnvFrom(h, data[0 := b]) {
        FnvInjectiveInState(FnvStep(h, data[0]), FnvStep(h, b), data[1..]);
        StepInjective(h, h, data[0], b);
      }
    } else {
      assert data[i := b][1..] == data[1..][i - 1 := b];
      FnvDetectsByte(FnvStep(h, data[0]), data[1..], i - 1, b);
    }
  }

  // ---- mixing ----

  function Word(x: u64): bv64 {
    x as bv64
  }

  /** A signed 64-bit value as the unsigned value of the same bits. */
  function Unsigned(x: i64): u64 {
    if x < 0 then x + W64 else x
  }

  function Mix64(x: bv64): bv64 {
    var a := x + 0x9e3779b97f4a7c15;
    var b := (a ^ (a >> 30)) * 0xbf58476d1ce4e5b9;
    var c := (b ^ (b >> 27)) * 0x94d049bb133111eb;
    c ^ (c >> 31)
  }

  function HashCombine(h: bv64, v: bv64): bv64 {
    h ^ Mix64(v + 0x9e3779b97f4a7c15 + (h << 6) + (h >> 2))
  }

  /** The mixing step on three inputs. */
  lemma MixingAnswers()
    ensures HashCombine(0, 0) == 0x6e789e6aa1b965f4
    ensures HashCombine(1, 2) == 0xa211b519d9a09a1d
    ensures HashCombine(0x45584348424f4f4b, 1) == 0x5dae2b6b9320b1a6
  {}

  /** The hash of no byte and of one. */
  lemma FnvAnswers()
    ensures Fnv([]) == 1469598103934665603 && Fnv([0x61]) == 4953267810257967366
  {
    XorAnswer();
    hide XorBits;
    assert XorByte(FNV_BASIS, 0x61) == 1469598103934665698;
    assert [0x61][1..] == [];
  }

  lemma XorAnswer()
    ensures XorBits(8, FNV_BASIS % 256, 0x61) == 226
  {
    assert FNV_BASIS % 256 == 131;
    assert XorBits(1, 1, 0) == 1;
    assert XorBits(2, 2, 1) == 3;
    assert XorBits(3, 4, 3) == 7;
    assert XorBits(4, 8, 6) == 14;
    assert XorBits(5, 16, 12) == 28;
    assert XorBits(6, 32, 24) == 56;
    assert XorBits(7, 65, 48) == 113;
    assert XorBits(8, 131, 97) == 226;
  }
}
