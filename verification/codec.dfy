/** Little-endian records: fields of fixed widths, written and read through a cursor. */
module Codec {
  import opened Types

  function Pow256(n: nat): (p: nat)
    ensures p > 0
  {
    if n == 0 then 1 else 256 * Pow256(n - 1)
  }

  /** The `n` bytes of `v`, least significant first. */
  function LE(v: nat, n: nat): (r: Bytes)
    ensures |r| == n
  {
    if n == 0 then [] else [v % 256] + LE(v / 256, n - 1)
  }

  function Val(bs: Bytes): nat {
    if bs == [] then 0 else bs[0] + 256 * Val(bs[1..])
  }

  lemma {:induction false} ValOfLE(v: nat, n: nat)
    requires v < Pow256(n)
    ensures Val(LE(v, n)) == v
  {
    if n > 0 {
      ValOfLE(v / 256, n - 1);
      assert LE(v, n)[1..] == LE(v / 256, n - 1);
    }
  }

  lemma LowByte(b: u8, rest: nat)
    ensures (b + 256 * rest) % 256 == b && (b + 256 * rest) / 256 == rest
  {}

  lemma {:induction false} LEOfVal(bs: Bytes)
    ensures Val(bs) < Pow256(|bs|) && LE(Val(bs), |bs|) == bs
  {
    if bs != [] {
      LEOfVal(bs[1..]);
      LowByte(bs[0], Val(bs[1..]));
      assert bs == [bs[0]] + bs[1..];
    }
  }

  lemma Powers()
    ensures Pow256(1) == 256 && Pow256(2) == 65536 && Pow256(4) == W32 && Pow256(8) == W64
  {
    assert Pow256(3) == 0x100_0000;
    assert Pow256(6) == 0x1_0000_0000_0000;
  }

  // ---- records ----

  function Sum(widths: seq<nat>): nat {
    if widths == [] then 0 else Sum(widths[..|widths| - 1]) + widths[|widths| - 1]
  }

  /** The fields one after another. */
  function Pack(widths: seq<nat>, values: seq<nat>): (r: Bytes)
    requires |widths| == |values|
    ensures |r| == Sum(widths)
  {
    if widths == [] then []
    else
      var n := |widths| - 1;
      Pack(widths[..n], values[..n]) + LE(values[n], widths[n])
  }

  function Parse(widths: seq<nat>, bs: Bytes): (r: seq<nat>)
    requires |bs| == Sum(widths)
    ensures |r| == |widths|
  {
    if widths == [] then []
    else
      var n := |widths| - 1;
      var cut := |bs| - widths[n];
      Parse(widths[..n], bs[..cut]) + [Val(bs[cut..])]
  }

  ghost predicate Fits(widths: seq<nat>, values: seq<nat>) {
    |widths| == |values| && forall i :: 0 <= i < |widths| ==> values[i] < Pow256(widths[i])
  }

  lemma {:induction false} ParseOfPack(widths: seq<nat>, values: seq<nat>)
    requires Fits(widths, values)
    ensures Parse(widths, Pack(widths, values)) == values
  {
    hide Val, LE;
    if widths != [] {
      var n := |widths| - 1;
      ParseOfPack(widths[..n], values[..n]);
      ValOfLE(values[n], widths[n]);
      var head := Pack(widths[..n], values[..n]);
      assert Pack(widths, values)[..|head|] == head && Pack(widths, values)[|head|..] == LE(values[n], widths[n]);
      assert values == values[..n] + [values[n]];
    }
  }

  lemma {:induction false} PackOfParse(widths: seq<nat>, bs: Bytes)
    requires |bs| == Sum(widths)
    ensures Fits(widths, Parse(widths, bs)) && Pack(widths, Parse(widths, bs)) == bs
  {
    hide Val, LE;
    if widths != [] {
      var n := |widths| - 1;
      var cut := |bs| - widths[n];
      PackOfParse(widths[..n], bs[..cut]);
      LEOfVal(bs[cut..]);
      var vs := Parse(widths, bs);
      assert vs[..n] == Parse(widths[..n], bs[..cut]);
      assert bs == bs[..cut] + bs[cut..];
    }
  }

  /** Where field `k` starts. */
  function Offset(widths: seq<nat>, k: nat): nat
    requires k <= |widths|
  {
    Sum(widths[..k])
  }

  lemma OffsetOfEnd(widths: seq<nat>)
    ensures Offset(widths, 0) == 0 && Offset(widths, |widths|) == Sum(widths)
  {
    assert widths[..|widths|] == widths && widths[..0] == [];
  }

  lemma PackNothing(widths: seq<nat>, values: seq<nat>)
    requires |widths| == |values|
    ensures Pack(widths[..0], values[..0]) == []
  {}

  lemma OffsetNext(widths: seq<nat>, k: nat)
    requires k < |widths|
    ensures Offset(widths, k + 1) == Offset(widths, k) + widths[k]
  {
    assert widths[..k + 1][..k] == widths[..k];
  }

  lemma {:induction false} OffsetsRise(widths: seq<nat>, j: nat, k: nat)
    requires j <= k <= |widths|
    ensures Offset(widths, j) <= Offset(widths, k)
    decreases k - j
  {
    if j < k {
      OffsetNext(widths, j);
      OffsetsRise(widths, j + 1, k);
    }
  }

  lemma PackNext(widths: seq<nat>, values: seq<nat>, k: nat)
    requires |widths| == |values| && k < |widths|
    ensures Pack(widths[..k + 1], values[..k + 1]) == Pack(widths[..k], values[..k]) + LE(values[k], widths[k])
  {
    assert widths[..k + 1][..k] == widths[..k] && values[..k + 1][..k] == values[..k];
  }

  lemma ParseLast(widths: seq<nat>, bs: Bytes)
    requires |bs| == Sum(widths) && widths != []
    ensures var n := |widths| - 1;
      && Offset(widths, n) == |bs| - widths[n] >= 0 && Offset(widths, n + 1) == |bs|
      && Parse(widths, bs) == Parse(widths[..n], bs[..Offset(widths, n)]) + [Val(bs[Offset(widths, n)..])]
  {
    hide Val;
    OffsetOfEnd(widths);
    var cut := |bs| - widths[|widths| - 1];
    assert Offset(widths, |widths| - 1) == cut;
    hide Sum, Offset;
  }

  /** Field `k` of a record. */
  lemma {:induction false} ParseAt(widths: seq<nat>, bs: Bytes, k: nat)
    requires |bs| == Sum(widths) && k < |widths|
    ensures Offset(widths, k + 1) == Offset(widths, k) + widths[k] <= |bs|
    ensures Parse(widths, bs)[k] == Val(bs[Offset(widths, k)..Offset(widths, k + 1)])
  {
    hide Val, Parse;
    var n := |widths| - 1;
    ParseLast(widths, bs);
    OffsetNext(widths, k);
    if k < n {
      OffsetsRise(widths, k + 1, n);
      var cut := Offset(widths, n);
      OffsetOfPart(widths, n, k);
      OffsetOfPart(widths, n, k + 1);
      ParseAt(widths[..n], bs[..cut], k);
      assert bs[..cut][Offset(widths, k)..Offset(widths, k + 1)] == bs[Offset(widths, k)..Offset(widths, k + 1)];
    } else {
      assert bs[Offset(widths, n)..|bs|] == bs[Offset(widths, n)..];
    }
  }

  lemma OffsetOfPart(widths: seq<nat>, n: nat, k: nat)
    requires k <= n <= |widths|
    ensures Offset(widths[..n], k) == Offset(widths, k)
  {
    assert widths[..n][..k] == widths[..k];
  }

  lemma {:induction false} SumBound(widths: seq<nat>)
    requires forall w <- widths :: w <= 8
    ensures Sum(widths) <= 8 * |widths|
  {
    if widths != [] {
      var n := |widths| - 1;
      assert widths[n] in widths && forall w <- widths[..n] :: w in widths;
      SumBound(widths[..n]);
    }
  }

  // ---- the cursors ----

  /** The number in the `n` bytes at `pos`. */
  function NumberAt(input: Bytes, pos: nat, n: nat): nat
    requires pos + n <= |input|
  {
    Val(input[pos..pos + n])
  }

  /** Writes a record field by field; `widths` and `values` are the record meant. */
  class Writer {
    var out: Bytes
    ghost const widths: seq<nat>
    ghost const values: seq<nat>
    ghost var written: nat

    ghost predicate Valid()
      reads this
    {
      |widths| == |values| && written <= |widths| && out == Pack(widths[..written], values[..written])
    }

    constructor (ghost widths: seq<nat>, ghost values: seq<nat>)
      requires |widths| == |values|
      ensures Valid() && this.widths == widths && this.values == values && written == 0
    {
      this.widths, this.values := widths, values;
      out, written := [], 0;
    }

    method Pod(v: nat, n: nat)
      requires Valid() && written < |widths| && v == values[written] && n == widths[written]
      modifies this
      ensures Valid() && written == old(written) + 1 && out == old(out) + LE(v, n)
    {
      PackNext(widths, values, written);
      out := out + LE(v, n);
      written := written + 1;
    }
  }

  /** Reads a record field by field; `widths` is the record expected. */
  class Reader {
    const input: Bytes
    var pos: nat
    ghost const widths: seq<nat>
    ghost var asked: nat
    ghost var complete: bool

    ghost predicate Valid()
      reads this
    {
      && asked <= |widths| && pos <= |input|
      && (complete ==> pos == Offset(widths, asked))
      && (!complete ==> |input| < Offset(widths, asked))
    }

    constructor (input: Bytes, ghost widths: seq<nat>)
      ensures Valid() && this.input == input && this.widths == widths && pos == 0 && asked == 0 && complete
    {
      this.input, this.widths := input, widths;
      pos, asked, complete := 0, 0, true;
    }

    /** The next `n` bytes as a number; nothing moves when they are not there. */
    method Pod(n: nat) returns (r: Option<nat>)
      requires Valid() && asked < |widths| && n == widths[asked]
      modifies this
      ensures Valid() && asked == old(asked) + 1
      ensures complete == (old(complete) && r.Some?)
      ensures r == if old(pos) + n > |input| then None else Some(NumberAt(input, old(pos), n))
      ensures pos == if r.None? then old(pos) else old(pos) + n
      ensures complete && |input| == Sum(widths) ==> r.value == Parse(widths, input)[old(asked)]
    {
      OffsetNext(widths, asked);
      if |input| == Sum(widths) { ParseAt(widths, input, asked); }
      if pos + n > |input| {
        r := None;
        complete := false;
      } else {
        r := Some(NumberAt(input, pos, n));
        pos := pos + n;
      }
      asked := asked + 1;
    }

    /** The next `n` bytes as they are. */
    method Raw(n: nat) returns (r: Option<Bytes>)
      requires Valid()
      modifies `pos
      ensures r == if old(pos) + n > |input| then None else Some(input[old(pos)..old(pos) + n])
      ensures pos == if r.None? then old(pos) else old(pos) + n
    {
      if pos + n > |input| { return None; }
      r := Some(input[pos..pos + n]);
      pos := pos + n;
    }

    function Remaining(): int
      reads this
    {
      |input| - pos
    }
  }
}
