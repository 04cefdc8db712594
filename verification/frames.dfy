/** The frame shared by order entry and market data: magic, version, payload length, payload
    hash, payload. */
module Frames {
  import opened Types
  import opened Codec
  import opened Checksum

  const HEADER: seq<nat> := [4, 2, 2, 8]

  lemma HeaderSize()
    ensures Sum(HEADER) == 16
  {
    assert HEADER[..3] == [4, 2, 2] && [4, 2, 2][..2] == [4, 2] && [4, 2][..1] == [4] && [4][..0] == [];
  }

  function Header(magic: u32, version: u16, payload: Bytes): seq<nat> {
    [magic, version, |payload|, Fnv(payload)]
  }

  function Frame(magic: u32, version: u16, payload: Bytes): Bytes {
    Pack(HEADER, Header(magic, version, payload)) + payload
  }

  /** The payload of a well-formed frame. */
  function Unframe(magic: u32, version: u16, frame: Bytes): Option<Bytes> {
    if |frame| < 16 then None
    else
      HeaderSize();
      var h := Parse(HEADER, frame[..16]);
      if h[0] != magic || h[1] != version || h[2] != |frame| - 16 || h[3] != Fnv(frame[16..]) then None
      else Some(frame[16..])
  }

  lemma HeaderFits(magic: u32, version: u16, payload: Bytes)
    requires |payload| < 65536
    ensures Fits(HEADER, Header(magic, version, payload))
  {
    Powers();
  }

  lemma UnframeOfFrame(magic: u32, version: u16, payload: Bytes)
    requires |payload| < 65536
    ensures Unframe(magic, version, Frame(magic, version, payload)) == Some(payload)
  {
    HeaderSize();
    HeaderFits(magic, version, payload);
    var head := Pack(HEADER, Header(magic, version, payload));
    ParseOfPack(HEADER, Header(magic, version, payload));
    assert (head + payload)[..16] == head && (head + payload)[16..] == payload;
  }

  lemma FrameOfUnframe(magic: u32, version: u16, frame: Bytes)
    requires Unframe(magic, version, frame).Some?
    ensures frame == Frame(magic, version, Unframe(magic, version, frame).value)
    ensures |Unframe(magic, version, frame).value| < 65536
  {
    HeaderSize();
    Powers();
    var h := Parse(HEADER, frame[..16]);
    PackOfParse(HEADER, frame[..16]);
    assert h == Header(magic, version, frame[16..]);
    assert frame == frame[..16] + frame[16..];
  }

  /** Any one byte changed, in the header or in the payload, and the frame is refused. */
  lemma OneByteUnframes(magic: u32, version: u16, payload: Bytes, i: nat, b: u8)
    requires |payload| < 65536 && i < |Frame(magic, version, payload)| && Frame(magic, version, payload)[i] != b
    ensures Unframe(magic, version, Frame(magic, version, payload)[i := b]) == None
  {
    HeaderSize();
    var frame := Frame(magic, version, payload);
    var bad := frame[i := b];
    assert i < 16 ==> bad[16..] == payload;
    if Unframe(magic, version, bad).Some? {
      FrameOfUnframe(magic, version, bad);
      var payload' := bad[16..];
      if i >= 16 {
        assert payload' == payload[i - 16 := b];
        FnvDetectsByte(FNV_BASIS, payload, i - 16, b);
        HeaderFits(magic, version, payload);
        HeaderFits(magic, version, payload');
        assert bad[..16] == frame[..16];
        assert frame[..16] == Pack(HEADER, Header(magic, version, payload));
        assert bad[..16] == Pack(HEADER, Header(magic, version, payload'));
        ParseOfPack(HEADER, Header(magic, version, payload));
        ParseOfPack(HEADER, Header(magic, version, payload'));
      }
    }
  }

  method WriteFrame(magic: u32, version: u16, payload: Bytes) returns (frame: Bytes)
    requires |payload| < 65536
    ensures frame == Frame(magic, version, payload)
  {
    var hash := Fnv1a64(payload);
    var w := new Writer(HEADER, Header(magic, version, payload));
    w.Pod(magic, 4);
    w.Pod(version, 2);
    w.Pod(|payload|, 2);
    w.Pod(hash, 8);
    assert HEADER[..4] == HEADER && Header(magic, version, payload)[..4] == Header(magic, version, payload);
    frame := w.out + payload;
  }

  method ReadFrame(magic: u32, version: u16, frame: Bytes) returns (r: Option<Bytes>)
    ensures r == Unframe(magic, version, frame)
  {
    HeaderSize();
    var rd := new Reader(frame, HEADER);
    assert HEADER[..4] == HEADER;
    var m := rd.Pod(4);
    var v := rd.Pod(2);
    var len := rd.Pod(2);
    var hash := rd.Pod(8);
    if m.None? || v.None? || len.None? || hash.None? { return None; }
    HeaderFields(frame);
    if m.value != magic { return None; }
    if v.value != version { return None; }
    var payload := rd.Raw(len.value);
    if payload.None? || rd.Remaining() != 0 { return None; }
    assert payload.value == frame[16..];
    var h := Fnv1a64(payload.value);
    if h != hash.value { return None; }
    return payload;
  }

  lemma HeaderFields(frame: Bytes)
    requires |frame| >= 16
    ensures Sum(HEADER) == 16
    ensures Parse(HEADER, frame[..16]) == [Val(frame[0..4]), Val(frame[4..6]), Val(frame[6..8]), Val(frame[8..16])]
  {
    HeaderSize();
    var bs := frame[..16];
    ParseAt(HEADER, bs, 0);
    ParseAt(HEADER, bs, 1);
    ParseAt(HEADER, bs, 2);
    ParseAt(HEADER, bs, 3);
    assert bs[0..4] == frame[0..4] && bs[4..6] == frame[4..6] && bs[6..8] == frame[6..8] && bs[8..16] == frame[8..16];
  }

  // ---- the fixed-size encoders ----

  /** `put`: the `n` bytes of `v` at `pos`. */
  method Put(a: array<u8>, pos: nat, v: nat, n: nat) returns (next: nat)
    requires pos + n <= a.Length
    modifies a
    ensures next == pos + n
    ensures a[pos..next] == LE(v, n)
    ensures forall i :: 0 <= i < pos || next <= i < a.Length ==> a[i] == old(a[i])
  {
    var bytes := LE(v, n);
    next := pos;
    while next < pos + n
      invariant pos <= next <= pos + n
      invariant forall i :: 0 <= i < pos || pos + n <= i < a.Length ==> a[i] == old(a[i])
      invariant a[pos..next] == bytes[..next - pos]
    {
      a[next] := bytes[next - pos];
      next := next + 1;
    }
  }

  /** The first `k` fields of the record that starts at `base` stand in the buffer. */
  ghost predicate Written(a: array<u8>, base: nat, pos: nat, widths: seq<nat>, values: seq<nat>, k: nat)
    reads a
  {
    && base <= pos <= a.Length && k <= |widths| && k <= |values|
    && a[base..pos] == Pack(widths[..k], values[..k])
  }

  lemma NothingWritten(a: array<u8>, base: nat, widths: seq<nat>, values: seq<nat>)
    requires base <= a.Length && |widths| == |values|
    ensures Written(a, base, base, widths, values, 0)
  {
    PackNothing(widths, values);
  }

  lemma AllWritten(a: array<u8>, base: nat, widths: seq<nat>, values: seq<nat>)
    requires |widths| == |values| && Written(a, base, a.Length, widths, values, |widths|)
    ensures a[base..] == Pack(widths, values)
  {
    assert widths[..|widths|] == widths && values[..|values|] == values;
    hide Pack;
  }

  /** `put` of field `k` of the record that starts at `base`. */
  method PutField(a: array<u8>, ghost base: nat, pos: nat, v: nat, n: nat,
                  ghost widths: seq<nat>, ghost values: seq<nat>, ghost k: nat)
    returns (next: nat)
    requires pos + n <= a.Length
    requires |widths| == |values| && k < |widths| && widths[k] == n && values[k] == v
    requires Written(a, base, pos, widths, values, k)
    modifies a
    ensures next == pos + n && Written(a, base, next, widths, values, k + 1)
    ensures forall i :: next <= i < a.Length ==> a[i] == old(a[i])
  {
    hide Pack, LE;
    PackNext(widths, values, k);
    next := Put(a, pos, v, n);
    assert a[base..next] == a[base..pos] + a[pos..next];
  }

  /** The header of a frame whose payload already stands at byte 16. */
  method PutHeader(a: array<u8>, magic: u32, version: u16)
    requires 16 <= a.Length < 65552
    modifies a
    ensures a[..] == Frame(magic, version, old(a[16..]))
  {
    HeaderSize();
    ghost var payload := a[16..];
    var checksum := Fnv1a64(a[16..]);
    ghost var values := Header(magic, version, payload);
    PackNothing(HEADER, values);
    hide Pack, LE, Fnv;
    var pos := PutField(a, 0, 0, magic, 4, HEADER, values, 0);
    pos := PutField(a, 0, pos, version, 2, HEADER, values, 1);
    pos := PutField(a, 0, pos, a.Length - 16, 2, HEADER, values, 2);
    pos := PutField(a, 0, pos, checksum, 8, HEADER, values, 3);
    assert HEADER[..4] == HEADER && values[..4] == values;
    assert a[16..] == payload && a[..] == a[0..16] + a[16..];
  }
}
