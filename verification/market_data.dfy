/** Market-data events on the wire, and the feed decoder that accepts them in order only. */
module MarketData {
  import opened Types
  import opened Codec
  import opened Checksum
  import opened Frames
  import OrderEntry

  const MD_MAGIC: u32 := 0x4d445349
  const MD_VERSION: u16 := 1

  const EVENT_WIDTHS: seq<nat> := [8, 1, 4, 8, 8, 4, 1, 8, 4, 1]

  function EventValues(ev: MdEvent): seq<nat> {
    [ev.seqNo, ev.typ, ev.symbol, ev.orderId, ev.newOrderId, ev.account, ev.side, Unsigned(ev.price), ev.qty, ev.reason]
  }

  function EventOf(vs: seq<nat>): MdEvent
    requires Fits(EVENT_WIDTHS, vs)
  {
    Powers();
    MdEvent(vs[0], vs[1], vs[2], vs[3], vs[4], vs[5], vs[6], OrderEntry.Signed(vs[7]), vs[8], vs[9])
  }

  function EventPayload(ev: MdEvent): Bytes {
    Pack(EVENT_WIDTHS, EventValues(ev))
  }

  function EventFrame(ev: MdEvent): Bytes {
    Frame(MD_MAGIC, MD_VERSION, EventPayload(ev))
  }

  /** The event of a well-formed frame, whatever its number. */
  function ParseEvent(frame: Bytes): Option<MdEvent> {
    var payload := Unframe(MD_MAGIC, MD_VERSION, frame);
    if payload.None? || |payload.value| != Sum(EVENT_WIDTHS) then None
    else
      PackOfParse(EVENT_WIDTHS, payload.value);
      Some(EventOf(Parse(EVENT_WIDTHS, payload.value)))
  }

  datatype Decoded = Event(ev: MdEvent) | BadFrame | Gap(expected: u64, actual: u64)

  /** `decode_md_event`. */
  function DecodeEvent(frame: Bytes, expected: Option<u64>): Decoded {
    var ev := ParseEvent(frame);
    if ev.None? then BadFrame
    else if expected.Some? && ev.value.seqNo != expected.value then Gap(expected.value, ev.value.seqNo)
    else Event(ev.value)
  }

  // ---- inverse both ways ----

  lemma EventValuesRoundTrip(ev: MdEvent)
    ensures Fits(EVENT_WIDTHS, EventValues(ev)) && EventOf(EventValues(ev)) == ev
  {
    Powers();
  }

  lemma EventRoundTrip(vs: seq<nat>)
    requires Fits(EVENT_WIDTHS, vs)
    ensures EventValues(EventOf(vs)) == vs
  {
    Powers();
  }

  lemma EventSize()
    ensures Sum(EVENT_WIDTHS) == 47
  {
    OffsetOfEnd(EVENT_WIDTHS);
    OffsetNext(EVENT_WIDTHS, 0);
    OffsetNext(EVENT_WIDTHS, 1);
    OffsetNext(EVENT_WIDTHS, 2);
    OffsetNext(EVENT_WIDTHS, 3);
    OffsetNext(EVENT_WIDTHS, 4);
    OffsetNext(EVENT_WIDTHS, 5);
    OffsetNext(EVENT_WIDTHS, 6);
    OffsetNext(EVENT_WIDTHS, 7);
    OffsetNext(EVENT_WIDTHS, 8);
    OffsetNext(EVENT_WIDTHS, 9);
  }

  /** Every event comes back from its frame; expecting another number is a gap. */
  lemma DecodeOfEncode(ev: MdEvent, expected: Option<u64>)
    ensures ParseEvent(EventFrame(ev)) == Some(ev)
    ensures DecodeEvent(EventFrame(ev), expected) ==
      if expected.None? || expected.value == ev.seqNo then Event(ev) else Gap(expected.value, ev.seqNo)
  {
    EventSize();
    UnframeOfFrame(MD_MAGIC, MD_VERSION, EventPayload(ev));
    EventValuesRoundTrip(ev);
    ParseOfPack(EVENT_WIDTHS, EventValues(ev));
  }

  /** A frame that parses is the encoding of its event. */
  lemma EncodeOfDecode(frame: Bytes)
    requires ParseEvent(frame).Some?
    ensures frame == EventFrame(ParseEvent(frame).value)
  {
    var payload := Unframe(MD_MAGIC, MD_VERSION, frame).value;
    FrameOfUnframe(MD_MAGIC, MD_VERSION, frame);
    PackOfParse(EVENT_WIDTHS, payload);
    EventRoundTrip(Parse(EVENT_WIDTHS, payload));
  }

  /** Any one byte of an event frame changed, and it is refused. */
  lemma OneByteRefused(ev: MdEvent, i: nat, b: u8, expected: Option<u64>)
    requires i < |EventFrame(ev)| && EventFrame(ev)[i] != b
    ensures DecodeEvent(EventFrame(ev)[i := b], expected) == BadFrame
  {
    EventSize();
    OneByteUnframes(MD_MAGIC, MD_VERSION, EventPayload(ev), i, b);
  }

  // ---- the encoders and the decoder ----

  /** `encode_md_event`. */
  method EncodeMdEvent(ev: MdEvent) returns (frame: Bytes)
    ensures frame == EventFrame(ev)
  {
    hide Pack, Sum, LE, Unsigned;
    var p := new Writer(EVENT_WIDTHS, EventValues(ev));
    p.Pod(ev.seqNo, 8);
    p.Pod(ev.typ, 1);
    p.Pod(ev.symbol, 4);
    p.Pod(ev.orderId, 8);
    p.Pod(ev.newOrderId, 8);
    p.Pod(ev.account, 4);
    p.Pod(ev.side, 1);
    p.Pod(Unsigned(ev.price), 8);
    p.Pod(ev.qty, 4);
    p.Pod(ev.reason, 1);
    assert EVENT_WIDTHS[..10] == EVENT_WIDTHS && EventValues(ev)[..10] == EventValues(ev);
    EventSize();
    frame := WriteFrame(MD_MAGIC, MD_VERSION, p.out);
  }

  /** `encode_md_event_frame`: the same bytes, in a fixed array. */
  method EncodeMdEventFrame(ev: MdEvent) returns (a: array<u8>)
    ensures fresh(a) && a[..] == EventFrame(ev)
  {
    hide Pack, Sum, LE, Unsigned, Frame, Written;
    EventSize();
    ghost var vs := EventValues(ev);
    a := new u8[63](_ => 0);
    NothingWritten(a, 16, EVENT_WIDTHS, vs);
    var pos := PutField(a, 16, 16, ev.seqNo, 8, EVENT_WIDTHS, vs, 0);
    pos := PutField(a, 16, pos, ev.typ, 1, EVENT_WIDTHS, vs, 1);
    pos := PutField(a, 16, pos, ev.symbol, 4, EVENT_WIDTHS, vs, 2);
    pos := PutField(a, 16, pos, ev.orderId, 8, EVENT_WIDTHS, vs, 3);
    pos := PutField(a, 16, pos, ev.newOrderId, 8, EVENT_WIDTHS, vs, 4);
    pos := PutField(a, 16, pos, ev.account, 4, EVENT_WIDTHS, vs, 5);
    pos := PutField(a, 16, pos, ev.side, 1, EVENT_WIDTHS, vs, 6);
    pos := PutField(a, 16, pos, Unsigned(ev.price), 8, EVENT_WIDTHS, vs, 7);
    pos := PutField(a, 16, pos, ev.qty, 4, EVENT_WIDTHS, vs, 8);
    pos := PutField(a, 16, pos, ev.reason, 1, EVENT_WIDTHS, vs, 9);
    AllWritten(a, 16, EVENT_WIDTHS, vs);
    PutHeader(a, MD_MAGIC, MD_VERSION);
  }

  /** The fields of an event, read one after the other. */
  method ReadEvent(payload: Bytes) returns (r: Option<MdEvent>)
    ensures |payload| != Sum(EVENT_WIDTHS) ==> r == None
    ensures |payload| == Sum(EVENT_WIDTHS) ==>
      Fits(EVENT_WIDTHS, Parse(EVENT_WIDTHS, payload)) && r == Some(EventOf(Parse(EVENT_WIDTHS, payload)))
  {
    hide NumberAt, Val, Sum, Offset, Parse, OrderEntry.Signed;
    var pr := new Reader(payload, EVENT_WIDTHS);
    OffsetOfEnd(EVENT_WIDTHS);
    var seqNo := pr.Pod(8);
    var typ := pr.Pod(1);
    var symbol := pr.Pod(4);
    var orderId := pr.Pod(8);
    var newOrderId := pr.Pod(8);
    var account := pr.Pod(4);
    var side := pr.Pod(1);
    var price := pr.Pod(8);
    var qty := pr.Pod(4);
    var reason := pr.Pod(1);
    if seqNo.None? || typ.None? || symbol.None? || orderId.None? || newOrderId.None? || account.None? || side.None?
       || price.None? || qty.None? || reason.None? || pr.Remaining() != 0
    {
      return None;
    }
    PackOfParse(EVENT_WIDTHS, payload);
    Powers();
    r := Some(MdEvent(seqNo.value, typ.value, symbol.value, orderId.value, newOrderId.value, account.value, side.value,
                      OrderEntry.Signed(price.value), qty.value, reason.value));
  }

  /** `decode_md_event`. */
  method DecodeMdEvent(frame: Bytes, expected: Option<u64>) returns (d: Decoded)
    ensures d == DecodeEvent(frame, expected)
  {
    hide Sum, Parse, Unframe, EventOf;
    var payload := ReadFrame(MD_MAGIC, MD_VERSION, frame);
    if payload.None? { return BadFrame; }
    var ev := ReadEvent(payload.value);
    if ev.None? { return BadFrame; }
    if expected.Some? && ev.value.seqNo != expected.value { return Gap(expected.value, ev.value.seqNo); }
    return Event(ev.value);
  }

  class FeedDecoder {
    var expected: u64

    constructor (first: u64)
      ensures expected == first
    {
      expected := first;
    }

    method Decode(frame: Bytes) returns (d: Decoded)
      modifies this
      ensures d == DecodeEvent(frame, Some(old(expected)))
      ensures expected == if d.Event? then Inc64(old(expected)) else old(expected)
    {
      d := DecodeMdEvent(frame, Some(expected));
      if d.Event? { expected := Inc64(expected); }
    }
  }
}
