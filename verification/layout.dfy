/** Which bytes of a frame or a journal record hold which field, in what order. */
module Layout {
  import opened Types
  import opened Codec
  import opened Checksum
  import opened Frames
  import OrderEntry
  import MarketData
  import Journal

  /** Byte `i` of a number, least significant first. */
  function ByteOf(v: int, i: nat): u8 {
    v / Pow256(i) % 256
  }

  /** The `n` bytes at `at` are the number `v`, least significant byte first. */
  ghost predicate Field(bs: Bytes, at: nat, n: nat, v: int) {
    at + n <= |bs| && forall i :: 0 <= i < n ==> bs[at + i] == ByteOf(v, i)
  }

  /** The bytes written are the bytes of the number. */
  lemma {:induction false} ByteOfLE(v: nat, n: nat, i: nat)
    requires i < n
    ensures LE(v, n)[i] == v / Pow256(i) % 256
  {
    if i > 0 {
      ByteOfLE(v / 256, n - 1, i - 1);
      DivideTwice(v, Pow256(i - 1));
    }
  }

  lemma DivideTwice(v: nat, p: nat)
    requires p > 0
    ensures v / 256 / p == v / (256 * p)
  {
    var u, d := v / 256, v / 256 / p;
    DivideExactly(256 * p, d, 256 * (u - p * d) + v % 256, v);
  }

  lemma DivideExactly(p: nat, q: nat, a: nat, x: nat)
    requires x == p * q + a && a < p
    ensures x / p == q
  {
    var d := x / p;
    if q < d { MulMono(p, q + 1, d); }
    if d < q { MulMono(p, d + 1, q); }
  }

  lemma MulMono(k: nat, x: int, y: int)
    requires x <= y
    ensures k * x <= k * y
  {}

  /** A field of a packed record. */
  lemma PackedField(widths: seq<nat>, values: seq<nat>, k: nat, at: nat)
    requires |widths| == |values| && k < |widths| && at == Offset(widths, k)
    ensures Field(Pack(widths, values), at, widths[k], values[k])
  {
    hide Pack, LE;
    var bs, n := Pack(widths, values), widths[k];
    PackedAt(widths, values, k);
    forall i | 0 <= i < n ensures bs[at + i] == ByteOf(values[k], i) {
      ByteOfLE(values[k], n, i);
      assert bs[at..at + n][i] == bs[at + i];
    }
  }

  lemma {:induction false} PackedAt(widths: seq<nat>, values: seq<nat>, k: nat)
    requires |widths| == |values| && k < |widths|
    ensures var at := Offset(widths, k);
      at + widths[k] <= Sum(widths) && Pack(widths, values)[at..at + widths[k]] == LE(values[k], widths[k])
  {
    hide LE;
    var n := |widths| - 1;
    OffsetOfEnd(widths);
    OffsetNext(widths, n);
    if k < n {
      PackedAt(widths[..n], values[..n], k);
      OffsetOfPart(widths, n, k);
    }
  }

  /** The bytes of a field are determined by its number. */
  lemma SameField(bs: Bytes, bs': Bytes, at: nat, n: nat, v: int)
    requires Field(bs, at, n, v) && Field(bs', at, n, v)
    ensures at + n <= |bs| && at + n <= |bs'| && bs[at..at + n] == bs'[at..at + n]
  {
    hide ByteOf;
    forall j | at <= j < at + n ensures bs[j] == bs'[j] {
      assert bs[at + (j - at)] == ByteOf(v, j - at) == bs'[at + (j - at)];
    }
  }

  lemma SameTogether(f: Bytes, g: Bytes, a: nat, b: nat, c: nat)
    requires a <= b <= c <= |f| && c <= |g| && f[a..b] == g[a..b] && f[b..c] == g[b..c]
    ensures f[a..c] == g[a..c]
  {
    assert f[a..c] == f[a..b] + f[b..c] && g[a..c] == g[a..b] + g[b..c];
  }

  lemma FieldLater(bs: Bytes, head: Bytes, at: nat, n: nat, v: int)
    requires Field(bs, at, n, v)
    ensures Field(head + bs, |head| + at, n, v)
  {
    hide ByteOf;
  }

  lemma FieldBefore(bs: Bytes, tail: Bytes, at: nat, n: nat, v: int)
    requires Field(bs, at, n, v)
    ensures Field(bs + tail, at, n, v)
  {
    hide ByteOf;
  }

  /** A signed number is sent as its value modulo 2^64. */
  lemma UnsignedIs(x: i64)
    ensures Unsigned(x) == x % W64
  {}

  // ---- the frame ----

  /** Magic, version, payload length and payload hash. */
  ghost predicate HeaderAt(f: Bytes, magic: u32, version: u16, size: nat) {
    && |f| == 16 + size
    && Field(f, 0, 4, magic) && Field(f, 4, 2, version) && Field(f, 6, 2, size) && Field(f, 8, 8, Fnv(f[16..]))
  }

  lemma HeaderOffsets()
    ensures Sum(HEADER) == 16 && Offset(HEADER, 0) == 0 && Offset(HEADER, 1) == 4 && Offset(HEADER, 2) == 6
    ensures Offset(HEADER, 3) == 8
  {
    hide Sum, Offset;
    OffsetOfEnd(HEADER);
    OffsetNext(HEADER, 0);
    OffsetNext(HEADER, 1);
    OffsetNext(HEADER, 2);
    OffsetNext(HEADER, 3);
  }

  lemma FrameHeader(magic: u32, version: u16, payload: Bytes)
    ensures HeaderAt(Frame(magic, version, payload), magic, version, |payload|)
    ensures Frame(magic, version, payload)[16..] == payload
  {
    hide Pack, Fnv, Field;
    HeaderOffsets();
    var values := Header(magic, version, payload);
    var head := Pack(HEADER, values);
    PackedField(HEADER, values, 0, 0);
    PackedField(HEADER, values, 1, 4);
    PackedField(HEADER, values, 2, 6);
    PackedField(HEADER, values, 3, 8);
    FieldBefore(head, payload, 0, 4, magic);
    FieldBefore(head, payload, 4, 2, version);
    FieldBefore(head, payload, 6, 2, |payload|);
    FieldBefore(head, payload, 8, 8, Fnv(payload));
    assert Frame(magic, version, payload)[16..] == payload;
  }

  /** The header's fields and the payload determine the frame. */
  lemma SameFrame(f: Bytes, g: Bytes, magic: u32, version: u16, size: nat)
    requires HeaderAt(f, magic, version, size) && HeaderAt(g, magic, version, size) && f[16..] == g[16..]
    ensures f == g
  {
    hide Field, Fnv;
    SameField(f, g, 0, 4, magic);
    SameField(f, g, 4, 2, version);
    SameField(f, g, 6, 2, size);
    SameField(f, g, 8, 8, Fnv(f[16..]));
    SameTogether(f, g, 0, 4, 6);
    SameTogether(f, g, 0, 6, 8);
    SameTogether(f, g, 0, 8, 16);
    assert f[16..|f|] == f[16..] && g[16..|g|] == g[16..];
    SameTogether(f, g, 0, 16, |f|);
    assert f[0..|f|] == f && g[0..|g|] == g;
  }

  // ---- commands ----

  /** The fields of a command, from byte `at` on. */
  ghost predicate CommandAt(bs: Bytes, at: nat, c: ClientCommand) {
    && Field(bs, at, 1, c.typ) && Field(bs, at + 1, 8, c.clientOrderId) && Field(bs, at + 9, 8, c.orderId)
    && Field(bs, at + 17, 8, c.cancelOrderId) && Field(bs, at + 25, 4, c.account) && Field(bs, at + 29, 4, c.symbol)
    && Field(bs, at + 33, 1, c.side) && Field(bs, at + 34, 8, c.price % W64) && Field(bs, at + 42, 4, c.qty)
    && Field(bs, at + 46, 1, c.tif) && Field(bs, at + 47, 8, c.clientTs)
  }

  lemma CommandAtLater(bs: Bytes, head: Bytes, at: nat, c: ClientCommand)
    requires CommandAt(bs, at, c)
    ensures CommandAt(head + bs, |head| + at, c)
  {
    hide Field;
    FieldLater(bs, head, at, 1, c.typ);
    FieldLater(bs, head, at + 1, 8, c.clientOrderId);
    FieldLater(bs, head, at + 9, 8, c.orderId);
    FieldLater(bs, head, at + 17, 8, c.cancelOrderId);
    FieldLater(bs, head, at + 25, 4, c.account);
    FieldLater(bs, head, at + 29, 4, c.symbol);
    FieldLater(bs, head, at + 33, 1, c.side);
    FieldLater(bs, head, at + 34, 8, c.price % W64);
    FieldLater(bs, head, at + 42, 4, c.qty);
    FieldLater(bs, head, at + 46, 1, c.tif);
    FieldLater(bs, head, at + 47, 8, c.clientTs);
  }

  /** The fields of a command determine its 55 bytes. */
  lemma SameCommand(f: Bytes, g: Bytes, at: nat, c: ClientCommand)
    requires CommandAt(f, at, c) && CommandAt(g, at, c)
    ensures f[at..at + 55] == g[at..at + 55]
  {
    hide Field;
    SameField(f, g, at, 1, c.typ);
    SameField(f, g, at + 1, 8, c.clientOrderId);
    SameField(f, g, at + 9, 8, c.orderId);
    SameField(f, g, at + 17, 8, c.cancelOrderId);
    SameField(f, g, at + 25, 4, c.account);
    SameField(f, g, at + 29, 4, c.symbol);
    SameField(f, g, at + 33, 1, c.side);
    SameField(f, g, at + 34, 8, c.price % W64);
    SameField(f, g, at + 42, 4, c.qty);
    SameField(f, g, at + 46, 1, c.tif);
    SameField(f, g, at + 47, 8, c.clientTs);
    SameTogether(f, g, at, at + 1, at + 9);
    SameTogether(f, g, at, at + 9, at + 17);
    SameTogether(f, g, at, at + 17, at + 25);
    SameTogether(f, g, at, at + 25, at + 29);
    SameTogether(f, g, at, at + 29, at + 33);
    SameTogether(f, g, at, at + 33, at + 34);
    SameTogether(f, g, at, at + 34, at + 42);
    SameTogether(f, g, at, at + 42, at + 46);
    SameTogether(f, g, at, at + 46, at + 47);
    SameTogether(f, g, at, at + 47, at + 55);
  }

  lemma CommandOffsets()
    ensures Sum(OrderEntry.COMMAND_WIDTHS) == 55
    ensures var w := OrderEntry.COMMAND_WIDTHS;
      && Offset(w, 0) == 0 && Offset(w, 1) == 1 && Offset(w, 2) == 9 && Offset(w, 3) == 17 && Offset(w, 4) == 25
      && Offset(w, 5) == 29 && Offset(w, 6) == 33 && Offset(w, 7) == 34 && Offset(w, 8) == 42 && Offset(w, 9) == 46
      && Offset(w, 10) == 47
  {
    var w := OrderEntry.COMMAND_WIDTHS;
    hide Sum, Offset;
    OffsetOfEnd(w);
    OffsetNext(w, 0);
    OffsetNext(w, 1);
    OffsetNext(w, 2);
    OffsetNext(w, 3);
    OffsetNext(w, 4);
    OffsetNext(w, 5);
    OffsetNext(w, 6);
    OffsetNext(w, 7);
    OffsetNext(w, 8);
    OffsetNext(w, 9);
    OffsetNext(w, 10);
  }

  lemma CommandPayloadAt(c: ClientCommand)
    ensures |OrderEntry.CommandPayload(c)| == 55 && CommandAt(OrderEntry.CommandPayload(c), 0, c)
  {
    hide Pack, Field, Sum, Offset, Unsigned;
    CommandOffsets();
    UnsignedIs(c.price);
    var w, vs := OrderEntry.COMMAND_WIDTHS, OrderEntry.CommandValues(c);
    PackedField(w, vs, 0, 0);
    PackedField(w, vs, 1, 1);
    PackedField(w, vs, 2, 9);
    PackedField(w, vs, 3, 17);
    PackedField(w, vs, 4, 25);
    PackedField(w, vs, 5, 29);
    PackedField(w, vs, 6, 33);
    PackedField(w, vs, 7, 34);
    PackedField(w, vs, 8, 42);
    PackedField(w, vs, 9, 46);
    PackedField(w, vs, 10, 47);
  }

  /** The bytes of a command's frame: a header for 55 bytes of payload, then the fields. */
  ghost predicate CommandLaidOut(f: Bytes, c: ClientCommand) {
    HeaderAt(f, 0x45585349, 1, 55) && CommandAt(f, 16, c)
  }

  /** A frame is a command's exactly when its bytes are laid out so. */
  lemma CommandLayout(f: Bytes, c: ClientCommand)
    ensures f == OrderEntry.CommandFrame(c) <==> CommandLaidOut(f, c)
  {
    hide Field, Fnv, HeaderAt, CommandAt;
    var payload, frame := OrderEntry.CommandPayload(c), OrderEntry.CommandFrame(c);
    hide OrderEntry.CommandPayload;
    CommandPayloadAt(c);
    FrameHeader(0x45585349, 1, payload);
    assert frame == frame[..16] + payload;
    CommandAtLater(payload, frame[..16], 0, c);
    if CommandLaidOut(f, c) {
      SameCommand(f, frame, 16, c);
      HeaderSizes(f, 0x45585349, 1, 55);
      assert f[16..71] == f[16..] && frame[16..71] == frame[16..];
      SameFrame(f, frame, 0x45585349, 1, 55);
    }
  }

  lemma HeaderSizes(f: Bytes, magic: u32, version: u16, size: nat)
    requires HeaderAt(f, magic, version, size)
    ensures |f| == 16 + size
  {}

  /** Decoding reads each field from its bytes: a frame laid out for a command gives that
      command, or the reason it is invalid, and nothing else gives any. */
  lemma DecodesAsLaidOut(f: Bytes, c: ClientCommand)
    ensures CommandLaidOut(f, c) ==>
      var reason := OrderEntry.Validate(c);
      OrderEntry.DecodeCommand(f) == if reason == NO_REJECT then OrderEntry.Command(c) else OrderEntry.Refused(reason)
    ensures OrderEntry.DecodeCommand(f) == OrderEntry.Command(c) ==> CommandLaidOut(f, c)
  {
    hide OrderEntry.Validate, OrderEntry.CommandFrame, CommandLaidOut;
    CommandLayout(f, c);
    OrderEntry.DecodeOfEncode(c);
    if OrderEntry.DecodeCommand(f) == OrderEntry.Command(c) { OrderEntry.EncodeOfDecode(f); }
    hide OrderEntry.DecodeCommand;
  }

  /** Whatever is laid out for no command is malformed. */
  lemma NotLaidOut(f: Bytes)
    ensures (exists c :: CommandLaidOut(f, c)) || OrderEntry.DecodeCommand(f) == OrderEntry.Refused(MALFORMED)
  {
    hide CommandLaidOut, OrderEntry.Validate;
    var payload := Unframe(0x45585349, 1, f);
    if payload.Some? && |payload.value| == Sum(OrderEntry.COMMAND_WIDTHS) {
      var w := OrderEntry.COMMAND_WIDTHS;
      FrameOfUnframe(0x45585349, 1, f);
      PackOfParse(w, payload.value);
      OrderEntry.CommandRoundTrip(Parse(w, payload.value));
      var c := OrderEntry.CommandOf(Parse(w, payload.value));
      CommandLayout(f, c);
      assert CommandLaidOut(f, c);
    }
  }

  /** The codes that stand in those bytes. */
  lemma Codes()
    ensures (NEW, CANCEL, REPLACE) == (1, 2, 3) && (BUY, SELL) == (1, 2) && (GTC, IOC) == (1, 2)
    ensures (ADD_EVENT, CANCEL_EVENT, EXECUTE_EVENT, REPLACE_EVENT, REJECT_EVENT) == (1, 2, 3, 4, 5)
    ensures [NO_REJECT, MALFORMED, UNKNOWN_ORDER, DUPLICATE_ORDER, RISK_MAX_QTY, RISK_MAX_NOTIONAL, RISK_OPEN_ORDERS,
             RISK_RATE_LIMIT, INVALID_SYMBOL, INVALID_QTY, INVALID_PRICE] == [0, 1, 2, 3, 4, 5, 6, 7, 8, 9, 10]
  {}

  // ---- events ----

  /** The fields of an event, from byte `at` on. */
  ghost predicate EventAt(bs: Bytes, at: nat, ev: MdEvent) {
    && Field(bs, at, 8, ev.seqNo) && Field(bs, at + 8, 1, ev.typ) && Field(bs, at + 9, 4, ev.symbol)
    && Field(bs, at + 13, 8, ev.orderId) && Field(bs, at + 21, 8, ev.newOrderId) && Field(bs, at + 29, 4, ev.account)
    && Field(bs, at + 33, 1, ev.side) && Field(bs, at + 34, 8, ev.price % W64) && Field(bs, at + 42, 4, ev.qty)
    && Field(bs, at + 46, 1, ev.reason)
  }

  lemma EventAtLater(bs: Bytes, head: Bytes, at: nat, ev: MdEvent)
    requires EventAt(bs, at, ev)
    ensures EventAt(head + bs, |head| + at, ev)
  {
    hide Field;
    FieldLater(bs, head, at, 8, ev.seqNo);
    FieldLater(bs, head, at + 8, 1, ev.typ);
    FieldLater(bs, head, at + 9, 4, ev.symbol);
    FieldLater(bs, head, at + 13, 8, ev.orderId);
    FieldLater(bs, head, at + 21, 8, ev.newOrderId);
    FieldLater(bs, head, at + 29, 4, ev.account);
    FieldLater(bs, head, at + 33, 1, ev.side);
    FieldLater(bs, head, at + 34, 8, ev.price % W64);
    FieldLater(bs, head, at + 42, 4, ev.qty);
    FieldLater(bs, head, at + 46, 1, ev.reason);
  }

  /** The fields of an event determine its 47 bytes. */
  lemma SameEvent(f: Bytes, g: Bytes, at: nat, ev: MdEvent)
    requires EventAt(f, at, ev) && EventAt(g, at, ev)
    ensures at + 47 <= |f| && at + 47 <= |g| && f[at..at + 47] == g[at..at + 47]
  {
    hide Field;
    SameField(f, g, at, 8, ev.seqNo);
    SameField(f, g, at + 8, 1, ev.typ);
    SameField(f, g, at + 9, 4, ev.symbol);
    SameField(f, g, at + 13, 8, ev.orderId);
    SameField(f, g, at + 21, 8, ev.newOrderId);
    SameField(f, g, at + 29, 4, ev.account);
    SameField(f, g, at + 33, 1, ev.side);
    SameField(f, g, at + 34, 8, ev.price % W64);
    SameField(f, g, at + 42, 4, ev.qty);
    SameField(f, g, at + 46, 1, ev.reason);
    SameTogether(f, g, at, at + 8, at + 9);
    SameTogether(f, g, at, at + 9, at + 13);
    SameTogether(f, g, at, at + 13, at + 21);
    SameTogether(f, g, at, at + 21, at + 29);
    SameTogether(f, g, at, at + 29, at + 33);
    SameTogether(f, g, at, at + 33, at + 34);
    SameTogether(f, g, at, at + 34, at + 42);
    SameTogether(f, g, at, at + 42, at + 46);
    SameTogether(f, g, at, at + 46, at + 47);
  }

  lemma EventOffsets()
    ensures Sum(MarketData.EVENT_WIDTHS) == 47
    ensures var w := MarketData.EVENT_WIDTHS;
      && Offset(w, 0) == 0 && Offset(w, 1) == 8 && Offset(w, 2) == 9 && Offset(w, 3) == 13 && Offset(w, 4) == 21
      && Offset(w, 5) == 29 && Offset(w, 6) == 33 && Offset(w, 7) == 34 && Offset(w, 8) == 42 && Offset(w, 9) == 46
  {
    var w := MarketData.EVENT_WIDTHS;
    hide Sum, Offset;
    OffsetOfEnd(w);
    OffsetNext(w, 0);
    OffsetNext(w, 1);
    OffsetNext(w, 2);
    OffsetNext(w, 3);
    OffsetNext(w, 4);
    OffsetNext(w, 5);
    OffsetNext(w, 6);
    OffsetNext(w, 7);
    OffsetNext(w, 8);
    OffsetNext(w, 9);
  }

  lemma EventPayloadAt(ev: MdEvent)
    ensures |MarketData.EventPayload(ev)| == 47 && EventAt(MarketData.EventPayload(ev), 0, ev)
  {
    hide Pack, Field, Sum, Offset, Unsigned;
    EventOffsets();
    UnsignedIs(ev.price);
    var w, vs := MarketData.EVENT_WIDTHS, MarketData.EventValues(ev);
    PackedField(w, vs, 0, 0);
    PackedField(w, vs, 1, 8);
    PackedField(w, vs, 2, 9);
    PackedField(w, vs, 3, 13);
    PackedField(w, vs, 4, 21);
    PackedField(w, vs, 5, 29);
    PackedField(w, vs, 6, 33);
    PackedField(w, vs, 7, 34);
    PackedField(w, vs, 8, 42);
    PackedField(w, vs, 9, 46);
  }

  /** The bytes of an event's frame: a header for 47 bytes of payload, then the fields. */
  ghost predicate EventLaidOut(f: Bytes, ev: MdEvent) {
    HeaderAt(f, 0x4d445349, 1, 47) && EventAt(f, 16, ev)
  }

  /** A frame is an event's exactly when its bytes are laid out so. */
  lemma EventLayout(f: Bytes, ev: MdEvent)
    ensures f == MarketData.EventFrame(ev) <==> EventLaidOut(f, ev)
  {
    hide Field, Fnv, HeaderAt, EventAt;
    var payload, frame := MarketData.EventPayload(ev), MarketData.EventFrame(ev);
    hide MarketData.EventPayload;
    EventPayloadAt(ev);
    FrameHeader(0x4d445349, 1, payload);
    assert frame == frame[..16] + payload;
    EventAtLater(payload, frame[..16], 0, ev);
    if EventLaidOut(f, ev) {
      SameEvent(f, frame, 16, ev);
      HeaderSizes(f, 0x4d445349, 1, 47);
      assert f[16..63] == f[16..] && frame[16..63] == frame[16..];
      SameFrame(f, frame, 0x4d445349, 1, 47);
    }
  }

  /** A frame parses as an event exactly when it is laid out for it. */
  lemma ParsesAsLaidOut(f: Bytes, ev: MdEvent)
    ensures MarketData.ParseEvent(f) == Some(ev) <==> EventLaidOut(f, ev)
  {
    hide MarketData.EventFrame, EventLaidOut;
    EventLayout(f, ev);
    MarketData.DecodeOfEncode(ev, None);
    if MarketData.ParseEvent(f) == Some(ev) { MarketData.EncodeOfDecode(f); }
    hide MarketData.ParseEvent;
  }

  // ---- the journal ----

  /** A record, from byte `at` on: magic, payload length, payload hash, then the payload. */
  ghost predicate RecordAt(f: Bytes, at: nat, sc: SequencedCommand) {
    && at + 87 <= |f|
    && Field(f, at, 4, 0x52454331) && Field(f, at + 4, 4, 71) && Field(f, at + 8, 8, Fnv(f[at + 16..at + 87]))
    && Field(f, at + 16, 8, sc.seqNo) && Field(f, at + 24, 8, sc.recvTs) && CommandAt(f, at + 32, sc.cmd)
  }

  lemma SequencedOffsets()
    ensures Sum(Journal.SEQUENCED_WIDTHS) == 71
    ensures var w := Journal.SEQUENCED_WIDTHS;
      && Offset(w, 0) == 0 && Offset(w, 1) == 8 && Offset(w, 2) == 16 && Offset(w, 3) == 17 && Offset(w, 4) == 25
      && Offset(w, 5) == 33 && Offset(w, 6) == 41 && Offset(w, 7) == 45 && Offset(w, 8) == 49 && Offset(w, 9) == 50
      && Offset(w, 10) == 58 && Offset(w, 11) == 62 && Offset(w, 12) == 63
  {
    var w := Journal.SEQUENCED_WIDTHS;
    hide Sum, Offset;
    OffsetOfEnd(w);
    OffsetNext(w, 0);
    OffsetNext(w, 1);
    OffsetNext(w, 2);
    OffsetNext(w, 3);
    OffsetNext(w, 4);
    OffsetNext(w, 5);
    OffsetNext(w, 6);
    OffsetNext(w, 7);
    OffsetNext(w, 8);
    OffsetNext(w, 9);
    OffsetNext(w, 10);
    OffsetNext(w, 11);
    OffsetNext(w, 12);
  }

  lemma SequencedPayloadAt(sc: SequencedCommand)
    ensures var payload := Journal.EncodePayload(sc);
      && |payload| == 71 && Field(payload, 0, 8, sc.seqNo) && Field(payload, 8, 8, sc.recvTs)
      && CommandAt(payload, 16, sc.cmd)
  {
    hide Pack, Field, Sum, Offset, Unsigned;
    SequencedOffsets();
    UnsignedIs(sc.cmd.price);
    var w, vs := Journal.SEQUENCED_WIDTHS, Journal.SequencedValues(sc);
    PackedField(w, vs, 0, 0);
    PackedField(w, vs, 1, 8);
    PackedField(w, vs, 2, 16);
    PackedField(w, vs, 3, 17);
    PackedField(w, vs, 4, 25);
    PackedField(w, vs, 5, 33);
    PackedField(w, vs, 6, 41);
    PackedField(w, vs, 7, 45);
    PackedField(w, vs, 8, 49);
    PackedField(w, vs, 9, 50);
    PackedField(w, vs, 10, 58);
    PackedField(w, vs, 11, 62);
    PackedField(w, vs, 12, 63);
  }

  lemma RecordHeadAt(payload: Bytes)
    ensures var head := Pack(Journal.RECORD_WIDTHS, Journal.RecordValues(payload));
      && |head| == 16 && Field(head, 0, 4, 0x52454331) && Field(head, 4, 4, |payload|)
      && Field(head, 8, 8, Fnv(payload))
  {
    hide Pack, Field, Fnv;
    Journal.Sizes();
    OffsetOfEnd(Journal.RECORD_WIDTHS);
    var vs := Journal.RecordValues(payload);
    PackedField(Journal.RECORD_WIDTHS, vs, 0, 0);
    PackedField(Journal.RECORD_WIDTHS, vs, 1, 4);
    PackedField(Journal.RECORD_WIDTHS, vs, 2, 8);
  }

  /** What `append` writes is laid out as a record. */
  lemma RecordIsLaidOut(sc: SequencedCommand)
    ensures |Journal.Record(sc)| == 87 && RecordAt(Journal.Record(sc), 0, sc)
  {
    hide Field, CommandAt, Fnv, Pack;
    var payload := Journal.EncodePayload(sc);
    var head := Pack(Journal.RECORD_WIDTHS, Journal.RecordValues(payload));
    SequencedPayloadAt(sc);
    RecordHeadAt(payload);
    var r := Journal.Record(sc);
    assert r == head + payload && r[16..87] == payload;
    FieldBefore(head, payload, 0, 4, 0x52454331);
    FieldBefore(head, payload, 4, 4, 71);
    FieldBefore(head, payload, 8, 8, Fnv(payload));
    FieldLater(payload, head, 0, 8, sc.seqNo);
    FieldLater(payload, head, 8, 8, sc.recvTs);
    CommandAtLater(payload, head, 16, sc.cmd);
  }

  /** The fields of a record determine its 87 bytes. */
  lemma SameRecord(f: Bytes, g: Bytes, at: nat, sc: SequencedCommand)
    requires RecordAt(f, at, sc) && RecordAt(g, at, sc)
    ensures f[at..at + 87] == g[at..at + 87]
  {
    hide Field, CommandAt, Fnv;
    SameField(f, g, at, 4, 0x52454331);
    SameField(f, g, at + 4, 4, 71);
    SameField(f, g, at + 16, 8, sc.seqNo);
    SameField(f, g, at + 24, 8, sc.recvTs);
    SameCommand(f, g, at + 32, sc.cmd);
    SameTogether(f, g, at + 16, at + 24, at + 32);
    SameTogether(f, g, at + 16, at + 32, at + 87);
    SameField(f, g, at + 8, 8, Fnv(f[at + 16..at + 87]));
    SameTogether(f, g, at, at + 4, at + 8);
    SameTogether(f, g, at, at + 8, at + 16);
    SameTogether(f, g, at, at + 16, at + 87);
  }

  lemma RecordAtLater(bs: Bytes, head: Bytes, at: nat, sc: SequencedCommand)
    requires RecordAt(bs, at, sc)
    ensures RecordAt(head + bs, |head| + at, sc)
  {
    hide Field, CommandAt, Fnv;
    assert (head + bs)[|head| + at + 16..|head| + at + 87] == bs[at + 16..at + 87];
    FieldLater(bs, head, at, 4, 0x52454331);
    FieldLater(bs, head, at + 4, 4, 71);
    FieldLater(bs, head, at + 8, 8, Fnv(bs[at + 16..at + 87]));
    FieldLater(bs, head, at + 16, 8, sc.seqNo);
    FieldLater(bs, head, at + 24, 8, sc.recvTs);
    CommandAtLater(bs, head, at + 32, sc.cmd);
  }

  lemma RecordAtBefore(bs: Bytes, tail: Bytes, at: nat, sc: SequencedCommand)
    requires RecordAt(bs, at, sc)
    ensures RecordAt(bs + tail, at, sc)
  {
    hide Field, Fnv;
    assert (bs + tail)[at + 16..at + 87] == bs[at + 16..at + 87];
    FieldBefore(bs, tail, at, 4, 0x52454331);
    FieldBefore(bs, tail, at + 4, 4, 71);
    FieldBefore(bs, tail, at + 8, 8, Fnv(bs[at + 16..at + 87]));
    FieldBefore(bs, tail, at + 16, 8, sc.seqNo);
    FieldBefore(bs, tail, at + 24, 8, sc.recvTs);
    CommandAtBefore(bs, tail, at + 32, sc.cmd);
  }

  lemma CommandAtBefore(bs: Bytes, tail: Bytes, at: nat, c: ClientCommand)
    requires CommandAt(bs, at, c)
    ensures CommandAt(bs + tail, at, c)
  {
    hide Field;
    FieldBefore(bs, tail, at, 1, c.typ);
    FieldBefore(bs, tail, at + 1, 8, c.clientOrderId);
    FieldBefore(bs, tail, at + 9, 8, c.orderId);
    FieldBefore(bs, tail, at + 17, 8, c.cancelOrderId);
    FieldBefore(bs, tail, at + 25, 4, c.account);
    FieldBefore(bs, tail, at + 29, 4, c.symbol);
    FieldBefore(bs, tail, at + 33, 1, c.side);
    FieldBefore(bs, tail, at + 34, 8, c.price % W64);
    FieldBefore(bs, tail, at + 42, 4, c.qty);
    FieldBefore(bs, tail, at + 46, 1, c.tif);
    FieldBefore(bs, tail, at + 47, 8, c.clientTs);
  }

  /** Records one after another, from byte `at` on, and nothing after them. */
  ghost predicate RecordsAt(f: Bytes, at: nat, scs: seq<SequencedCommand>) {
    |f| == at + 87 * |scs| && forall k {:trigger scs[k]} :: 0 <= k < |scs| ==> RecordAt(f, at + 87 * k, scs[k])
  }

  lemma {:induction false} RecordsAreLaidOut(scs: seq<SequencedCommand>)
    ensures RecordsAt(Journal.Records(scs), 0, scs)
    decreases |scs|
  {
    hide RecordAt, Journal.Record;
    if scs != [] {
      var n := |scs| - 1;
      RecordsAreLaidOut(scs[..n]);
      assert scs[..n] + [scs[n]] == scs;
      Journal.RecordsGrow(scs[..n], scs[n]);
      var head, last := Journal.Records(scs[..n]), Journal.Record(scs[n]);
      RecordIsLaidOut(scs[n]);
      RecordAtLater(last, head, 0, scs[n]);
      forall k {:trigger scs[k]} | 0 <= k < n ensures RecordAt(head + last, 87 * k, scs[k]) {
        assert scs[..n][k] == scs[k];
        RecordAtBefore(head, last, 87 * k, scs[k]);
      }
    }
  }

  lemma SameRecords(f: Bytes, g: Bytes, at: nat, scs: seq<SequencedCommand>)
    requires RecordsAt(f, at, scs) && RecordsAt(g, at, scs)
    ensures f[at..] == g[at..]
  {
    hide RecordAt;
    forall j | at <= j < |f| ensures f[j] == g[j] {
      var k := (j - at) / 87;
      assert 0 <= k < |scs|;
      var sc := scs[k];
      SameRecord(f, g, at + 87 * k, sc);
      assert f[j] == f[at + 87 * k..at + 87 * k + 87][(j - at) % 87];
      assert g[j] == g[at + 87 * k..at + 87 * k + 87][(j - at) % 87];
    }
  }

  /** The bytes of a journal: its magic and version, then the records. */
  ghost predicate JournalLaidOut(f: Bytes, scs: seq<SequencedCommand>) {
    |f| >= 6 && Field(f, 0, 4, 0x4a4e4c31) && Field(f, 4, 2, 1) && RecordsAt(f, 6, scs)
  }

  lemma FileHeadAt()
    ensures var head := Journal.FileHeader(); |head| == 6 && Field(head, 0, 4, 0x4a4e4c31) && Field(head, 4, 2, 1)
  {
    hide Pack, Field;
    Journal.Sizes();
    OffsetOfEnd(Journal.FILE_WIDTHS);
    var vs := [Journal.JOURNAL_MAGIC, OrderEntry.PROTOCOL_VERSION];
    PackedField(Journal.FILE_WIDTHS, vs, 0, 0);
    PackedField(Journal.FILE_WIDTHS, vs, 1, 4);
  }

  /** A file is the journal of some commands exactly when its bytes are laid out so. */
  lemma JournalLayout(f: Bytes, scs: seq<SequencedCommand>)
    ensures f == Journal.JournalOf(scs) <==> JournalLaidOut(f, scs)
  {
    hide Field, RecordAt, Journal.Records, Journal.FileHeader;
    var head, records, all := Journal.FileHeader(), Journal.Records(scs), Journal.JournalOf(scs);
    FileHeadAt();
    RecordsAreLaidOut(scs);
    FieldBefore(head, records, 0, 4, 0x4a4e4c31);
    FieldBefore(head, records, 4, 2, 1);
    forall k {:trigger scs[k]} | 0 <= k < |scs| ensures RecordAt(all, 6 + 87 * k, scs[k]) {
      RecordAtLater(records, head, 87 * k, scs[k]);
    }
    if JournalLaidOut(f, scs) {
      SameField(f, all, 0, 4, 0x4a4e4c31);
      SameField(f, all, 4, 2, 1);
      SameRecords(f, all, 6, scs);
      assert f == f[0..4] + f[4..6] + f[6..] && all == all[0..4] + all[4..6] + all[6..];
    }
  }
}
