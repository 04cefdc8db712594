/** Client commands on the wire. */
module OrderEntry {
  import opened Types
  import opened Codec
  import opened Checksum
  import opened Frames

  const PROTOCOL_MAGIC: u32 := 0x45585349
  const PROTOCOL_VERSION: u16 := 1

  const COMMAND_WIDTHS: seq<nat> := [1, 8, 8, 8, 4, 4, 1, 8, 4, 1, 8]

  function Signed(v: u64): i64 {
    if v < 0x8000_0000_0000_0000 then v else v - W64
  }

  function CommandValues(c: ClientCommand): seq<nat> {
    [c.typ, c.clientOrderId, c.orderId, c.cancelOrderId, c.account, c.symbol, c.side, Unsigned(c.price), c.qty, c.tif,
     c.clientTs]
  }

  function CommandOf(vs: seq<nat>): ClientCommand
    requires Fits(COMMAND_WIDTHS, vs)
  {
    Powers();
    ClientCommand(vs[0], vs[1], vs[2], vs[3], vs[4], vs[5], vs[6], Signed(vs[7]), vs[8], vs[9], vs[10])
  }

  function CommandPayload(c: ClientCommand): Bytes {
    Pack(COMMAND_WIDTHS, CommandValues(c))
  }

  function CommandFrame(c: ClientCommand): Bytes {
    Frame(PROTOCOL_MAGIC, PROTOCOL_VERSION, CommandPayload(c))
  }

  function Validate(c: ClientCommand): u8 {
    if c.account == 0 then MALFORMED
    else if c.symbol == 0 then INVALID_SYMBOL
    else if c.typ != NEW && c.typ != CANCEL && c.typ != REPLACE then MALFORMED
    else if c.side != BUY && c.side != SELL then MALFORMED
    else if c.tif != GTC && c.tif != IOC then MALFORMED
    else if c.typ == NEW then
      if c.orderId == 0 then MALFORMED else ValidateTerms(c)
    else if c.typ == CANCEL then
      if c.cancelOrderId == 0 then UNKNOWN_ORDER else NO_REJECT
    else
      if c.cancelOrderId == 0 || c.orderId == 0 then UNKNOWN_ORDER else ValidateTerms(c)
  }

  function ValidateTerms(c: ClientCommand): u8 {
    if c.qty == 0 then INVALID_QTY else if c.price <= 0 then INVALID_PRICE else NO_REJECT
  }

  datatype Decoded = Command(cmd: ClientCommand) | Refused(reason: u8)

  function DecodeCommand(frame: Bytes): Decoded {
    var payload := Unframe(PROTOCOL_MAGIC, PROTOCOL_VERSION, frame);
    if payload.None? || |payload.value| != Sum(COMMAND_WIDTHS) then Refused(MALFORMED)
    else
      PackOfParse(COMMAND_WIDTHS, payload.value);
      var c := CommandOf(Parse(COMMAND_WIDTHS, payload.value));
      if Validate(c) != NO_REJECT then Refused(Validate(c)) else Command(c)
  }

  /** What a valid command is. */
  lemma ValidExactly(c: ClientCommand)
    ensures Validate(c) == NO_REJECT <==>
      && c.account != 0 && c.symbol != 0
      && c.typ in {NEW, CANCEL, REPLACE} && c.side in {BUY, SELL} && c.tif in {GTC, IOC}
      && (c.typ != CANCEL ==> c.orderId != 0 && c.qty > 0 && c.price > 0)
      && (c.typ != NEW ==> c.cancelOrderId != 0)
  {}

  // ---- inverse both ways ----

  lemma ValuesRoundTrip(c: ClientCommand)
    ensures Fits(COMMAND_WIDTHS, CommandValues(c)) && CommandOf(CommandValues(c)) == c
  {
    Powers();
  }

  lemma CommandRoundTrip(vs: seq<nat>)
    requires Fits(COMMAND_WIDTHS, vs)
    ensures CommandValues(CommandOf(vs)) == vs
  {
    Powers();
  }

  lemma CommandSize()
    ensures Sum(COMMAND_WIDTHS) == 55
  {
    OffsetOfEnd(COMMAND_WIDTHS);
    OffsetNext(COMMAND_WIDTHS, 0);
    OffsetNext(COMMAND_WIDTHS, 1);
    OffsetNext(COMMAND_WIDTHS, 2);
    OffsetNext(COMMAND_WIDTHS, 3);
    OffsetNext(COMMAND_WIDTHS, 4);
    OffsetNext(COMMAND_WIDTHS, 5);
    OffsetNext(COMMAND_WIDTHS, 6);
    OffsetNext(COMMAND_WIDTHS, 7);
    OffsetNext(COMMAND_WIDTHS, 8);
    OffsetNext(COMMAND_WIDTHS, 9);
    OffsetNext(COMMAND_WIDTHS, 10);
  }

  /** Decoding an encoded command gives it back, or the reason it is invalid. */
  lemma DecodeOfEncode(c: ClientCommand)
    ensures DecodeCommand(CommandFrame(c)) == if Validate(c) == NO_REJECT then Command(c) else Refused(Validate(c))
  {
    CommandSize();
    UnframeOfFrame(PROTOCOL_MAGIC, PROTOCOL_VERSION, CommandPayload(c));
    ValuesRoundTrip(c);
    ParseOfPack(COMMAND_WIDTHS, CommandValues(c));
  }

  /** A frame that decodes is the encoding of what it decodes to, which is valid. */
  lemma EncodeOfDecode(frame: Bytes)
    requires DecodeCommand(frame).Command?
    ensures frame == CommandFrame(DecodeCommand(frame).cmd) && Validate(DecodeCommand(frame).cmd) == NO_REJECT
  {
    var payload := Unframe(PROTOCOL_MAGIC, PROTOCOL_VERSION, frame).value;
    FrameOfUnframe(PROTOCOL_MAGIC, PROTOCOL_VERSION, frame);
    PackOfParse(COMMAND_WIDTHS, payload);
    CommandRoundTrip(Parse(COMMAND_WIDTHS, payload));
  }

  /** Any one byte of a command frame changed, and it is refused as malformed. */
  lemma OneByteRefused(c: ClientCommand, i: nat, b: u8)
    requires i < |CommandFrame(c)| && CommandFrame(c)[i] != b
    ensures DecodeCommand(CommandFrame(c)[i := b]) == Refused(MALFORMED)
  {
    CommandSize();
    OneByteUnframes(PROTOCOL_MAGIC, PROTOCOL_VERSION, CommandPayload(c), i, b);
  }

  // ---- the encoders and the decoder ----

  /** `encode_client_command`. */
  method EncodeClientCommand(c: ClientCommand) returns (frame: Bytes)
    ensures frame == CommandFrame(c)
  {
    hide Pack, Sum, LE, Unsigned;
    var pw := new Writer(COMMAND_WIDTHS, CommandValues(c));
    pw.Pod(c.typ, 1);
    pw.Pod(c.clientOrderId, 8);
    pw.Pod(c.orderId, 8);
    pw.Pod(c.cancelOrderId, 8);
    pw.Pod(c.account, 4);
    pw.Pod(c.symbol, 4);
    pw.Pod(c.side, 1);
    pw.Pod(Unsigned(c.price), 8);
    pw.Pod(c.qty, 4);
    pw.Pod(c.tif, 1);
    pw.Pod(c.clientTs, 8);
    assert COMMAND_WIDTHS[..11] == COMMAND_WIDTHS && CommandValues(c)[..11] == CommandValues(c);
    CommandSize();
    frame := WriteFrame(PROTOCOL_MAGIC, PROTOCOL_VERSION, pw.out);
  }

  /** The fields of a command, read one after the other. */
  method ReadCommand(payload: Bytes) returns (r: Option<ClientCommand>)
    ensures |payload| != Sum(COMMAND_WIDTHS) ==> r == None
    ensures |payload| == Sum(COMMAND_WIDTHS) ==>
      Fits(COMMAND_WIDTHS, Parse(COMMAND_WIDTHS, payload)) && r == Some(CommandOf(Parse(COMMAND_WIDTHS, payload)))
  {
    hide NumberAt, Val, Sum, Offset, Parse, Signed;
    var pr := new Reader(payload, COMMAND_WIDTHS);
    OffsetOfEnd(COMMAND_WIDTHS);
    var typ := pr.Pod(1);
    var clientOrderId := pr.Pod(8);
    var orderId := pr.Pod(8);
    var cancelOrderId := pr.Pod(8);
    var account := pr.Pod(4);
    var symbol := pr.Pod(4);
    var side := pr.Pod(1);
    var price := pr.Pod(8);
    var qty := pr.Pod(4);
    var tif := pr.Pod(1);
    var clientTs := pr.Pod(8);
    if typ.None? || clientOrderId.None? || orderId.None? || cancelOrderId.None? || account.None? || symbol.None?
       || side.None? || price.None? || qty.None? || tif.None? || clientTs.None? || pr.Remaining() != 0
    {
      return None;
    }
    PackOfParse(COMMAND_WIDTHS, payload);
    Powers();
    r := Some(ClientCommand(typ.value, clientOrderId.value, orderId.value, cancelOrderId.value, account.value,
                            symbol.value,
                            side.value, Signed(price.value), qty.value, tif.value, clientTs.value));
  }

  /** `decode_client_command`. */
  method DecodeClientCommand(frame: Bytes) returns (d: Decoded)
    ensures d == DecodeCommand(frame)
  {
    hide Sum, Parse, Unframe, CommandOf, Validate;
    var payload := ReadFrame(PROTOCOL_MAGIC, PROTOCOL_VERSION, frame);
    if payload.None? { return Refused(MALFORMED); }
    var c := ReadCommand(payload.value);
    if c.None? { return Refused(MALFORMED); }
    var reason := Validate(c.value);
    if reason != NO_REJECT { return Refused(reason); }
    return Command(c.value);
  }

  /** `encode_client_command_frame`: the same bytes, in a fixed array. */
  method EncodeClientCommandFrame(c: ClientCommand) returns (a: array<u8>)
    ensures fresh(a) && a[..] == CommandFrame(c)
  {
    hide Pack, Sum, LE, Unsigned, Frame, Written;
    CommandSize();
    ghost var vs := CommandValues(c);
    a := new u8[71](_ => 0);
    NothingWritten(a, 16, COMMAND_WIDTHS, vs);
    var pos := PutField(a, 16, 16, c.typ, 1, COMMAND_WIDTHS, vs, 0);
    pos := PutField(a, 16, pos, c.clientOrderId, 8, COMMAND_WIDTHS, vs, 1);
    pos := PutField(a, 16, pos, c.orderId, 8, COMMAND_WIDTHS, vs, 2);
    pos := PutField(a, 16, pos, c.cancelOrderId, 8, COMMAND_WIDTHS, vs, 3);
    pos := PutField(a, 16, pos, c.account, 4, COMMAND_WIDTHS, vs, 4);
    pos := PutField(a, 16, pos, c.symbol, 4, COMMAND_WIDTHS, vs, 5);
    pos := PutField(a, 16, pos, c.side, 1, COMMAND_WIDTHS, vs, 6);
    pos := PutField(a, 16, pos, Unsigned(c.price), 8, COMMAND_WIDTHS, vs, 7);
    pos := PutField(a, 16, pos, c.qty, 4, COMMAND_WIDTHS, vs, 8);
    pos := PutField(a, 16, pos, c.tif, 1, COMMAND_WIDTHS, vs, 9);
    pos := PutField(a, 16, pos, c.clientTs, 8, COMMAND_WIDTHS, vs, 10);
    AllWritten(a, 16, COMMAND_WIDTHS, vs);
    PutHeader(a, PROTOCOL_MAGIC, PROTOCOL_VERSION);
  }
}
