/** The command journal: a header, then one framed record per sequenced command. The file is
    a sequence of bytes; a short read is running off its end. */
module Journal {
  import opened Types
  import opened Codec
  import opened Checksum
  import OrderEntry

  const JOURNAL_MAGIC: u32 := 0x4a4e4c31
  const RECORD_MAGIC: u32 := 0x52454331

  const SEQUENCED_WIDTHS: seq<nat> := [8, 8, 1, 8, 8, 8, 4, 4, 1, 8, 4, 1, 8]
  const RECORD_WIDTHS: seq<nat> := [4, 4, 8]
  const FILE_WIDTHS: seq<nat> := [4, 2]

  const PAYLOAD_SIZE: nat := 71
  const RECORD_SIZE: nat := 87

  function SequencedValues(sc: SequencedCommand): seq<nat> {
    var c := sc.cmd;
    [sc.seqNo, sc.recvTs, c.typ, c.clientOrderId, c.orderId, c.cancelOrderId, c.account, c.symbol, c.side,
     Unsigned(c.price), c.qty, c.tif, c.clientTs]
  }

  function SequencedOf(vs: seq<nat>): SequencedCommand
    requires Fits(SEQUENCED_WIDTHS, vs)
  {
    Powers();
    SequencedCommand(vs[0], vs[1],
      ClientCommand(vs[2], vs[3], vs[4], vs[5], vs[6], vs[7], vs[8], OrderEntry.Signed(vs[9]), vs[10], vs[11], vs[12]))
  }

  function EncodePayload(sc: SequencedCommand): Bytes {
    Pack(SEQUENCED_WIDTHS, SequencedValues(sc))
  }

  function DecodePayload(payload: Bytes): Option<SequencedCommand> {
    if |payload| != Sum(SEQUENCED_WIDTHS) then None
    else
      PackOfParse(SEQUENCED_WIDTHS, payload);
      Some(SequencedOf(Parse(SEQUENCED_WIDTHS, payload)))
  }

  function RecordValues(payload: Bytes): seq<nat> {
    [RECORD_MAGIC, |payload|, Fnv(payload)]
  }

  /** What `append` writes. */
  function Record(sc: SequencedCommand): (r: Bytes)
    ensures |r| == RECORD_SIZE
  {
    Sizes();
    Pack(RECORD_WIDTHS, RecordValues(EncodePayload(sc))) + EncodePayload(sc)
  }

  function Records(scs: seq<SequencedCommand>): Bytes {
    if scs == [] then [] else Record(scs[0]) + Records(scs[1..])
  }

  function FileHeader(): Bytes {
    Pack(FILE_WIDTHS, [JOURNAL_MAGIC, OrderEntry.PROTOCOL_VERSION])
  }

  /** The whole file after these commands were appended. */
  function JournalOf(scs: seq<SequencedCommand>): Bytes {
    FileHeader() + Records(scs)
  }

  datatype Failure = BadHeader | ShortRecord | BadMagic | ShortPayload | ChecksumMismatch | BadPayload

  datatype Next = Got(sc: SequencedCommand, rest: Bytes) | End | Failed(failure: Failure)

  /** `JournalReader::next` on what is left of the file. */
  function NextRecord(bs: Bytes): (r: Next)
    ensures r.Got? ==> |r.rest| < |bs|
  {
    if |bs| < 4 then End
    else if |bs| < 16 then Failed(ShortRecord)
    else if Val(bs[0..4]) != RECORD_MAGIC then Failed(BadMagic)
    else
      var len := Val(bs[4..8]);
      if |bs| - 16 < len then Failed(ShortPayload)
      else
        var payload := bs[16..16 + len];
        if Fnv(payload) != Val(bs[8..16]) then Failed(ChecksumMismatch)
        else
          var sc := DecodePayload(payload);
          if sc.None? then Failed(BadPayload) else Got(sc.value, bs[16 + len..])
  }

  datatype ReadOut = ReadOut(commands: seq<SequencedCommand>, failure: Option<Failure>)

  /** Calling `next` until it stops. */
  function ReadRecords(bs: Bytes): ReadOut
    decreases |bs|
  {
    match NextRecord(bs)
    case End => ReadOut([], None)
    case Failed(f) => ReadOut([], Some(f))
    case Got(sc, rest) =>
      var more := ReadRecords(rest);
      ReadOut([sc] + more.commands, more.failure)
  }

  function OpenFile(file: Bytes): Option<Failure> {
    if |file| < 6 || Val(file[0..4]) != JOURNAL_MAGIC || Val(file[4..6]) != OrderEntry.PROTOCOL_VERSION
    then Some(BadHeader) else None
  }

  function ReadJournal(file: Bytes): ReadOut {
    if OpenFile(file).Some? then ReadOut([], OpenFile(file)) else ReadRecords(file[6..])
  }

  // ---- sizes and round trips ----

  lemma Sizes()
    ensures Sum(SEQUENCED_WIDTHS) == 71 && Sum(RECORD_WIDTHS) == 16 && Sum(FILE_WIDTHS) == 6
    ensures Offset(RECORD_WIDTHS, 1) == 4 && Offset(RECORD_WIDTHS, 2) == 8 && Offset(FILE_WIDTHS, 1) == 4
  {
    OffsetOfEnd(FILE_WIDTHS);
    OffsetNext(FILE_WIDTHS, 0);
    OffsetNext(FILE_WIDTHS, 1);
    OffsetOfEnd(RECORD_WIDTHS);
    OffsetNext(RECORD_WIDTHS, 0);
    OffsetNext(RECORD_WIDTHS, 1);
    OffsetNext(RECORD_WIDTHS, 2);
    SequencedSize();
  }

  lemma SequencedSize()
    ensures Sum(SEQUENCED_WIDTHS) == 71
  {
    OffsetOfEnd(SEQUENCED_WIDTHS);
    OffsetNext(SEQUENCED_WIDTHS, 0);
    OffsetNext(SEQUENCED_WIDTHS, 1);
    OffsetNext(SEQUENCED_WIDTHS, 2);
    OffsetNext(SEQUENCED_WIDTHS, 3);
    OffsetNext(SEQUENCED_WIDTHS, 4);
    OffsetNext(SEQUENCED_WIDTHS, 5);
    OffsetNext(SEQUENCED_WIDTHS, 6);
    OffsetNext(SEQUENCED_WIDTHS, 7);
    OffsetNext(SEQUENCED_WIDTHS, 8);
    OffsetNext(SEQUENCED_WIDTHS, 9);
    OffsetNext(SEQUENCED_WIDTHS, 10);
    OffsetNext(SEQUENCED_WIDTHS, 11);
    OffsetNext(SEQUENCED_WIDTHS, 12);
  }

  lemma PayloadRoundTrip(sc: SequencedCommand)
    ensures DecodePayload(EncodePayload(sc)) == Some(sc)
  {
    SequencedFits(sc);
    ParseOfPack(SEQUENCED_WIDTHS, SequencedValues(sc));
  }

  lemma SequencedFits(sc: SequencedCommand)
    ensures Fits(SEQUENCED_WIDTHS, SequencedValues(sc)) && SequencedOf(SequencedValues(sc)) == sc
  {
    Powers();
  }

  /** A payload that decodes is the encoding of its command. */
  lemma PayloadOfDecode(payload: Bytes)
    requires DecodePayload(payload).Some?
    ensures payload == EncodePayload(DecodePayload(payload).value)
  {
    PackOfParse(SEQUENCED_WIDTHS, payload);
    SequencedBack(Parse(SEQUENCED_WIDTHS, payload));
  }

  lemma SequencedBack(vs: seq<nat>)
    requires Fits(SEQUENCED_WIDTHS, vs)
    ensures SequencedValues(SequencedOf(vs)) == vs
  {
    Powers();
  }

  /** The header fields of a record stand where the reader looks for them. */
  lemma RecordLayout(sc: SequencedCommand)
    ensures |EncodePayload(sc)| == PAYLOAD_SIZE
    ensures Val(Record(sc)[0..4]) == RECORD_MAGIC && Val(Record(sc)[4..8]) == PAYLOAD_SIZE
    ensures Val(Record(sc)[8..16]) == Fnv(EncodePayload(sc)) && Record(sc)[16..] == EncodePayload(sc)
  {
    Sizes();
    Powers();
    var payload := EncodePayload(sc);
    var head := Pack(RECORD_WIDTHS, RecordValues(payload));
    assert Fits(RECORD_WIDTHS, RecordValues(payload));
    ParseOfPack(RECORD_WIDTHS, RecordValues(payload));
    ParseAt(RECORD_WIDTHS, head, 0);
    ParseAt(RECORD_WIDTHS, head, 1);
    ParseAt(RECORD_WIDTHS, head, 2);
    assert Record(sc)[0..4] == head[0..4] && Record(sc)[4..8] == head[4..8] && Record(sc)[8..16] == head[8..16];
  }

  /** Reading what `append` wrote gives the command back and leaves what follows. */
  lemma NextOfRecord(sc: SequencedCommand, rest: Bytes)
    ensures NextRecord(Record(sc) + rest) == Got(sc, rest)
  {
    RecordLayout(sc);
    PayloadRoundTrip(sc);
    var r := Record(sc);
    var bs := r + rest;
    assert bs[0..4] == r[0..4] && bs[4..8] == r[4..8] && bs[8..16] == r[8..16];
    assert bs[16..16 + PAYLOAD_SIZE] == r[16..] && bs[16 + PAYLOAD_SIZE..] == rest;
  }

  /** Part of a record: a clean end inside its first four bytes, else a short read. */
  lemma NextOfPart(sc: SequencedCommand, n: nat)
    requires n < RECORD_SIZE
    ensures NextRecord(Record(sc)[..n]) ==
      if n < 4 then End else if n < 16 then Failed(ShortRecord) else Failed(ShortPayload)
  {
    RecordLayout(sc);
    var r := Record(sc);
    if n >= 16 {
      assert r[..n][0..4] == r[0..4] && r[..n][4..8] == r[4..8];
    }
  }

  /** How reading stops `n` bytes into a record. */
  function StopsAt(n: nat): Option<Failure> {
    if n < 4 then None else if n < 16 then Some(ShortRecord) else Some(ShortPayload)
  }

  lemma {:induction false} RecordsSize(scs: seq<SequencedCommand>)
    ensures |Records(scs)| == RECORD_SIZE * |scs|
  {
    if scs != [] { RecordsSize(scs[1..]); }
  }

  lemma {:induction false} ReadPrefix(scs: seq<SequencedCommand>, n: nat)
    requires n <= |Records(scs)|
    ensures n / RECORD_SIZE <= |scs|
    ensures ReadRecords(Records(scs)[..n]) == ReadOut(scs[..n / RECORD_SIZE], StopsAt(n % RECORD_SIZE))
    decreases |scs|
  {
    hide Record, NextRecord, StopsAt;
    RecordsSize(scs);
    if n < RECORD_SIZE {
      ReadPart(scs, n);
    } else {
      var m, more := n - RECORD_SIZE, Records(scs[1..]);
      assert Records(scs)[..n] == Record(scs[0]) + more[..m];
      NextOfRecord(scs[0], more[..m]);
      ReadPrefix(scs[1..], m);
      assert n / RECORD_SIZE == m / RECORD_SIZE + 1 && n % RECORD_SIZE == m % RECORD_SIZE;
      assert [scs[0]] + scs[1..][..m / RECORD_SIZE] == scs[..n / RECORD_SIZE];
    }
  }

  lemma ReadPart(scs: seq<SequencedCommand>, n: nat)
    requires n <= |Records(scs)| && n < RECORD_SIZE
    ensures ReadRecords(Records(scs)[..n]) == ReadOut([], StopsAt(n))
  {
    if scs == [] {
      assert Records(scs)[..n] == [];
    } else {
      assert Records(scs)[..n] == Record(scs[0])[..n];
      NextOfPart(scs[0], n);
    }
  }

  lemma HeaderLayout(rest: Bytes)
    ensures |FileHeader()| == 6 && OpenFile(FileHeader() + rest) == None
  {
    hide Val, Parse, Pack, Sum, Offset;
    HeaderFields();
    var h := FileHeader();
    assert (h + rest)[0..4] == h[0..4] && (h + rest)[4..6] == h[4..6];
  }

  lemma HeaderFields()
    ensures |FileHeader()| == 6 && Val(FileHeader()[0..4]) == JOURNAL_MAGIC
    ensures Val(FileHeader()[4..6]) == OrderEntry.PROTOCOL_VERSION
  {
    hide Val, Parse, Pack, Sum, Offset;
    Sizes();
    Powers();
    var values := [JOURNAL_MAGIC, OrderEntry.PROTOCOL_VERSION];
    assert Fits(FILE_WIDTHS, values);
    ParseOfPack(FILE_WIDTHS, values);
    OffsetOfEnd(FILE_WIDTHS);
    ParseAt(FILE_WIDTHS, FileHeader(), 0);
    ParseAt(FILE_WIDTHS, FileHeader(), 1);
  }

  /** Reading any byte prefix of a journal yields exactly the commands whose records lie
      wholly inside it, in order, then stops cleanly if the cut is at a record or inside its
      first four bytes, and with a short read otherwise. */
  lemma CrashPrefix(scs: seq<SequencedCommand>, n: nat)
    requires n <= |JournalOf(scs)|
    ensures ReadJournal(JournalOf(scs)[..n]) ==
      if n < 6 then ReadOut([], Some(BadHeader))
      else ReadOut(scs[..Min((n - 6) / RECORD_SIZE, |scs|)], StopsAt((n - 6) % RECORD_SIZE))
  {
    hide Records, ReadRecords, FileHeader, StopsAt;
    HeaderLayout([]);
    if n >= 6 {
      hide OpenFile;
      var rest := Records(scs)[..n - 6];
      assert JournalOf(scs)[..n] == FileHeader() + rest;
      HeaderLayout(rest);
      assert (FileHeader() + rest)[6..] == rest;
      ReadPrefix(scs, n - 6);
    }
  }

  /** The whole journal reads back as the commands appended, with no failure. */
  lemma ReadBack(scs: seq<SequencedCommand>)
    ensures ReadJournal(JournalOf(scs)) == ReadOut(scs, None)
  {
    hide Records, ReadRecords, OpenFile, FileHeader;
    HeaderLayout(Records(scs));
    var all := Records(scs);
    assert JournalOf(scs)[6..] == all && all[..|all|] == all;
    RecordsSize(scs);
    WholeRecords(|scs|);
    ReadPrefix(scs, |all|);
    assert scs[..|scs|] == scs;
  }

  lemma WholeRecords(n: nat)
    ensures RECORD_SIZE * n / RECORD_SIZE == n && StopsAt(RECORD_SIZE * n % RECORD_SIZE) == None
  {}

  lemma {:induction false} RecordsGrow(scs: seq<SequencedCommand>, sc: SequencedCommand)
    ensures Records(scs + [sc]) == Records(scs) + Record(sc)
  {
    if scs == [] {
      assert [sc][1..] == [];
    } else {
      assert (scs + [sc])[1..] == scs[1..] + [sc];
      RecordsGrow(scs[1..], sc);
    }
  }

  // ---- the writer and the reader ----

  method EncodeSequencedPayload(sc: SequencedCommand) returns (payload: Bytes)
    ensures payload == EncodePayload(sc)
  {
    hide Pack, Sum, LE, Unsigned;
    var c := sc.cmd;
    var w := new Writer(SEQUENCED_WIDTHS, SequencedValues(sc));
    w.Pod(sc.seqNo, 8);
    w.Pod(sc.recvTs, 8);
    w.Pod(c.typ, 1);
    w.Pod(c.clientOrderId, 8);
    w.Pod(c.orderId, 8);
    w.Pod(c.cancelOrderId, 8);
    w.Pod(c.account, 4);
    w.Pod(c.symbol, 4);
    w.Pod(c.side, 1);
    w.Pod(Unsigned(c.price), 8);
    w.Pod(c.qty, 4);
    w.Pod(c.tif, 1);
    w.Pod(c.clientTs, 8);
    assert SEQUENCED_WIDTHS[..13] == SEQUENCED_WIDTHS && SequencedValues(sc)[..13] == SequencedValues(sc);
    payload := w.out;
  }

  method DecodeSequencedPayload(payload: Bytes) returns (r: Option<SequencedCommand>)
    ensures r == DecodePayload(payload)
  {
    hide NumberAt, Val, Sum, Offset, Parse, OrderEntry.Signed;
    var rd := new Reader(payload, SEQUENCED_WIDTHS);
    OffsetOfEnd(SEQUENCED_WIDTHS);
    var seqNo := rd.Pod(8);
    var recvTs := rd.Pod(8);
    var typ := rd.Pod(1);
    var clientOrderId := rd.Pod(8);
    var orderId := rd.Pod(8);
    var cancelOrderId := rd.Pod(8);
    var account := rd.Pod(4);
    var symbol := rd.Pod(4);
    var side := rd.Pod(1);
    var price := rd.Pod(8);
    var qty := rd.Pod(4);
    var tif := rd.Pod(1);
    var clientTs := rd.Pod(8);
    if seqNo.None? || recvTs.None? || typ.None? || clientOrderId.None? || orderId.None? || cancelOrderId.None?
       || account.None? || symbol.None? || side.None? || price.None? || qty.None? || tif.None? || clientTs.None?
       || rd.Remaining() != 0
    {
      return None;
    }
    PackOfParse(SEQUENCED_WIDTHS, payload);
    Powers();
    r := Some(SequencedCommand(seqNo.value, recvTs.value,
      ClientCommand(typ.value, clientOrderId.value, orderId.value, cancelOrderId.value, account.value, symbol.value,
                    side.value, OrderEntry.Signed(price.value), qty.value, tif.value, clientTs.value)));
  }

  class JournalWriter {
    var file: Bytes
    ghost var commands: seq<SequencedCommand>

    ghost predicate Valid()
      reads this
    {
      file == JournalOf(commands)
    }

    constructor ()
      ensures Valid() && commands == []
    {
      file, commands := [], [];
      new;
      var w := new Writer(FILE_WIDTHS, [JOURNAL_MAGIC, OrderEntry.PROTOCOL_VERSION]);
      w.Pod(JOURNAL_MAGIC, 4);
      w.Pod(OrderEntry.PROTOCOL_VERSION, 2);
      assert FILE_WIDTHS[..2] == FILE_WIDTHS
        && [JOURNAL_MAGIC, OrderEntry.PROTOCOL_VERSION][..2] == [JOURNAL_MAGIC, OrderEntry.PROTOCOL_VERSION];
      file := file + w.out;
    }

    method Append(sc: SequencedCommand)
      requires Valid()
      modifies this
      ensures Valid() && commands == old(commands) + [sc]
    {
      hide Pack, LE, Sum, Fnv, Records, EncodePayload;
      var payload := EncodeSequencedPayload(sc);
      RecordLayout(sc);
      RecordsGrow(commands, sc);
      var hash := Fnv1a64(payload);
      var w := new Writer(RECORD_WIDTHS, RecordValues(payload));
      w.Pod(RECORD_MAGIC, 4);
      w.Pod(|payload|, 4);
      w.Pod(hash, 8);
      assert RECORD_WIDTHS[..3] == RECORD_WIDTHS && RecordValues(payload)[..3] == RecordValues(payload);
      file := file + (w.out + payload);
      commands := commands + [sc];
    }
  }

  class JournalReader {
    const file: Bytes
    var pos: nat
    var error: Option<Failure>

    ghost predicate Valid()
      reads this
    {
      pos <= |file|
    }

    constructor (file: Bytes)
      ensures Valid() && this.file == file && error == OpenFile(file)
      ensures error.None? ==> pos == 6
    {
      this.file := file;
      if |file| < 6 || Val(file[0..4]) != JOURNAL_MAGIC || Val(file[4..6]) != OrderEntry.PROTOCOL_VERSION {
        pos, error := 0, Some(BadHeader);
      } else {
        pos, error := 6, None;
      }
    }

    method NextCommand() returns (r: Option<SequencedCommand>)
      requires Valid()
      modifies this
      ensures Valid()
      ensures pos >= old(pos)
      ensures old(error).Some? ==> r == None && error == old(error) && pos == old(pos)
      ensures old(error).None? ==>
        match old(NextRecord(file[pos..]))
        case End => r == None && error == None
        case Failed(f) => r == None && error == Some(f)
        case Got(sc, rest) => r == Some(sc) && error == None && file[pos..] == rest && pos > old(pos)
    {
      if error.Some? { return None; }
      ghost var bs := file[pos..];
      if pos + 4 > |file| { return None; }
      assert forall a: nat, b: nat :: a <= b <= |bs| ==> bs[a..b] == file[pos..][a..b];
      var magic := Val(file[pos..pos + 4]);
      assert bs[0..4] == file[pos..pos + 4];
      if pos + 16 > |file| {
        error := Some(ShortRecord);
        return None;
      }
      var len := Val(file[pos + 4..pos + 8]);
      var checksum := Val(file[pos + 8..pos + 16]);
      assert bs[4..8] == file[pos + 4..pos + 8] && bs[8..16] == file[pos + 8..pos + 16];
      if magic != RECORD_MAGIC {
        error := Some(BadMagic);
        return None;
      }
      if pos + 16 + len > |file| {
        error := Some(ShortPayload);
        return None;
      }
      var payload := file[pos + 16..pos + 16 + len];
      assert bs[16..16 + len] == payload && bs[16 + len..] == file[pos + 16 + len..];
      pos := pos + 16 + len;
      var hash := Fnv1a64(payload);
      if hash != checksum {
        error := Some(ChecksumMismatch);
        return None;
      }
      r := DecodeSequencedPayload(payload);
      if r.None? { error := Some(BadPayload); }
    }
  }
}
