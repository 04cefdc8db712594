/** A journal with one byte damaged: which commands are read, and how reading stops. */
module JournalDamage {
  import opened Types
  import opened Codec
  import opened Checksum
  import opened Journal

  lemma ValDiffers(bs: Bytes, bs': Bytes)
    requires |bs| == |bs'| && bs != bs'
    ensures Val(bs) != Val(bs')
  {
    LEOfVal(bs);
    LEOfVal(bs');
  }

  /** Whole records are read one by one, whatever follows them. */
  lemma {:induction false} ReadsOn(scs: seq<SequencedCommand>, rest: Bytes)
    ensures ReadRecords(Records(scs) + rest)
      == ReadOut(scs + ReadRecords(rest).commands, ReadRecords(rest).failure)
  {
    hide Record, NextRecord;
    if scs == [] {
      assert Records(scs) + rest == rest;
    } else {
      var more := Records(scs[1..]) + rest;
      assert Records(scs) + rest == Record(scs[0]) + more;
      NextOfRecord(scs[0], more);
      ReadsOn(scs[1..], rest);
      assert [scs[0]] + (scs[1..] + ReadRecords(rest).commands) == scs + ReadRecords(rest).commands;
    }
  }

  /** How reading fails at a record of which byte `j` was changed to `b`, with `left` bytes from
      its payload on: by where the byte stands, and for the length by what it now says. */
  ghost predicate FailsFor(record: Bytes, j: nat, b: u8, left: nat, failure: Failure)
    requires |record| == RECORD_SIZE && j < RECORD_SIZE
  {
    if j < 4 then failure == BadMagic
    else if j < 8 then
      if left < Val(record[j := b][4..8]) then failure == ShortPayload
      else failure == ChecksumMismatch || failure == BadPayload
    else failure == ChecksumMismatch
  }

  lemma FailsAt(sc: SequencedCommand, j: nat, b: u8, rest: Bytes) returns (failure: Failure)
    requires j < RECORD_SIZE && Record(sc)[j] != b
    ensures ReadRecords(Record(sc)[j := b] + rest) == ReadOut([], Some(failure))
    ensures FailsFor(Record(sc), j, b, PAYLOAD_SIZE + |rest|, failure)
  {
    hide Val, Fnv, DecodePayload;
    RecordLayout(sc);
    var r, bad := Record(sc), Record(sc)[j := b];
    hide Record;
    var bs := bad + rest;
    assert bs[0..4] == bad[0..4] && bs[4..8] == bad[4..8] && bs[8..16] == bad[8..16];
    if j < 4 {
      assert bad[0..4][j] != r[0..4][j];
      ValDiffers(bad[0..4], r[0..4]);
    } else if j < 8 {
      assert bad[0..4] == r[0..4];
      assert bad[4..8][j - 4] != r[4..8][j - 4];
      ValDiffers(bad[4..8], r[4..8]);
      if Val(bs[4..8]) <= |bs| - 16 { OtherSizeFails(bs); }
    } else if j < 16 {
      assert bad[0..4] == r[0..4] && bad[4..8] == r[4..8] && bs[16..16 + PAYLOAD_SIZE] == r[16..];
      assert bad[8..16][j - 8] != r[8..16][j - 8];
      ValDiffers(bad[8..16], r[8..16]);
    } else {
      assert bad[0..4] == r[0..4] && bad[4..8] == r[4..8] && bad[8..16] == r[8..16];
      assert bs[16..16 + PAYLOAD_SIZE] == r[16..][j - 16 := b];
      HashDiffers(r[16..], j - 16, b);
    }
    assert NextRecord(bs).Failed?;
    failure := NextRecord(bs).failure;
  }

  lemma HashDiffers(payload: Bytes, i: nat, b: u8)
    requires i < |payload| && payload[i] != b
    ensures Fnv(payload[i := b]) != Fnv(payload)
  {
    FnvDetectsByte(FNV_BASIS, payload, i, b);
  }

  /** A payload of another size is no command. */
  lemma OtherSizeFails(bs: Bytes)
    requires |bs| >= 16 && Val(bs[4..8]) != PAYLOAD_SIZE && Val(bs[4..8]) <= |bs| - 16
    ensures DecodePayload(bs[16..16 + Val(bs[4..8])]) == None
  {
    Sizes();
    hide Val;
  }

  /** One byte of record `k` changed, anywhere in it: exactly the commands before it are read,
      and reading stops there with an error. A changed payload or stored hash is a checksum
      mismatch, a changed magic a bad magic. */
  lemma DamagedRecord(scs: seq<SequencedCommand>, k: nat, j: nat, b: u8) returns (failure: Failure)
    requires k < |scs| && j < RECORD_SIZE
    requires var at := 6 + RECORD_SIZE * k + j; at < |JournalOf(scs)| && JournalOf(scs)[at] != b
    ensures ReadJournal(JournalOf(scs)[6 + RECORD_SIZE * k + j := b]) == ReadOut(scs[..k], Some(failure))
    ensures Record(scs[k])[j] != b
    ensures FailsFor(Record(scs[k]), j, b, PAYLOAD_SIZE + RECORD_SIZE * (|scs| - k - 1), failure)
  {
    hide Record, ReadRecords, OpenFile, FailsFor, FileHeader;
    var before, r, rest := Records(scs[..k]), Record(scs[k]), Records(scs[k + 1..]);
    SplitAt(scs, k);
    RecordsSize(scs[..k]);
    RecordsSize(scs[k + 1..]);
    HeaderLayout([]);
    var at := 6 + RECORD_SIZE * k + j;
    assert JournalOf(scs) == FileHeader() + before + r + rest;
    var bad := JournalOf(scs)[at := b];
    assert bad == FileHeader() + (before + (r[j := b] + rest));
    failure := FailsAt(scs[k], j, b, rest);
    ReadsOn(scs[..k], r[j := b] + rest);
    HeaderLayout(before + (r[j := b] + rest));
    assert bad[6..] == before + (r[j := b] + rest);
    assert scs[..k] + [] == scs[..k];
  }

  lemma {:induction false} SplitAt(scs: seq<SequencedCommand>, k: nat)
    requires k < |scs|
    ensures Records(scs) == Records(scs[..k]) + Record(scs[k]) + Records(scs[k + 1..])
  {
    hide Record;
    if k > 0 {
      SplitAt(scs[1..], k - 1);
      assert scs[1..][..k - 1] == scs[..k][1..] && scs[1..][k..] == scs[k + 1..];
    }
  }

  /** One byte of the file's header changed, and no command is read. */
  lemma DamagedHeader(scs: seq<SequencedCommand>, j: nat, b: u8)
    requires j < 6 && j < |JournalOf(scs)| && JournalOf(scs)[j] != b
    ensures ReadJournal(JournalOf(scs)[j := b]) == ReadOut([], Some(BadHeader))
  {
    hide Val, Records, ReadRecords, FileHeader;
    HeaderFields();
    var h, bad := FileHeader(), JournalOf(scs)[j := b];
    if j < 4 {
      assert bad[0..4][j] != h[0..4][j];
      ValDiffers(bad[0..4], h[0..4]);
    } else {
      assert bad[4..6][j - 4] != h[4..6][j - 4];
      ValDiffers(bad[4..6], h[4..6]);
    }
  }

  // ---- any file ----

  /** A command is only read from the bytes that `append` would write for it. */
  lemma GotIsRecord(bs: Bytes)
    requires NextRecord(bs).Got?
    ensures bs == Record(NextRecord(bs).sc) + NextRecord(bs).rest
  {
    hide Val, Fnv, Parse, Pack, LE;
    var sc, rest := NextRecord(bs).sc, NextRecord(bs).rest;
    var payload := bs[16..16 + Val(bs[4..8])];
    PayloadOfDecode(payload);
    RecordLayout(sc);
    var r := Record(sc);
    hide Record, NextRecord, DecodePayload, EncodePayload;
    assert |payload| == PAYLOAD_SIZE && payload == r[16..];
    if bs[0..4] != r[0..4] { ValDiffers(bs[0..4], r[0..4]); }
    if bs[4..8] != r[4..8] { ValDiffers(bs[4..8], r[4..8]); }
    if bs[8..16] != r[8..16] { ValDiffers(bs[8..16], r[8..16]); }
    assert bs == bs[0..4] + bs[4..8] + bs[8..16] + payload + rest;
    assert r == r[0..4] + r[4..8] + r[8..16] + r[16..];
  }

  lemma {:induction false} ReadAreRecords(bs: Bytes)
    ensures Records(ReadRecords(bs).commands) <= bs
    decreases |bs|
  {
    hide NextRecord, Record;
    if NextRecord(bs).Got? {
      GotIsRecord(bs);
      var sc, rest := NextRecord(bs).sc, NextRecord(bs).rest;
      ReadAreRecords(rest);
      var more := ReadRecords(rest).commands;
      assert ([sc] + more)[1..] == more;
      assert Record(sc) + Records(more) <= Record(sc) + rest;
    }
  }

  lemma HeaderIsOpen(file: Bytes)
    requires OpenFile(file).None?
    ensures file == FileHeader() + file[6..]
  {
    hide Val, FileHeader;
    HeaderFields();
    var h := FileHeader();
    if file[0..4] != h[0..4] { ValDiffers(file[0..4], h[0..4]); }
    if file[4..6] != h[4..6] { ValDiffers(file[4..6], h[4..6]); }
    assert file == file[0..4] + file[4..6] + file[6..] && h == h[0..4] + h[4..6];
  }

  /** Whatever the file, the commands read from it are those whose journal it starts with. */
  lemma ReadIsWritten(file: Bytes)
    requires ReadJournal(file).failure != Some(BadHeader) || ReadJournal(file).commands != []
    ensures JournalOf(ReadJournal(file).commands) <= file
  {
    hide Records, ReadRecords, FileHeader;
    if OpenFile(file).None? {
      HeaderIsOpen(file);
      ReadAreRecords(file[6..]);
    }
  }
}
