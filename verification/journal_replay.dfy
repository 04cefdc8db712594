/** Replaying a journal file into a fresh exchange. */
module JournalReplay {
  import opened Types
  import opened LevelTotals
  import opened Arena
  import opened Books
  import opened BookManagers
  import opened Risk
  import opened ExchangeSpec
  import opened Exchanges
  import opened Journal
  import opened JournalDamage
  import opened Replay

  datatype ReplayResult = ReplayResult(bookChecksum: bv64, mdChecksum: bv64, records: nat, error: Option<Failure>)

  /** What a replay reports: the hashes of the state that the file's records lead to, or how
      reading failed; `None` when a record makes the exchange throw. */
  function Report(limits: Limits, maxSymbol: u32, cfg: LadderConfig, file: Bytes): Option<ReplayResult>
    requires Constructible(maxSymbol, cfg)
  {
    EmptyBooksAgree(maxSymbol, cfg);
    var read := ReadJournal(file);
    if OpenFile(file).Some? then Some(ReplayResult(0, 0, 0, read.failure))
    else
      var sys := ReplayOf(limits, StartSystem(maxSymbol, cfg), read.commands);
      if sys.None? then None
      else if read.failure.Some? then Some(ReplayResult(0, 0, |read.commands|, read.failure))
      else
        ReplayKeepsBooks(limits, StartSystem(maxSymbol, cfg), read.commands);
        Some(ReplayResult(BooksHash(sys.value.books.books, maxSymbol), sys.value.mdHash, |read.commands|, None))
  }

  lemma {:induction false} ReplayKeepsBooks(limits: Limits, start: System, scs: seq<SequencedCommand>)
    requires ValidBooks(start.books)
    ensures ReplayOf(limits, start, scs).Some? ==>
      |ReplayOf(limits, start, scs).value.books.books| == |start.books.books|
  {
    if scs != [] {
      var before := scs[..|scs| - 1];
      ReplayKeepsBooks(limits, start, before);
      var prev := ReplayOf(limits, start, before);
      if prev.Some? { StepShape(limits, prev.value, scs[|scs| - 1]); }
    }
  }

  /** The journal of any run of a new exchange, replayed into another, reports the live book
      checksum and as many records as inputs were decodable; the live market-data checksum too,
      when all were. */
  lemma ReportMatchesLive(limits: Limits, maxSymbol: u32, cfg: LadderConfig, inputs: seq<Input>)
    requires Constructible(maxSymbol, cfg)
    requires NothingThrown(limits, StartSystem(maxSymbol, cfg), inputs)
    ensures var live := RunOf(limits, StartSystem(maxSymbol, cfg), inputs);
      var report := Report(limits, maxSymbol, cfg, JournalOf(live.journal));
      && |live.sys.books.books| == maxSymbol + 1 && report.Some? && report.value.error == None
      && report.value.records == |inputs| - Undecodable(inputs)
      && report.value.bookChecksum == BooksHash(live.sys.books.books, maxSymbol)
      && (Undecodable(inputs) == 0 ==> report.value.mdChecksum == live.sys.mdHash)
  {
    hide ReadRecords, ReplayOf, RunOf, NothingThrown, Undecodable, ValidBooks, BooksHash, StartSystem, Records,
         FileHeader;
    var start := StartSystem(maxSymbol, cfg);
    EmptyBooksAgree(maxSymbol, cfg);
    var live := RunOf(limits, start, inputs);
    BooksOfStart(maxSymbol, cfg);
    HeaderLayout(Records(live.journal));
    FileReplays(limits, start, inputs);
  }

  /** The report on a journal that is readable up to record `k`: of a clean end the checksums of
      the state then reached, of a failed read none, but how many records were read and why it
      stopped. */
  lemma ReportWhenRead(limits: Limits, maxSymbol: u32, cfg: LadderConfig, inputs: seq<Input>, file: Bytes, k: nat,
                       failure: Option<Failure>)
    returns (n: nat)
    requires Constructible(maxSymbol, cfg) && NothingThrown(limits, StartSystem(maxSymbol, cfg), inputs)
    requires k <= |RunOf(limits, StartSystem(maxSymbol, cfg), inputs).journal|
    requires OpenFile(file) == None
    requires ReadJournal(file) == ReadOut(RunOf(limits, StartSystem(maxSymbol, cfg), inputs).journal[..k], failure)
    ensures n <= |inputs|
    ensures var live := RunOf(limits, StartSystem(maxSymbol, cfg), inputs[..n]);
      var report := Report(limits, maxSymbol, cfg, file);
      && |live.journal| == k && |live.sys.books.books| == maxSymbol + 1 && report.Some?
      && (failure.Some? ==> report == Some(ReplayResult(0, 0, k, failure)))
      && (failure.None? ==>
            && report.value.error == None && report.value.records == k
            && report.value.bookChecksum == BooksHash(live.sys.books.books, maxSymbol))
  {
    hide ReadRecords, ReplayOf, RunOf, NothingThrown, Undecodable, ValidBooks, BooksHash, StartSystem, OpenFile;
    var start := StartSystem(maxSymbol, cfg);
    EmptyBooksAgree(maxSymbol, cfg);
    BooksOfStart(maxSymbol, cfg);
    n := WroteFirst(limits, start, inputs, k);
    ReplayEqualsLive(limits, start, inputs[..n]);
  }

  /** A journal cut anywhere past its header, replayed into a new exchange. */
  lemma ReportOfCrash(limits: Limits, maxSymbol: u32, cfg: LadderConfig, inputs: seq<Input>, cut: nat) returns (n: nat)
    requires Constructible(maxSymbol, cfg) && NothingThrown(limits, StartSystem(maxSymbol, cfg), inputs)
    requires 6 <= cut <= |JournalOf(RunOf(limits, StartSystem(maxSymbol, cfg), inputs).journal)|
    ensures n <= |inputs|
    ensures var live := RunOf(limits, StartSystem(maxSymbol, cfg), inputs[..n]);
      var report := Report(limits, maxSymbol, cfg,
                           JournalOf(RunOf(limits, StartSystem(maxSymbol, cfg), inputs).journal)[..cut]);
      && |live.sys.books.books| == maxSymbol + 1 && report.Some?
      && report.value.records == |live.journal| && report.value.error == EndsAt(cut)
      && (report.value.error.Some? ==> report.value.bookChecksum == 0 && report.value.mdChecksum == 0)
      && (report.value.error.None? ==> report.value.bookChecksum == BooksHash(live.sys.books.books, maxSymbol))
  {
    hide ReadRecords, ReplayOf, RunOf, NothingThrown, Undecodable, ValidBooks, BooksHash, StartSystem, Records,
         FileHeader, Report, StopsAt, OpenFile;
    var journal := RunOf(limits, StartSystem(maxSymbol, cfg), inputs).journal;
    CrashPrefix(journal, cut);
    HeaderLayout([]);
    var rest := Records(journal)[..cut - 6];
    assert JournalOf(journal)[..cut] == FileHeader() + rest;
    HeaderLayout(rest);
    n := ReportWhenRead(limits, maxSymbol, cfg, inputs, JournalOf(journal)[..cut],
                        Min((cut - 6) / RECORD_SIZE, |journal|), StopsAt((cut - 6) % RECORD_SIZE));
  }

  /** A journal with one byte of record `k` changed, replayed into a new exchange: `k` records, the
      failure, and no checksum. */
  lemma ReportOfDamage(limits: Limits, maxSymbol: u32, cfg: LadderConfig, inputs: seq<Input>, k: nat, j: nat, b: u8)
    returns (failure: Failure)
    requires Constructible(maxSymbol, cfg) && NothingThrown(limits, StartSystem(maxSymbol, cfg), inputs)
    requires j < RECORD_SIZE && k < |RunOf(limits, StartSystem(maxSymbol, cfg), inputs).journal|
    requires var file := JournalOf(RunOf(limits, StartSystem(maxSymbol, cfg), inputs).journal);
      6 + RECORD_SIZE * k + j < |file| && file[6 + RECORD_SIZE * k + j] != b
    ensures var file := JournalOf(RunOf(limits, StartSystem(maxSymbol, cfg), inputs).journal);
      Report(limits, maxSymbol, cfg, file[6 + RECORD_SIZE * k + j := b]) == Some(ReplayResult(0, 0, k, Some(failure)))
    ensures j < 4 ==> failure == BadMagic
    ensures 8 <= j ==> failure == ChecksumMismatch
  {
    hide ReadRecords, ReplayOf, RunOf, NothingThrown, Undecodable, ValidBooks, BooksHash, StartSystem, Records, Record,
         FileHeader, Report, OpenFile;
    var journal := RunOf(limits, StartSystem(maxSymbol, cfg), inputs).journal;
    failure := DamagedRecord(journal, k, j, b);
    var file := JournalOf(journal);
    HeaderLayout([]);
    var bad := file[6 + RECORD_SIZE * k + j := b];
    assert bad == FileHeader() + bad[6..];
    HeaderLayout(bad[6..]);
    var n := ReportWhenRead(limits, maxSymbol, cfg, inputs, bad, k, Some(failure));
  }

  lemma BooksOfStart(maxSymbol: u32, cfg: LadderConfig)
    requires Constructible(maxSymbol, cfg)
    ensures |StartSystem(maxSymbol, cfg).books.books| == maxSymbol + 1
  {}

  /** Every book holds fewer orders than 32-bit indices allow. */
  ghost predicate CountsFit(m: Books) {
    forall b <- m.books :: |b.orders| < NULL
  }

  ghost predicate CountsFitAlways(limits: Limits, start: System, scs: seq<SequencedCommand>)
    requires ValidBooks(start.books)
  {
    && (ReplayOf(limits, start, scs).Some? ==> CountsFit(ReplayOf(limits, start, scs).value.books))
    && (scs != [] ==> CountsFitAlways(limits, start, scs[..|scs| - 1]))
  }

  /** The quantities at every level of every book fit 32 bits. */
  ghost predicate LevelsFitIn(m: Books) {
    forall b <- m.books :: LevelsFit(b)
  }

  ghost predicate LevelsFitAlways(limits: Limits, start: System, scs: seq<SequencedCommand>)
    requires ValidBooks(start.books)
  {
    && (ReplayOf(limits, start, scs).Some? ==> LevelsFitIn(ReplayOf(limits, start, scs).value.books))
    && (scs != [] ==> LevelsFitAlways(limits, start, scs[..|scs| - 1]))
  }

  lemma {:induction false} FitsBefore(limits: Limits, start: System, scs: seq<SequencedCommand>, n: nat)
    requires ValidBooks(start.books) && CountsFitAlways(limits, start, scs) && n <= |scs|
    ensures CountsFitAlways(limits, start, scs[..n])
    ensures ReplayOf(limits, start, scs).Some? ==> ReplayOf(limits, start, scs[..n]).Some?
    decreases |scs|
  {
    hide CountsFit;
    if n == |scs| {
      assert scs[..n] == scs;
    } else {
      FitsBefore(limits, start, scs[..|scs| - 1], n);
      assert scs[..|scs| - 1][..n] == scs[..n];
    }
  }

  /** Arenas that follow small books stay small, and exact totals that follow levels that fit
      stay exact. */
  lemma StaysRoomy(before: Market, after: Market)
    requires Follows(before, after) && CountsFit(after.model) && forall n <- before.sizes :: n < NULL
    ensures forall n <- after.sizes :: n < NULL
    ensures before.exact && LevelsFitIn(after.model) ==> after.exact
  {
    forall n <- after.sizes ensures n < NULL {
      var i :| 0 <= i < |after.sizes| && after.sizes[i] == n;
      assert before.sizes[i] in before.sizes && after.model.books[i] in after.model.books;
    }
  }

  /** What one call of the reader leaves to be read. */
  ghost function RestOf(rd: JournalReader): ReadOut
    reads rd
    requires rd.Valid()
  {
    if rd.error.Some? then ReadOut([], rd.error) else ReadRecords(rd.file[rd.pos..])
  }

  /** The loop of a replay after `done` records, with `next` read. */
  ghost predicate Reached(limits: Limits, start: System, done: seq<SequencedCommand>, sys: System, market: Market)
    requires ValidBooks(start.books)
  {
    && ReplayOf(limits, start, done) == Some(sys) && (forall n <- market.sizes :: n < NULL)
    && (LevelsFitAlways(limits, start, done) ==> market.exact)
  }

  method ReadNext(rd: JournalReader) returns (next: Option<SequencedCommand>)
    requires rd.Valid()
    modifies rd
    ensures rd.Valid() && rd.pos <= |rd.file|
    ensures next.Some? ==> rd.pos > old(rd.pos)
    ensures next.None? ==> rd.pos >= old(rd.pos)
    ensures var rest := old(RestOf(rd));
      if next.Some? then rest == ReadOut([next.value] + RestOf(rd).commands, RestOf(rd).failure)
      else rest == ReadOut([], rd.error)
  {
    hide NextRecord;
    next := rd.NextCommand();
  }

  /** One record of the journal into the exchange. */
  method ApplyRecord(ex: Exchange, sc: SequencedCommand, ghost limits: Limits, ghost start: System,
                     ghost done: seq<SequencedCommand>)
    returns (applied: Option<Result>)
    requires ex.Valid() && ex.journal == null && ex.risk.limits == limits && ValidBooks(start.books)
    requires Reached(limits, start, done, ex.State(), ex.books.Now()) && CountsFitAlways(limits, start, done + [sc])
    modifies ex, ex.books, ex.books.books, ex.risk
    ensures ex.Valid() && ex.books.books == old(ex.books.books)
    ensures applied.None? ==> ReplayOf(limits, start, done + [sc]) == None
    ensures applied.Some? ==> Reached(limits, start, done + [sc], ex.State(), ex.books.Now())
  {
    hide ApplySequenced, ValidBooks, BookManager.Now, BookManager.Valid, Follows, ReplayOf, CountsFitAlways,
         LevelsFitAlways;
    ghost var before, sys := ex.books.Now(), ex.State();
    applied := ex.Apply(sc, false);
    Advance(limits, start, done, sys, before, sc, Step(ex.State(), applied), ex.books.Now());
  }

  /** The loop of `replay_journal`: how many records were applied, or `None` after a throw. */
  method ApplyRecords(ex: Exchange, rd: JournalReader, ghost limits: Limits, ghost start: System)
    returns (records: Option<nat>)
    requires ex.Valid() && ex.journal == null && ex.risk.limits == limits && ValidBooks(start.books)
    requires Reached(limits, start, [], ex.State(), ex.books.Now())
    requires rd.Valid() && rd.error.None? && CountsFitAlways(limits, start, RestOf(rd).commands)
    modifies rd, ex, ex.books, ex.books.books, ex.risk
    ensures ex.Valid() && rd.Valid()
    ensures records.None? <==> ReplayOf(limits, start, old(RestOf(rd)).commands) == None
    ensures records.Some? ==>
      var read := old(RestOf(rd));
      && records.value == |read.commands| && rd.error == read.failure
      && Reached(limits, start, read.commands, ex.State(), ex.books.Now())
  {
    hide ReadRecords, ValidBooks, BookManager.Now, BookManager.Valid, ReplayOf, CountsFitAlways, LevelsFitAlways,
         Reached;
    ghost var read, done: seq<SequencedCommand>, mine := RestOf(rd), [], ex.books.books;
    var count := 0;
    var next := ReadNext(rd);
    while next.Some?
      invariant rd.Valid() && ex.Valid() && ex.books.books == mine
      invariant Reached(limits, start, done, ex.State(), ex.books.Now()) && count == |done|
      invariant if next.Some? then read == ReadOut(done + [next.value] + RestOf(rd).commands, RestOf(rd).failure)
                else read == ReadOut(done, rd.error)
      decreases |rd.file| - rd.pos + if next.Some? then 1 else 0
    {
      assert read.commands[..|done| + 1] == done + [next.value];
      FitsBefore(limits, start, read.commands, |done| + 1);
      var applied := ApplyRecord(ex, next.value, limits, start, done);
      done := done + [next.value];
      if applied.None? { return None; }
      count := count + 1;
      next := ReadNext(rd);
    }
    ReachedIs(limits, start, done, ex.State(), ex.books.Now());
    records := Some(count);
  }

  /** `replay_journal`, while no book holds more orders than 32-bit indices allow. The book
      checksum is the one of the books when the quantities at each level fit 32 bits. */
  method ReplayJournal(file: Bytes, maxSymbol: u32, cfg: LadderConfig, limits: Limits) returns (r: Option<ReplayResult>)
    requires Constructible(maxSymbol, cfg)
    requires CountsFitAlways(limits, StartSystem(maxSymbol, cfg), ReadJournal(file).commands)
    ensures var report := Report(limits, maxSymbol, cfg, file);
      if r.None? then report == None
      else report.Some? && report.value == r.value.(bookChecksum := report.value.bookChecksum)
    ensures LevelsFitAlways(limits, StartSystem(maxSymbol, cfg), ReadJournal(file).commands) ==>
      r == Report(limits, maxSymbol, cfg, file)
  {
    hide ReadRecords, ValidBooks, BookManager.Now, BookManager.Valid, BooksHash, ReplayOf, CountsFitAlways,
         LevelsFitAlways, StartSystem, EmptyBooks, Reached;
    var ex := new Exchange(maxSymbol, cfg, limits, false);
    var rd := new JournalReader(file);
    if rd.error.Some? { return Some(ReplayResult(0, 0, 0, rd.error)); }
    ghost var start, read := StartSystem(maxSymbol, cfg), RestOf(rd);
    StartsReached(limits, maxSymbol, cfg);
    var records := ApplyRecords(ex, rd, limits, start);
    if records.None? { return None; }
    ReachedIs(limits, start, read.commands, ex.State(), ex.books.Now());
    if rd.error.Some? { return Some(ReplayResult(0, 0, records.value, rd.error)); }
    var bookChecksum := ex.books.ManagerChecksum();
    r := Some(ReplayResult(bookChecksum, ex.mdChecksum, records.value, None));
  }

  lemma ReachedIs(limits: Limits, start: System, done: seq<SequencedCommand>, sys: System, market: Market)
    requires ValidBooks(start.books) && Reached(limits, start, done, sys, market)
    ensures ReplayOf(limits, start, done) == Some(sys) && (LevelsFitAlways(limits, start, done) ==> market.exact)
  {}

  lemma StartsReached(limits: Limits, maxSymbol: u32, cfg: LadderConfig)
    requires Constructible(maxSymbol, cfg)
    ensures Reached(limits, StartSystem(maxSymbol, cfg), [], StartSystem(maxSymbol, cfg),
                    Market(EmptyBooks(maxSymbol, cfg), Zeros(maxSymbol + 1), true))
  {
    EmptyBooksAgree(maxSymbol, cfg);
  }

  lemma Advance(limits: Limits, start: System, done: seq<SequencedCommand>, sys: System, before: Market,
                sc: SequencedCommand,
                step: Step, after: Market)
    requires ValidBooks(start.books) && ValidBooks(sys.books) && Reached(limits, start, done, sys, before)
    requires step == ApplySequenced(limits, sys, sc) && Follows(before, after) && after.model == step.sys.books
    requires CountsFitAlways(limits, start, done + [sc])
    ensures step.result.None? ==> ReplayOf(limits, start, done + [sc]) == None
    ensures step.result.Some? ==> Reached(limits, start, done + [sc], step.sys, after)
  {
    hide ApplySequenced, CountsFit, LevelsFitIn, Follows, ReplayOf;
    ReplayAppend(limits, start, done, sc);
    assert (done + [sc])[..|done|] == done;
    if step.result.Some? { StaysRoomy(before, after); }
  }
}
