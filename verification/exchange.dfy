/** The exchange: sequencer, journal, risk gate, books, market data. Refines `ExchangeSpec`. */
module Exchanges {
  import opened Types
  import opened Arena
  import opened Checksum
  import opened Books
  import opened Commands
  import opened BookManagers
  import opened Risk
  import opened RiskAgreement
  import opened Journal
  import opened OrderEntry
  import opened ExchangeSpec

  class Exchange {
    const books: BookManager
    const risk: RiskEngine
    const journal: JournalWriter?
    var nextSeq: u64
    var nextMdSeq: u64
    var mdChecksum: bv64

    ghost predicate Valid()
      reads this, books, books.books, journal
    {
      books.Valid() && (journal != null ==> journal.Valid())
    }

    ghost function State(): (sys: System)
      requires Valid()
      reads this, books, books.books, risk, journal
      ensures ValidBooks(sys.books)
    {
      System(books.Now().model, risk.accounts, nextSeq, nextMdSeq, mdChecksum)
    }

    ghost function Written(): seq<SequencedCommand>
      reads this, journal
    {
      if journal == null then [] else journal.commands
    }

    constructor (maxSymbol: u32, cfg: LadderConfig, limits: Limits, journaling: bool)
      requires Constructible(maxSymbol, cfg)
      ensures Valid() && State() == StartSystem(maxSymbol, cfg) && risk.limits == limits
      ensures books.Now() == Market(EmptyBooks(maxSymbol, cfg), Zeros(maxSymbol + 1), true)
      ensures books.maxSymbol == maxSymbol && (journal != null) == journaling && Written() == []
      ensures fresh(books) && fresh(risk) && (forall i :: 0 <= i < |books.books| ==> fresh(books.books[i]))
      ensures journal != null ==> fresh(journal)
    {
      hide EmptyBooks, ValidBooks, JournalOf, BookManager.Now, BookManager.BookAt;
      nextSeq, nextMdSeq, mdChecksum := 1, 1, MD_SEED;
      books := new BookManager(maxSymbol, cfg);
      risk := new RiskEngine(limits);
      if journaling {
        journal := new JournalWriter();
      } else {
        journal := null;
      }
    }

    /** `reject`. */
    method Reject(seqNo: u64, cmd: ClientCommand, reason: u8) returns (r: Result)
      requires Valid()
      modifies `nextMdSeq, `mdChecksum
      ensures Valid() && books.Now() == old(books.Now())
      ensures Step(State(), Some(r)) == Refuse(old(State()), seqNo, cmd, reason)
    {
      hide HashCombine, Word, ValidBooks;
      var ev := MdEvent(nextMdSeq, REJECT_EVENT, cmd.symbol, cmd.orderId, 0, cmd.account, cmd.side, cmd.price, cmd.qty,
                        reason);
      nextMdSeq := Inc64(nextMdSeq);
      mdChecksum := HashCombine(mdChecksum, Word(ev.seqNo));
      mdChecksum := HashCombine(mdChecksum, Word(ev.typ));
      mdChecksum := HashCombine(mdChecksum, Word(ev.orderId));
      mdChecksum := HashCombine(mdChecksum, Word(reason));
      r := Result(Ack(seqNo, cmd.clientOrderId, cmd.orderId, false, reason), [ev], []);
    }

    /** The hash of one event, field by field. */
    method HashMd(ev: MdEvent)
      modifies `mdChecksum
      ensures mdChecksum == HashEvent(old(mdChecksum), ev)
    {
      hide HashCombine, Word;
      mdChecksum := HashCombine(mdChecksum, Word(ev.seqNo));
      mdChecksum := HashCombine(mdChecksum, Word(ev.typ));
      mdChecksum := HashCombine(mdChecksum, Word(ev.symbol));
      mdChecksum := HashCombine(mdChecksum, Word(ev.orderId));
      mdChecksum := HashCombine(mdChecksum, Word(ev.newOrderId));
      mdChecksum := HashCombine(mdChecksum, Word(ev.account));
      mdChecksum := HashCombine(mdChecksum, Word(ev.side));
      mdChecksum := HashCombine(mdChecksum, Word(Unsigned(ev.price)));
      mdChecksum := HashCombine(mdChecksum, Word(ev.qty));
      mdChecksum := HashCombine(mdChecksum, Word(ev.reason));
    }

    /** `account_for_md`. */
    method AccountForMd(events: seq<MdEvent>)
      requires Valid()
      modifies `mdChecksum, risk
      ensures Valid() && books.Now() == old(books.Now())
      ensures mdChecksum == HashEvents(old(mdChecksum), events)
      ensures risk.accounts == AccountAll(old(risk.accounts), events, books.Now().model.index)
    {
      hide HashEvent, OnMarketData, ValidBooks;
      ghost var index := books.index;
      var i := 0;
      while i < |events|
        invariant i <= |events|
        invariant HashEvents(old(mdChecksum), events) == HashEvents(mdChecksum, events[i..])
        invariant books.index == index
        invariant AccountAll(old(risk.accounts), events, index) == AccountAll(risk.accounts, events[i..], index)
      {
        var ev := events[i];
        HashMd(ev);
        risk.OnEvent(ev, books.ContainsOrder(ev.orderId));
        assert events[i..][1..] == events[i + 1..];
        i := i + 1;
      }
    }

    /** The events take the next numbers of the market-data stream. */
    method NumberEvents(events: seq<MdEvent>) returns (evs: seq<MdEvent>)
      requires Valid()
      modifies `nextMdSeq
      ensures Valid() && books.Now() == old(books.Now())
      ensures evs == Numbered(events, old(nextMdSeq)) && |evs| == |events|
      ensures nextMdSeq == (old(nextMdSeq) + |events|) % W64
    {
      evs := [];
      var i := 0;
      while i < |events|
        invariant i <= |events|
        invariant evs == Numbered(events[..i], old(nextMdSeq)) && nextMdSeq == (old(nextMdSeq) + i) % W64
      {
        evs := evs + [events[i].(seqNo := nextMdSeq)];
        nextMdSeq := Inc64(nextMdSeq);
        i := i + 1;
      }
      assert events[..|events|] == events;
    }

    /** The switch on the command's type. */
    method Dispatch(sn: u64, cmd: ClientCommand) returns (out: MatchOutput)
      requires Valid() && books.Roomy() && SymbolExists(books.Now().model, cmd)
      modifies books, books.books
      ensures Valid() && books.books == old(books.books)
      ensures BooksStep(books.Now().model, out) == Execute(old(books.Now()).model, sn, cmd)
      ensures Follows(old(books.Now()), books.Now())
    {
      hide AddNew, CancelOne, ReplaceOne, ValidBooks, JournalOf, Follows, BookManager.Now;
      books.NothingFollows();
      if cmd.typ == NEW {
        books.BookIs(cmd.symbol);
        assert books.Now().sizes[cmd.symbol] in books.Now().sizes;
        assert books.Now().sizes[cmd.symbol] < NULL;
        out := books.AddOrder(sn, cmd);
      } else if cmd.typ == CANCEL {
        var ev := books.CancelOrder(sn, cmd.cancelOrderId);
        if ev.None? {
          NotCancelled(old(books.Now()).model, sn, cmd.cancelOrderId);
          return MatchOutput([], [], 0, UNKNOWN_ORDER);
        }
        out := MatchOutput([ev.value], [], 0, NO_REJECT);
      } else if cmd.typ == REPLACE {
        out := books.ReplaceOrder(sn, cmd);
      } else {
        out := MatchOutput([], [], 0, NO_REJECT);
      }
    }

    /** The sequencer moves on and the journal takes the command. */
    method Sequence(sc: SequencedCommand, writeJournal: bool)
      requires Valid()
      modifies `nextSeq, journal
      ensures Valid() && books.Now() == old(books.Now())
      ensures State() == old(State()).(nextSeq := CaughtUp(old(nextSeq), sc.seqNo))
      ensures Written() == old(Written()) + if writeJournal && journal != null then [sc] else []
    {
      hide ValidBooks, JournalOf;
      if sc.seqNo != (nextSeq - 1) % W64 && sc.seqNo >= nextSeq { nextSeq := Inc64(sc.seqNo); }
      if writeJournal && journal != null { journal.Append(sc); }
    }

    method PassGate(sc: SequencedCommand) returns (reason: u8)
      requires Valid()
      modifies risk
      ensures Valid() && books.Now() == old(books.Now()) && Written() == old(Written())
      ensures var c := Gate(risk.limits, old(State()), sc);
        reason == c.reason && State() == old(State()).(accounts := c.accounts)
    {
      hide ValidBooks, JournalOf, Check;
      reason := risk.CheckCommand(sc.cmd, books.ContainsOrder(sc.cmd.cancelOrderId), sc.recvTs);
    }

    /** What is left to do for a command past the gate. */
    method PerformPassed(sc: SequencedCommand) returns (r: Option<Result>)
      requires Valid() && books.Roomy()
      modifies this, books, books.books, risk
      ensures Valid() && books.books == old(books.books) && Written() == old(Written())
      ensures Step(State(), r) == Perform(old(State()), sc) && Follows(old(books.Now()), books.Now())
    {
      hide Execute, HashEvents, HashReject, AccountAll, Numbered, ValidBooks, Follows, BookManager.Now, JournalOf;
      books.NothingFollows();
      SymbolKnown(sc.cmd.symbol);
      if sc.cmd.typ == NEW && !books.HasSymbol(sc.cmd.symbol) { return None; }
      var out := Dispatch(sc.seqNo, sc.cmd);
      if out.reject != NO_REJECT {
        var refused := Reject(sc.seqNo, sc.cmd, out.reject);
        return Some(refused);
      }
      var evs := NumberEvents(out.events);
      AccountForMd(evs);
      r := Some(Result(Ack(sc.seqNo, sc.cmd.clientOrderId, sc.cmd.orderId, true, NO_REJECT), evs, out.trades));
    }

    lemma SymbolKnown(s: u32)
      requires books.Valid()
      ensures books.HasSymbol(s) <==> KnownSymbol(books.Now().model, s)
    {}

    /** `apply_sequenced`. */
    method Apply(sc: SequencedCommand, writeJournal: bool) returns (r: Option<Result>)
      requires Valid() && books.Roomy()
      modifies this, books, books.books, risk, journal
      ensures Valid() && books.books == old(books.books)
      ensures Step(State(), r) == ApplySequenced(risk.limits, old(State()), sc)
      ensures Follows(old(books.Now()), books.Now())
      ensures Written() == old(Written()) + if writeJournal && journal != null then [sc] else []
    {
      hide Perform, Check, HashReject, ValidBooks, Follows, BookManager.Now, JournalOf;
      books.NothingFollows();
      Sequence(sc, writeJournal);
      var reason := PassGate(sc);
      if reason != NO_REJECT {
        var refused := Reject(sc.seqNo, sc.cmd, reason);
        return Some(refused);
      }
      r := PerformPassed(sc);
    }

    /** `process_command`. */
    method ProcessCommand(cmd: ClientCommand, now: u64) returns (r: Option<Result>)
      requires Valid() && books.Roomy()
      modifies this, books, books.books, risk, journal
      ensures Valid() && books.books == old(books.books)
      ensures Step(State(), r) == Process(risk.limits, old(State()), Direct(cmd, now))
      ensures Follows(old(books.Now()), books.Now())
      ensures Written() == old(Written()) + if journal != null then Journaled(old(nextSeq), Direct(cmd, now)) else []
    {
      hide ApplySequenced, ValidBooks, Follows, BookManager.Now, JournalOf, BookManager.Valid;
      var seqNo := nextSeq;
      TakeNumber();
      r := Apply(SequencedCommand(seqNo, now, cmd), true);
    }

    /** `next_seq_++`. */
    method TakeNumber()
      requires Valid()
      modifies `nextSeq
      ensures Valid() && books.Now() == old(books.Now()) && books.Roomy() == old(books.Roomy())
      ensures State() == old(State()).(nextSeq := Inc64(old(nextSeq))) && Written() == old(Written())
    {
      hide ValidBooks, JournalOf, BookManager.Now, BookManager.Valid;
      nextSeq := Inc64(nextSeq);
    }

    /** `process_frame`. */
    method ProcessFrame(frame: Bytes, now: u64) returns (r: Option<Result>)
      requires Valid() && books.Roomy()
      modifies this, books, books.books, risk, journal
      ensures Valid() && books.books == old(books.books)
      ensures Step(State(), r) == Process(risk.limits, old(State()), Wire(frame, now))
      ensures Follows(old(books.Now()), books.Now())
      ensures Written() == old(Written()) + if journal != null then Journaled(old(nextSeq), Wire(frame, now)) else []
    {
      hide ApplySequenced, ValidBooks, Follows, BookManager.Now, JournalOf, BookManager.Valid, DecodeCommand,
           HashReject;
      var d := DecodeClientCommand(frame);
      if d.Refused? {
        books.NothingFollows();
        var seqNo := nextSeq;
        TakeNumber();
        var refused := Reject(seqNo, NO_COMMAND, d.reason);
        return Some(refused);
      }
      r := ProcessCommand(d.cmd, now);
    }
  }
}
