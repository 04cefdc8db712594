/** What enters the other hashes: the checksum over all books, and the hash of the published feed. */
module FeedWords {
  import opened Types
  import opened PriceTimeBook
  import opened Checksum
  import opened BookChecksum
  import opened ChecksumWords
  import opened Books
  import opened BookManagers
  import opened Commands
  import opened Risk
  import opened RiskAgreement
  import opened ExchangeSpec
  import opened Answers

  // ---- all books ----

  function FoldHashes(h: bv64, hs: seq<bv64>): bv64
    decreases |hs|
  {
    if hs == [] then h else FoldHashes(HashCombine(h, hs[0]), hs[1..])
  }

  /** The folds of the words of the books of symbols 1 to `n`, in this order. */
  function HashesTo(books: seq<Book>, n: nat): seq<bv64>
    requires n < |books|
  {
    seq(n, i requires 0 <= i < n => Fold(0x45584348424f4f4b, BookWords(books[i + 1])))
  }

  lemma {:induction false} FoldOneMore(h: bv64, hs: seq<bv64>, v: bv64)
    ensures FoldHashes(h, hs + [v]) == HashCombine(FoldHashes(h, hs), v)
    decreases |hs|
  {
    hide HashCombine;
    if hs == [] {
      assert [v][1..] == [] && [] + [v] == [v];
    } else {
      assert (hs + [v])[1..] == hs[1..] + [v];
      FoldOneMore(HashCombine(h, hs[0]), hs[1..], v);
    }
  }

  /** The checksum over all books folds the checksum of every symbol's book, from 1 on. */
  lemma {:induction false} BooksHashIsFold(books: seq<Book>, n: nat)
    requires n < |books|
    ensures BooksHash(books, n) == FoldHashes(0x424f4f4b4d475231, HashesTo(books, n))
  {
    hide HashCombine, BookHash, Fold, BookWords;
    if n == 0 {
      assert HashesTo(books, 0) == [];
    } else {
      BooksHashIsFold(books, n - 1);
      BookHashIsFold(books[n]);
      assert HashesTo(books, n) == HashesTo(books, n - 1) + [Fold(0x45584348424f4f4b, BookWords(books[n]))];
      FoldOneMore(0x424f4f4b4d475231, HashesTo(books, n - 1), Fold(0x45584348424f4f4b, BookWords(books[n])));
    }
  }

  // ---- the feed ----

  /** The words of an event: every field, or of a reject its number, type, order id and reason. */
  function EventWords(ev: MdEvent): seq<u64> {
    if ev.typ == REJECT_EVENT then [ev.seqNo, ev.typ, ev.orderId, ev.reason]
    else [ev.seqNo, ev.typ, ev.symbol, ev.orderId, ev.newOrderId, ev.account, ev.side, ev.price % W64, ev.qty,
          ev.reason]
  }

  function WordsOf(evs: seq<MdEvent>): seq<u64>
    decreases |evs|
  {
    if evs == [] then [] else EventWords(evs[0]) + WordsOf(evs[1..])
  }

  lemma {:induction false} WordsJoin(evs: seq<MdEvent>, more: seq<MdEvent>)
    ensures WordsOf(evs + more) == WordsOf(evs) + WordsOf(more)
    decreases |evs|
  {
    hide EventWords;
    if evs == [] {
      assert evs + more == more;
    } else {
      assert (evs + more)[1..] == evs[1..] + more;
      WordsJoin(evs[1..], more);
    }
  }

  lemma FourWords(h: bv64, w: u64, x: u64, y: u64, z: u64, more: seq<u64>)
    ensures Fold(h, [w, x, y, z] + more)
      == Fold(HashCombine(HashCombine(HashCombine(HashCombine(h, Word(w)), Word(x)), Word(y)), Word(z)), more)
  {
    hide HashCombine, Word, Fold;
    assert [w, x, y, z] + more == [w, x] + ([y, z] + more);
    TwoWords(h, w, x, [y, z] + more);
    TwoWords(HashCombine(HashCombine(h, Word(w)), Word(x)), y, z, more);
  }

  lemma FoldNothing(h: bv64)
    ensures Fold(h, []) == h
  {}

  lemma RejectIsFold(h: bv64, ev: MdEvent)
    requires ev.typ == REJECT_EVENT
    ensures HashReject(h, ev) == Fold(h, EventWords(ev))
  {
    hide HashCombine, Word, Fold;
    FourWords(h, ev.seqNo, ev.typ, ev.orderId, ev.reason, []);
    assert EventWords(ev) == [ev.seqNo, ev.typ, ev.orderId, ev.reason] + [];
    FoldNothing(HashReject(h, ev));
  }

  lemma PriceWord(price: i64)
    ensures Unsigned(price) == price % W64
  {}

  lemma EventIsFold(h: bv64, ev: MdEvent)
    requires ev.typ != REJECT_EVENT
    ensures HashEvent(h, ev) == Fold(h, EventWords(ev))
  {
    hide HashCombine, Word, Fold, Unsigned;
    PriceWord(ev.price);
    var p := ev.price % W64;
    var tail := [p, ev.qty, ev.reason];
    FourWords(h, ev.seqNo, ev.typ, ev.symbol, ev.orderId, [ev.newOrderId, ev.account, ev.side] + tail);
    var g := HashCombine(HashCombine(HashCombine(HashCombine(h,
      Word(ev.seqNo)), Word(ev.typ)), Word(ev.symbol)), Word(ev.orderId));
    ThreeWords(g, ev.newOrderId, ev.account, ev.side, tail);
    var k := HashCombine(HashCombine(HashCombine(g, Word(ev.newOrderId)), Word(ev.account)), Word(ev.side));
    assert tail == tail + [];
    ThreeWords(k, p, ev.qty, ev.reason, []);
    FoldNothing(HashCombine(HashCombine(HashCombine(k, Word(p)), Word(ev.qty)), Word(ev.reason)));
    assert EventWords(ev)
      == [ev.seqNo, ev.typ, ev.symbol, ev.orderId] + ([ev.newOrderId, ev.account, ev.side] + tail);
  }

  lemma {:induction false} EventsAreFold(h: bv64, evs: seq<MdEvent>)
    requires forall ev <- evs :: ev.typ != REJECT_EVENT
    ensures HashEvents(h, evs) == Fold(h, WordsOf(evs))
    decreases |evs|
  {
    hide HashEvent, Fold, EventWords;
    if evs == [] {
      FoldNothing(h);
    } else {
      assert evs[0] in evs && forall ev <- evs[1..] :: ev in evs;
      EventIsFold(h, evs[0]);
      EventsAreFold(HashEvent(h, evs[0]), evs[1..]);
      FoldJoins(h, EventWords(evs[0]), WordsOf(evs[1..]));
    }
  }

  // ---- the words tell the events ----

  /** The same event, as far as the hash goes: of a reject the rest is not hashed. */
  predicate SameTold(ev: MdEvent, ev': MdEvent) {
    if ev.typ == REJECT_EVENT
    then ev'.typ == REJECT_EVENT && ev'.seqNo == ev.seqNo && ev'.orderId == ev.orderId && ev'.reason == ev.reason
    else ev' == ev
  }

  lemma SignedBack(x: i64, y: i64)
    requires x % W64 == y % W64
    ensures x == y
  {}

  lemma FirstTold(ev: MdEvent, ev': MdEvent, more: seq<u64>, more': seq<u64>)
    requires EventWords(ev) + more == EventWords(ev') + more'
    ensures SameTold(ev, ev') && more == more'
  {
    var ws, ws' := EventWords(ev) + more, EventWords(ev') + more';
    assert ws[0] == ws'[0] && ws[1] == ws'[1];
    assert ws[1] == ev.typ && ws'[1] == ev'.typ;
    if ev.typ == REJECT_EVENT {
      assert ws[2] == ws'[2] && ws[3] == ws'[3] && ws[4..] == more && ws'[4..] == more';
    } else {
      assert forall i :: 0 <= i < 10 ==> ws[i] == ws'[i] && ws[i] == EventWords(ev)[i] && ws'[i] == EventWords(ev')[i];
      assert ws[10..] == more && ws'[10..] == more';
      assert ws[2] == ev.symbol && ws[3] == ev.orderId && ws[4] == ev.newOrderId && ws[5] == ev.account
        && ws[6] == ev.side && ws[7] == ev.price % W64 && ws[8] == ev.qty && ws[9] == ev.reason;
      SignedBack(ev.price, ev'.price);
    }
  }

  /** Two feeds have the same words exactly when they have the same events, in the same order, up
      to what of rejects is not hashed. */
  lemma {:induction false} SameFeedExactly(evs: seq<MdEvent>, evs': seq<MdEvent>)
    ensures WordsOf(evs) == WordsOf(evs') <==>
      |evs| == |evs'| && forall i :: 0 <= i < |evs| ==> SameTold(evs[i], evs'[i])
    decreases |evs|
  {
    if evs != [] && evs' != [] {
      SameFeedExactly(evs[1..], evs'[1..]);
      assert forall i :: 0 <= i < |evs| - 1 ==> evs[1..][i] == evs[i + 1];
      assert forall i :: 0 <= i < |evs'| - 1 ==> evs'[1..][i] == evs'[i + 1];
      if WordsOf(evs) == WordsOf(evs') {
        FirstTold(evs[0], evs'[0], WordsOf(evs[1..]), WordsOf(evs'[1..]));
        forall i | 0 <= i < |evs| ensures SameTold(evs[i], evs'[i]) {
          if i > 0 { assert evs[i] == evs[1..][i - 1] && evs'[i] == evs'[1..][i - 1]; }
        }
      }
    }
  }

  // ---- runs ----

  lemma ProcessHashes(limits: Limits, sys: System, input: Input)
    requires ValidBooks(sys.books)
    ensures var step := Process(limits, sys, input); step.sys.mdHash == Fold(sys.mdHash, WordsOf(step.Events()))
  {
    hide Execute, Check, AccountAll, ValidBooks, HashReject, HashEvents, Fold, WordsOf, EventWords, Answers.EventsOf;
    var step := Process(limits, sys, input);
    if step.result.None? {
      NothingTold(sys.mdHash);
    } else if step.result.value.ack.accepted {
      AcceptedAnswer(limits, sys, input);
      NoRejectIn(Carried(input).value, step.Events());
      EventsAreFold(sys.mdHash, step.Events());
    } else {
      RefusedAnswer(limits, sys, input);
      var ev := step.Events()[0];
      RejectIsFold(sys.mdHash, ev);
      OneTold(ev);
    }
  }

  lemma NothingTold(h: bv64)
    ensures Fold(h, WordsOf([])) == h
  {}

  lemma OneTold(ev: MdEvent)
    ensures WordsOf([ev]) == EventWords(ev)
  {
    assert [ev][1..] == [];
  }

  lemma NoRejectIn(cmd: ClientCommand, evs: seq<MdEvent>)
    requires EventsOf(cmd, evs)
    ensures forall ev <- evs :: ev.typ != REJECT_EVENT
  {}

  /** The market-data hash is the fold of all that was published. */
  lemma {:induction false} FeedHash(limits: Limits, start: System, inputs: seq<Input>)
    requires ValidBooks(start.books)
    ensures var run := RunOf(limits, start, inputs); run.sys.mdHash == Fold(start.mdHash, WordsOf(run.events))
    decreases |inputs|
  {
    hide Process, ValidBooks, Fold, WordsOf;
    if inputs == [] {
      NothingTold(start.mdHash);
    } else {
      var before, input := inputs[..|inputs| - 1], inputs[|inputs| - 1];
      FeedHash(limits, start, before);
      var run := RunOf(limits, start, before);
      var evs := Process(limits, run.sys, input).Events();
      ProcessHashes(limits, run.sys, input);
      WordsJoin(run.events, evs);
      FoldJoins(start.mdHash, WordsOf(run.events), WordsOf(evs));
    }
  }

  /** Of a new exchange, from its seed. */
  lemma NewFeedHash(limits: Limits, maxSymbol: u32, cfg: LadderConfig, inputs: seq<Input>)
    requires Constructible(maxSymbol, cfg)
    ensures var run := RunOf(limits, StartSystem(maxSymbol, cfg), inputs);
      run.sys.mdHash == Fold(0x4d4443484b53554d, WordsOf(run.events))
  {
    hide EmptyBooks, Fold, WordsOf, RunOf;
    FeedHash(limits, StartSystem(maxSymbol, cfg), inputs);
  }
}
