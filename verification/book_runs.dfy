/** The published events of one symbol, over whole exchange runs: they tell that book's whole
    story, in price-time order. */
module BookRuns {
  import opened Types
  import opened PriceTimeBook
  import opened Matching
  import opened Feeds
  import opened PriceTimePriority
  import opened Books
  import opened Replica
  import opened Commands
  import opened Risk
  import opened RiskCommands
  import opened ExchangeSpec
  import opened Runs

  /** The events that change the book of symbol `s`. */
  function BookEvents(evs: seq<MdEvent>, s: int): seq<MdEvent> {
    if evs == [] then []
    else (if evs[0].typ != REJECT_EVENT && evs[0].symbol == s then [evs[0]] else []) + BookEvents(evs[1..], s)
  }

  lemma {:induction false} BookEventsJoin(evs: seq<MdEvent>, more: seq<MdEvent>, s: int)
    ensures BookEvents(evs + more, s) == BookEvents(evs, s) + BookEvents(more, s)
  {
    if evs == [] {
      assert evs + more == more;
    } else {
      assert (evs + more)[1..] == evs[1..] + more;
      BookEventsJoin(evs[1..], more, s);
    }
  }

  lemma FaithfulIsOwn(b: Book, ev: MdEvent)
    requires Shaped(b) && Faithful(b, ev)
    ensures ev.symbol == b.symbol && ev.typ != REJECT_EVENT
  {}

  /** Events that lead a book somewhere are all of its symbol. */
  lemma {:induction false} LeadingIsOwn(b: Book, evs: seq<MdEvent>, r: Book, s: int)
    requires Valid(b) && Leads(b, evs, r)
    ensures BookEvents(evs, s) == if s == b.symbol then evs else []
    decreases |evs|
  {
    hide Feed, Faithful, Shaped, Positive;
    if evs != [] {
      FeedKeeps(b, evs[0]);
      FeedSame(b, evs[0]);
      FaithfulIsOwn(b, evs[0]);
      LeadingIsOwn(Feed(b, evs[0]).value, evs[1..], r, s);
      assert evs == [evs[0]] + evs[1..];
    }
  }

  lemma {:induction false} LeadsJoin(b: Book, evs: seq<MdEvent>, m: Book, more: seq<MdEvent>, r: Book)
    requires Valid(b) && Leads(b, evs, m) && Valid(m) && Leads(m, more, r)
    ensures Leads(b, evs + more, r)
    decreases |evs|
  {
    hide Feed, Faithful, Shaped;
    if evs == [] {
      assert evs + more == more;
    } else {
      FeedKeeps(b, evs[0]);
      assert (evs + more)[0] == evs[0] && (evs + more)[1..] == evs[1..] + more;
      LeadsJoin(Feed(b, evs[0]).value, evs[1..], m, more, r);
    }
  }

  lemma SilentTellsNothing(evs: seq<MdEvent>, s: int, b: Book)
    requires Silent(evs) && Valid(b)
    ensures BookEvents(evs, s) == [] && Leads(b, [], b)
  {
    if evs != [] { assert evs[1..] == []; }
  }

  lemma CommandTellsAll(m: Books, sn: u64, cmd: ClientCommand, evs: seq<MdEvent>, s: int)
    requires ValidBooks(m) && SymbolExists(m, cmd) && !LosesOrder(m, cmd) && Publishes(Execute(m, sn, cmd), evs)
    requires KnownSymbol(m, s) && Valid(m.books[s]) && m.books[s].symbol == s
    requires |Execute(m, sn, cmd).books.books| == |m.books|
    ensures Leads(m.books[s], BookEvents(evs, s), Execute(m, sn, cmd).books.books[s])
  {
    hide Execute, LosesOrder, Shaped, Faithful, Feed;
    var step := Execute(m, sn, cmd);
    RejectedChangesNothing(m, sn, cmd);
    if step.out.reject != NO_REJECT {
      SilentTellsNothing(evs, s, m.books[s]);
    } else {
      var t := ExecuteMoves(m, sn, cmd);
      if step.books == m && step.out.events == [] {
        assert evs == [];
      } else {
        NumbersDoNotMatter(m.books[t], step.out.events, evs, step.books.books[t]);
        LeadingIsOwn(m.books[t], evs, step.books.books[t], s);
      }
    }
  }

  /** What was published of a symbol leads its book from the first state to the last. */
  lemma {:induction false} EventsTellAll(limits: Limits, start: System, inputs: seq<Input>, s: int)
    requires ValidBooks(start.books) && KnownSymbol(start.books, s) && Avoids(limits, start, inputs, {Loss})
    ensures Valid(start.books.books[s])
    ensures var run := RunOf(limits, start, inputs);
      Leads(start.books.books[s], BookEvents(run.events, s), run.sys.books.books[s])
    decreases |inputs|
  {
    hide Process, Avoids, Has, Valid, Leads, BookEvents, ValidBooks, Executed, Sequenced;
    BookHere(start.books, s);
    if inputs == [] {
      SilentTellsNothing([], s, start.books.books[s]);
    } else {
      var before, input := inputs[..|inputs| - 1], inputs[|inputs| - 1];
      assert inputs == before + [input];
      AvoidsLast(limits, start, before, input, {Loss}, Loss);
      EventsTellAll(limits, start, before, s);
      var run := RunOf(limits, start, before);
      BookHere(run.sys.books, s);
      ProcessTellsAll(limits, run.sys, input, s);
      var step := Process(limits, run.sys, input);
      BookEventsJoin(run.events, step.Events(), s);
      LeadsJoin(start.books.books[s], BookEvents(run.events, s), run.sys.books.books[s], BookEvents(step.Events(), s),
                step.sys.books.books[s]);
    }
  }

  lemma ProcessTellsAll(limits: Limits, sys: System, input: Input, s: int)
    requires ValidBooks(sys.books) && KnownSymbol(sys.books, s) && Valid(sys.books.books[s])
    requires Executed(limits, sys, input) ==> !Has(limits, sys.books, Sequenced(sys.nextSeq, input).value.cmd, Loss)
    ensures var step := Process(limits, sys, input);
      && |step.sys.books.books| == |sys.books.books|
      && Leads(sys.books.books[s], BookEvents(step.Events(), s), step.sys.books.books[s])
  {
    hide Process, Execute, LosesOrder, Shaped, Leads, BookEvents, Publishes, Silent, SameFigures, ValidBooks, Check;
    ProcessShape(limits, sys, input);
    ProcessKeeps(limits, sys, input);
    BookHere(sys.books, s);
    var evs := Process(limits, sys, input).Events();
    if Executed(limits, sys, input) {
      var sc := Sequenced(sys.nextSeq, input).value;
      CommandTellsAll(sys.books, sc.seqNo, sc.cmd, evs, s);
    } else {
      SilentTellsNothing(evs, s, sys.books.books[s]);
    }
  }

  /** What an input publishes tells the story of the book of symbol `s`. */
  ghost predicate TellsOf(limits: Limits, sys: System, input: Input, s: int)
    requires ValidBooks(sys.books)
  {
    var step := Process(limits, sys, input);
    KnownSymbol(sys.books, s) ==>
      && |step.sys.books.books| == |sys.books.books| && Valid(sys.books.books[s])
      && Leads(sys.books.books[s], BookEvents(step.Events(), s), step.sys.books.books[s])
  }

  ghost predicate TellsAll(limits: Limits, sys: System, input: Input)
    requires ValidBooks(sys.books)
  {
    forall s {:trigger TellsOf(limits, sys, input, s)} :: TellsOf(limits, sys, input, s)
  }

  /** One input's published events tell all exactly when it loses no order. */
  lemma ProcessTellsExactly(limits: Limits, sys: System, input: Input)
    requires ValidBooks(sys.books)
    ensures TellsAll(limits, sys, input) <==>
      (Executed(limits, sys, input) ==> !Has(limits, sys.books, Sequenced(sys.nextSeq, input).value.cmd, Loss))
  {
    hide Process, Execute, LosesOrder, Valid, Leads, BookEvents, Silent, SameFigures, ValidBooks, Check, AccountsAfter;
    ProcessShape(limits, sys, input);
    ProcessKeeps(limits, sys, input);
    var step := Process(limits, sys, input);
    if Executed(limits, sys, input) && Has(limits, sys.books, Sequenced(sys.nextSeq, input).value.cmd, Loss) {
      var sc := Sequenced(sys.nextSeq, input).value;
      RejectedChangesNothing(sys.books, sc.seqNo, sc.cmd);
      var t := LostFrom(sys.books, sc.seqNo, sc.cmd);
      BookHere(sys.books, t);
      RejectTellsNothing(step.Events(), t);
      LeadsNowhere(sys.books.books[t], step.sys.books.books[t]);
      assert !TellsOf(limits, sys, input, t);
    } else {
      forall s ensures TellsOf(limits, sys, input, s) {
        if KnownSymbol(sys.books, s) {
          BookHere(sys.books, s);
          ProcessTellsAll(limits, sys, input, s);
        }
      }
    }
  }

  /** The book a lost order was in. */
  lemma LostFrom(m: Books, sn: u64, cmd: ClientCommand) returns (s: int)
    requires ValidBooks(m) && SymbolExists(m, cmd) && LosesOrder(m, cmd)
    ensures KnownSymbol(m, s) && |Execute(m, sn, cmd).books.books| == |m.books|
    ensures Execute(m, sn, cmd).books.books[s] != m.books[s] && Execute(m, sn, cmd).out.reject != NO_REJECT
  {
    RejectedChangesNothing(m, sn, cmd);
    ExecuteKeeps(m, sn, cmd);
    var t := ExecuteMoves(m, sn, cmd);
    hide Execute, Shaped, Leads, LosesOrder;
    s := t;
  }

  lemma RejectTellsNothing(evs: seq<MdEvent>, s: int)
    requires |evs| == 1 && evs[0].typ == REJECT_EVENT
    ensures BookEvents(evs, s) == []
  {
    assert evs[1..] == [];
  }

  lemma LeadsNowhere(b: Book, r: Book)
    requires Valid(b)
    ensures Leads(b, [], r) <==> r == b
  {}

  lemma BookHere(m: Books, s: int)
    requires ValidBooks(m) && KnownSymbol(m, s)
    ensures Valid(m.books[s]) && m.books[s].symbol == s
  {
    assert BookOk(m, s);
  }

  // ---- the book's own story, published or not ----

  /** What one input does to the book of symbol `s`. */
  function BookDeeds(limits: Limits, sys: System, input: Input, s: int): seq<MdEvent>
    requires ValidBooks(sys.books)
  {
    if !Executed(limits, sys, input) then []
    else
      var sc := Sequenced(sys.nextSeq, input).value;
      BookEvents(Execute(sys.books, sc.seqNo, sc.cmd).out.events, s)
  }

  /** What a run does to the book of symbol `s`: the cancellation by a replace that is then
      refused is here, although it is not published. */
  function BookLog(limits: Limits, start: System, inputs: seq<Input>, s: int): seq<MdEvent>
    requires ValidBooks(start.books)
  {
    if inputs == [] then []
    else
      var before, input := inputs[..|inputs| - 1], inputs[|inputs| - 1];
      BookLog(limits, start, before, s) + BookDeeds(limits, RunOf(limits, start, before).sys, input, s)
  }

  lemma DeedsLead(limits: Limits, sys: System, input: Input, s: int)
    requires ValidBooks(sys.books) && KnownSymbol(sys.books, s) && Valid(sys.books.books[s])
    ensures var next := Process(limits, sys, input).sys;
      && |next.books.books| == |sys.books.books|
      && Leads(sys.books.books[s], BookDeeds(limits, sys, input, s), next.books.books[s])
  {
    hide Process, Execute, Shaped, Leads, BookEvents, Publishes, Silent, SameFigures, ValidBooks, Check;
    ProcessShape(limits, sys, input);
    ProcessKeeps(limits, sys, input);
    BookHere(sys.books, s);
    SilentTellsNothing([], s, sys.books.books[s]);
    if Executed(limits, sys, input) {
      var m, sc := sys.books, Sequenced(sys.nextSeq, input).value;
      var step := Execute(m, sc.seqNo, sc.cmd);
      var t := ExecuteMoves(m, sc.seqNo, sc.cmd);
      if step.books != m || step.out.events != [] {
        LeadingIsOwn(m.books[t], step.out.events, step.books.books[t], s);
      }
    }
  }

  /** Over every run, whatever the inputs, the log of a book leads it from the first state to
      the last. */
  lemma {:induction false} LogLeads(limits: Limits, start: System, inputs: seq<Input>, s: int)
    requires ValidBooks(start.books) && KnownSymbol(start.books, s)
    ensures Valid(start.books.books[s])
    ensures Leads(start.books.books[s], BookLog(limits, start, inputs, s),
                  RunOf(limits, start, inputs).sys.books.books[s])
    decreases |inputs|
  {
    hide Process, Valid, Leads, ValidBooks, Executed, Sequenced, BookDeeds;
    BookHere(start.books, s);
    if inputs == [] {
      SilentTellsNothing([], s, start.books.books[s]);
    } else {
      var before, input := inputs[..|inputs| - 1], inputs[|inputs| - 1];
      LogLeads(limits, start, before, s);
      var sys := RunOf(limits, start, before).sys;
      BookHere(sys.books, s);
      DeedsLead(limits, sys, input, s);
      LeadsJoin(start.books.books[s], BookLog(limits, start, before, s), sys.books.books[s],
                BookDeeds(limits, sys, input, s), Process(limits, sys, input).sys.books.books[s]);
    }
  }

  // ---- price-time priority ----

  /** Price-time priority over every exchange run, whatever the inputs: in the log of a book, an
      order that arrived behind `x` is executed only after `x` has left. */
  lemma PriceTimeOverExchangeRuns(limits: Limits, start: System, inputs: seq<Input>, s: int, x: u64, y: u64, j: nat,
                                  k: nat)
    returns (l: nat)
    requires ValidBooks(start.books) && KnownSymbol(start.books, s) && Valid(start.books.books[s])
    requires ArrivesBehind(start.books.books[s], BookLog(limits, start, inputs, s), x, y, j, k)
    ensures j < l < k && LeavesAt(start.books.books[s], BookLog(limits, start, inputs, s), x, l)
  {
    hide RunOf, ValidBooks, Shaped, Leads, BookLog, ArrivesBehind, LeavesAt;
    LogLeads(limits, start, inputs, s);
    l := LaterArrivalWaits(start.books.books[s], BookLog(limits, start, inputs, s),
                           RunOf(limits, start, inputs).sys.books.books[s], x, y, j, k);
  }

  /** The same as the feed tells it, when no cancellation went unpublished. */
  lemma PriceTimeAsPublished(limits: Limits, start: System, inputs: seq<Input>, s: int, x: u64, y: u64, j: nat, k: nat)
    returns (l: nat)
    requires ValidBooks(start.books) && KnownSymbol(start.books, s) && Valid(start.books.books[s])
    requires Avoids(limits, start, inputs, {Loss})
    requires ArrivesBehind(start.books.books[s], BookEvents(RunOf(limits, start, inputs).events, s), x, y, j, k)
    ensures j < l < k && LeavesAt(start.books.books[s], BookEvents(RunOf(limits, start, inputs).events, s), x, l)
  {
    hide RunOf, Avoids, ValidBooks, Shaped, Leads, BookEvents, ArrivesBehind, LeavesAt;
    EventsTellAll(limits, start, inputs, s);
    var run := RunOf(limits, start, inputs);
    l := LaterArrivalWaits(start.books.books[s], BookEvents(run.events, s), run.sys.books.books[s], x, y, j, k);
  }
}
