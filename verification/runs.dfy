/** What holds in every state an exchange can reach, and over every run. */
module Runs {
  import opened Types
  import opened PriceTimeBook
  import opened Matching
  import opened MatchTheorems
  import opened Books
  import opened Replica
  import opened Commands
  import opened OrderEntry
  import opened Risk
  import opened RiskAgreement
  import opened RiskCommands
  import opened OpenLimit
  import opened OrderSize
  import opened ExchangeSpec

  /** The ways a command can set the views of the system apart. */
  datatype Hazard = Clash | Loss | Unindex | Forget | Evade | Exceed | Overstep

  ghost predicate Has(limits: Limits, m: Books, cmd: ClientCommand, h: Hazard)
    requires ValidBooks(m) && SymbolExists(m, cmd)
  {
    match h
    case Clash => Clashes(m, cmd)
    case Loss => LosesOrder(m, cmd)
    case Unindex => Unindexes(m, cmd)
    case Forget => FillsForgotten(m, cmd)
    case Evade => Evades(limits, m, cmd)
    case Exceed => Exceeds(limits, m, cmd)
    case Overstep => Oversteps(limits, m, cmd)
  }

  /** The input carries a command, and it is executed. */
  predicate Executed(limits: Limits, sys: System, input: Input) {
    var sc := Sequenced(sys.nextSeq, input);
    sc.Some? && Executes(limits, sys, sc.value)
  }

  /** No executed command of the run had one of these hazards when it was executed. */
  ghost predicate Avoids(limits: Limits, start: System, inputs: seq<Input>, hs: set<Hazard>)
    requires ValidBooks(start.books)
  {
    inputs == [] ||
    (var before, input := inputs[..|inputs| - 1], inputs[|inputs| - 1];
     && Avoids(limits, start, before, hs)
     && var sys := RunOf(limits, start, before).sys;
        Executed(limits, sys, input) ==>
         var cmd := Sequenced(sys.nextSeq, input).value.cmd; forall h <- hs :: !Has(limits, sys.books, cmd, h))
  }

  lemma AvoidsLast(limits: Limits, start: System, before: seq<Input>, input: Input, hs: set<Hazard>, h: Hazard)
    requires ValidBooks(start.books) && Avoids(limits, start, before + [input], hs) && h in hs
    ensures Avoids(limits, start, before, hs)
    ensures var sys := RunOf(limits, start, before).sys;
      Executed(limits, sys, input) ==> !Has(limits, sys.books, Sequenced(sys.nextSeq, input).value.cmd, h)
  {
    assert (before + [input])[..|before|] == before;
  }

  /** An executed input does to the books what its command does, publishes the events and
      accounts for them; any other changes no book, is silent, and leaves the figures. */
  lemma ProcessShape(limits: Limits, sys: System, input: Input)
    requires ValidBooks(sys.books)
    ensures var step := Process(limits, sys, input);
      && ValidBooks(step.sys.books)
      && (!Executed(limits, sys, input) ==>
            step.sys.books == sys.books && Silent(step.Events()) && SameFigures(sys.accounts, step.sys.accounts))
      && (Executed(limits, sys, input) ==>
            var sc := Sequenced(sys.nextSeq, input).value;
            var e := Execute(sys.books, sc.seqNo, sc.cmd);
            && step.sys.books == e.books && Publishes(e, step.Events())
            && step.sys.accounts == AccountsAfter(Gate(limits, sys, sc).accounts, e, step.Events()))
  {
    hide Execute, ApplySequenced, Check, ValidBooks, Publishes, AccountsAfter, DecodeCommand, HashReject, SymbolExists;
    ProcessKeeps(limits, sys, input);
    var sc := Sequenced(sys.nextSeq, input);
    if sc.Some? { StepShape(limits, sys.(nextSeq := Inc64(sys.nextSeq)), sc.value); }
  }

  // ---- numbers ----

  lemma StepNumbers(limits: Limits, sys: System, input: Input)
    requires ValidBooks(sys.books)
    ensures var step := Process(limits, sys, input);
      step.Events() == Numbered(step.Events(), sys.nextMd) && step.sys.nextMd == (sys.nextMd + |step.Events()|) % W64
  {
    hide Execute, Gate, ValidBooks, HashEvents, HashReject, AccountAll, DecodeCommand, Numbered;
    var sc := Sequenced(sys.nextSeq, input);
    NumberedTwice(Process(limits, sys, input).Events(), sys.nextMd);
    if sc.Some? && SymbolExists(sys.books, sc.value.cmd) {
      NumberedTwice(Execute(sys.books, sc.value.seqNo, sc.value.cmd).out.events, sys.nextMd);
    }
  }

  lemma NumberedTwice(evs: seq<MdEvent>, first: u64)
    ensures Numbered(Numbered(evs, first), first) == Numbered(evs, first) && |Numbered(evs, first)| == |evs|
    ensures Numbered([], first) == []
    ensures |evs| == 1 && evs[0].seqNo == first ==> Numbered(evs, first) == evs
  {}

  lemma NumbersContinue(first: u64, n: nat, i: nat)
    ensures ((first + n) % W64 + i) % W64 == (first + (n + i)) % W64
  {}

  /** The events of any run are numbered without a gap, rejects included, whatever happens. */
  lemma {:induction false} EventsAreNumbered(limits: Limits, start: System, inputs: seq<Input>)
    requires ValidBooks(start.books)
    ensures var r := RunOf(limits, start, inputs);
      && r.sys.nextMd == (start.nextMd + |r.events|) % W64
      && forall i :: 0 <= i < |r.events| ==> r.events[i].seqNo == (start.nextMd + i) % W64
    decreases |inputs|
  {
    hide Process, ValidBooks;
    if inputs != [] {
      var before := inputs[..|inputs| - 1];
      EventsAreNumbered(limits, start, before);
      var sys := RunOf(limits, start, before).sys;
      StepNumbers(limits, sys, inputs[|inputs| - 1]);
      var n, evs := |RunOf(limits, start, before).events|, Process(limits, sys, inputs[|inputs| - 1]).Events();
      NumbersContinue(start.nextMd, n, |evs|);
      forall i | 0 <= i < |evs| ensures evs[i].seqNo == (start.nextMd + (n + i)) % W64 {
        NumbersContinue(start.nextMd, n, i);
      }
    }
  }

  // ---- never crossed ----

  ghost predicate BookUncrossed(m: Books, s: int) {
    0 <= s < |m.books| ==> Uncrossed(m.books[s])
  }

  ghost predicate NoneCrossed(m: Books) {
    forall s {:trigger BookUncrossed(m, s)} :: BookUncrossed(m, s)
  }

  lemma ExecuteKeepsUncrossed(m: Books, sn: u64, cmd: ClientCommand)
    requires ValidBooks(m) && SymbolExists(m, cmd) && NoneCrossed(m)
    ensures NoneCrossed(Execute(m, sn, cmd).books)
  {
    var m' := Execute(m, sn, cmd).books;
    forall s ensures BookUncrossed(m', s) {
      assert BookUncrossed(m, s) && BookOk(m, s);
      if 0 <= s < |m.books| {
        var b := m.books[s];
        if cmd.typ == NEW && s == cmd.symbol {
          AddKeepsUncrossed(b, sn, cmd.orderId, cmd.account, cmd.side, cmd.price, cmd.qty, cmd.tif);
        } else if cmd.typ == CANCEL && cmd.cancelOrderId in b.orders {
          DropKeepsUncrossed(b, cmd.cancelOrderId);
        } else if cmd.typ == REPLACE {
          ReplaceKeepsUncrossed(b, sn, cmd.cancelOrderId, cmd.orderId, cmd.account, cmd.side, cmd.price, cmd.qty,
                                cmd.tif);
        }
        hide Add, Drop, Replace, Shaped, Uncrossed;
      }
    }
  }

  /** In every reachable state, in every book, the best bid is below the best ask. */
  lemma {:induction false} NeverCrossed(limits: Limits, start: System, inputs: seq<Input>)
    requires ValidBooks(start.books) && NoneCrossed(start.books)
    ensures NoneCrossed(RunOf(limits, start, inputs).sys.books)
    ensures forall b <- RunOf(limits, start, inputs).sys.books.books ::
      BestPrice(b, true).Some? && BestPrice(b, false).Some? ==> BestPrice(b, true).value < BestPrice(b, false).value
    decreases |inputs|
  {
    hide Process, Execute, ValidBooks, Uncrossed;
    var m := RunOf(limits, start, inputs).sys.books;
    if inputs != [] {
      var before, input := inputs[..|inputs| - 1], inputs[|inputs| - 1];
      NeverCrossed(limits, start, before);
      var sys := RunOf(limits, start, before).sys;
      ProcessShape(limits, sys, input);
      if Executed(limits, sys, input) {
        var sc := Sequenced(sys.nextSeq, input).value;
        ExecuteKeepsUncrossed(sys.books, sc.seqNo, sc.cmd);
      }
    }
    ApartEverywhere(m);
  }

  lemma ApartEverywhere(m: Books)
    requires ValidBooks(m) && NoneCrossed(m)
    ensures forall b <- m.books ::
      BestPrice(b, true).Some? && BestPrice(b, false).Some? ==> BestPrice(b, true).value < BestPrice(b, false).value
  {
    forall b <- m.books
      ensures BestPrice(b, true).Some? && BestPrice(b, false).Some? ==>
        BestPrice(b, true).value < BestPrice(b, false).value
    {
      var s :| 0 <= s < |m.books| && m.books[s] == b;
      assert BookOk(m, s) && BookUncrossed(m, s);
      UncrossedIsBestApart(b);
    }
  }

  // ---- the replica ----

  lemma {:induction false} FeedAllJoins(m: Books, evs: seq<MdEvent>, more: seq<MdEvent>)
    requires ValidBooks(m)
    ensures FeedAll(m, evs).Some? ==> ValidBooks(FeedAll(m, evs).value)
    ensures FeedAll(m, evs + more) == if FeedAll(m, evs).None? then None else FeedAll(FeedAll(m, evs).value, more)
    decreases |evs|
  {
    hide FeedBooks;
    if evs == [] {
      assert evs + more == more;
    } else {
      assert (evs + more)[0] == evs[0] && (evs + more)[1..] == evs[1..] + more;
      FeedBooksKeeps(m, evs[0]);
      if FeedBooks(m, evs[0]).Some? {
        FeedAllJoins(FeedBooks(m, evs[0]).value, evs[1..], more);
      }
    }
  }

  lemma FeedAllOne(r: Books, ev: MdEvent)
    requires ValidBooks(r)
    ensures FeedAll(r, [ev]) == FeedBooks(r, ev)
  {
    FeedBooksKeeps(r, ev);
    if FeedBooks(r, ev).Some? {
      assert [ev][1..] == [];
      assert FeedAll(FeedBooks(r, ev).value, []) == FeedBooks(r, ev);
    }
  }

  lemma SilentChangesNothing(r: Books, evs: seq<MdEvent>)
    requires ValidBooks(r) && Silent(evs)
    ensures FeedAll(r, evs) == Some(r)
  {
    if evs != [] { assert evs[1..] == []; }
  }

  /** A subscriber that hears a whole run applies every event without an error and holds the
      engine's books, queue for queue, at the end. */
  lemma {:induction false} ReplicaFollows(limits: Limits, start: System, r: Books, inputs: seq<Input>)
    requires Tracks(start.books, r) && Avoids(limits, start, inputs, {Clash, Loss})
    ensures var run := RunOf(limits, start, inputs);
      FeedAll(r, run.events).Some? && Tracks(run.sys.books, FeedAll(r, run.events).value)
    decreases |inputs|
  {
    hide Process, Execute, ValidBooks, Tracks, Clashes, LosesOrder;
    assert ValidBooks(start.books) && ValidBooks(r) by { TracksValid(start.books, r); }
    if inputs != [] {
      var before, input := inputs[..|inputs| - 1], inputs[|inputs| - 1];
      assert inputs == before + [input];
      AvoidsLast(limits, start, before, input, {Clash, Loss}, Clash);
      AvoidsLast(limits, start, before, input, {Clash, Loss}, Loss);
      ReplicaFollows(limits, start, r, before);
      var run := RunOf(limits, start, before);
      var r' := FeedAll(r, run.events).value;
      FeedAllJoins(r, run.events, []);
      ReplicaStep(limits, run.sys, r', input);
      FeedAllJoins(r, run.events, Process(limits, run.sys, input).Events());
    }
  }

  lemma TracksValid(m: Books, r: Books)
    requires Tracks(m, r)
    ensures ValidBooks(m) && ValidBooks(r)
  {}

  lemma ReplicaStep(limits: Limits, sys: System, r: Books, input: Input)
    requires Tracks(sys.books, r)
    requires ValidBooks(sys.books) && ValidBooks(r)
    requires Executed(limits, sys, input) ==>
      var cmd := Sequenced(sys.nextSeq, input).value.cmd;
      !Has(limits, sys.books, cmd, Clash) && !Has(limits, sys.books, cmd, Loss)
    ensures var step := Process(limits, sys, input);
      FeedAll(r, step.Events()).Some? && Tracks(step.sys.books, FeedAll(r, step.Events()).value)
  {
    hide Process, Execute, ValidBooks, Tracks, Clashes, LosesOrder, FeedAll, Publishes, Silent;
    ProcessShape(limits, sys, input);
    var evs := Process(limits, sys, input).Events();
    if Executed(limits, sys, input) {
      var sc := Sequenced(sys.nextSeq, input).value;
      TrackCommand(sys.books, r, sc.seqNo, sc.cmd, evs);
    } else {
      SilentChangesNothing(r, evs);
    }
  }

  /** Off the wire, a replace loses its order only under the id of a third order. */
  lemma WireLosesByTakenId(m: Books, frame: Bytes)
    requires ValidBooks(m) && DecodeCommand(frame).Command? && LosesOrder(m, DecodeCommand(frame).cmd)
    ensures var cmd := DecodeCommand(frame).cmd;
      cmd.orderId in m.books[m.index[cmd.cancelOrderId]].orders && cmd.orderId != cmd.cancelOrderId
  {
    hide DecodeCommand, ValidBooks;
    EncodeOfDecode(frame);
    ValidExactly(DecodeCommand(frame).cmd);
  }

  // ---- the index ----

  /** Index entries never point at a book without the order, in any reachable state. */
  lemma {:induction false} IndexIsSound(limits: Limits, start: System, inputs: seq<Input>)
    requires ValidBooks(start.books) && Sound(start.books)
    ensures Sound(RunOf(limits, start, inputs).sys.books)
    decreases |inputs|
  {
    hide Process, Execute, ValidBooks, Sound;
    if inputs != [] {
      var before, input := inputs[..|inputs| - 1], inputs[|inputs| - 1];
      IndexIsSound(limits, start, before);
      var sys := RunOf(limits, start, before).sys;
      ProcessShape(limits, sys, input);
      if Executed(limits, sys, input) {
        var sc := Sequenced(sys.nextSeq, input).value;
        ExecuteSound(sys.books, sc.seqNo, sc.cmd);
      }
    }
  }

  /** One input keeps the index in agreement exactly when it executes no clash and no
      out-of-band replace under a new id. */
  lemma ProcessAgreesExactly(limits: Limits, sys: System, input: Input)
    requires ValidBooks(sys.books) && IndexAgrees(sys.books)
    ensures ValidBooks(Process(limits, sys, input).sys.books)
    ensures IndexAgrees(Process(limits, sys, input).sys.books) <==>
      (Executed(limits, sys, input) ==>
         var cmd := Sequenced(sys.nextSeq, input).value.cmd;
         !Has(limits, sys.books, cmd, Clash) && !Has(limits, sys.books, cmd, Unindex))
  {
    hide Process, Execute, ValidBooks, IndexAgrees, Clashes, Unindexes, Publishes, Silent;
    ProcessShape(limits, sys, input);
    if Executed(limits, sys, input) {
      var sc := Sequenced(sys.nextSeq, input).value;
      ExecuteAgreesExactly(sys.books, sc.seqNo, sc.cmd);
    }
  }

  /** Over every such run the index is the books: an id maps to a symbol exactly when that
      symbol's book holds it. */
  lemma {:induction false} IndexFollows(limits: Limits, start: System, inputs: seq<Input>)
    requires ValidBooks(start.books) && IndexAgrees(start.books)
    requires Avoids(limits, start, inputs, {Clash, Unindex})
    ensures IndexAgrees(RunOf(limits, start, inputs).sys.books)
    decreases |inputs|
  {
    hide Process, Execute, ValidBooks, IndexAgrees, Clashes, Unindexes, Executed;
    if inputs != [] {
      var before, input := inputs[..|inputs| - 1], inputs[|inputs| - 1];
      IndexFollows(limits, start, before);
      assert Clash in {Clash, Unindex} && Unindex in {Clash, Unindex};
      ProcessAgreesExactly(limits, RunOf(limits, start, before).sys, input);
    }
  }

  lemma {:induction false} AvoidsFewer(limits: Limits, start: System, inputs: seq<Input>, hs: set<Hazard>,
                                       fewer: set<Hazard>)
    requires ValidBooks(start.books) && Avoids(limits, start, inputs, hs) && fewer <= hs
    ensures Avoids(limits, start, inputs, fewer)
    decreases |inputs|
  {
    hide Process, RunOf, Executed, Has;
    if inputs != [] { AvoidsFewer(limits, start, inputs[..|inputs| - 1], hs, fewer); }
  }

  /** A new subscriber tracks a new exchange, and no book of theirs is crossed. */
  lemma NewExchangeTracks(maxSymbol: u32, cfg: LadderConfig)
    requires Constructible(maxSymbol, cfg)
    ensures Tracks(EmptyBooks(maxSymbol, cfg), EmptyBooks(maxSymbol, cfg)) && NoneCrossed(EmptyBooks(maxSymbol, cfg))
  {
    hide EmptyBooks, ValidBooks;
    EmptyBooksAgree(maxSymbol, cfg);
    var m := EmptyBooks(maxSymbol, cfg);
    forall s ensures BookUncrossed(m, s) {
      if 0 <= s < |m.books| { assert m.books[s] in m.books; }
    }
  }
}
