/** The risk engine over whole runs: its accounts are the books, and its limit on open orders
    holds. */
module RiskRuns {
  import opened Types
  import opened Totals
  import opened PriceTimeBook
  import opened Books
  import opened Replica
  import opened Commands
  import opened Risk
  import opened RiskAgreement
  import opened RiskCommands
  import opened OpenLimit
  import opened ExchangeSpec
  import opened Runs

  /** In every state of the run, the sums of every account fit the counters. */
  ghost predicate FitsThroughout(limits: Limits, start: System, inputs: seq<Input>)
    requires ValidBooks(start.books)
  {
    && SumsFit(RunOf(limits, start, inputs).sys.books.books)
    && (inputs != [] ==> FitsThroughout(limits, start, inputs[..|inputs| - 1]))
  }

  lemma SameFiguresAgree(xs: map<u32, Account>, ys: map<u32, Account>, books: seq<Book>)
    requires SameFigures(xs, ys) && RiskAgrees(xs, books)
    ensures RiskAgrees(ys, books)
  {
    hide OpenOrders, OpenValue;
    forall a: u32 {:trigger AccountAgrees(ys, books, a)} ensures AccountAgrees(ys, books, a) {
      assert AccountAgrees(xs, books, a) && Get(ys, a).openOrders == Get(xs, a).openOrders;
    }
  }

  /** One input keeps the accounts and the books in agreement exactly when it loses no order,
      fills no forgotten one in part, and the sums still fit the counters. */
  lemma ProcessKeepsRiskExactly(limits: Limits, sys: System, input: Input)
    requires ValidBooks(sys.books) && RiskAgrees(sys.accounts, sys.books.books)
    ensures var next := Process(limits, sys, input).sys;
      RiskAgrees(next.accounts, next.books.books) <==>
        && SumsFit(next.books.books)
        && (Executed(limits, sys, input) ==>
              var cmd := Sequenced(sys.nextSeq, input).value.cmd;
              !Has(limits, sys.books, cmd, Loss) && !Has(limits, sys.books, cmd, Forget))
  {
    hide Process, Execute, ValidBooks, RiskAgrees, SumsFit, LosesOrder, FillsForgotten, Publishes, Silent, SameFigures,
         AccountsAfter;
    ProcessShape(limits, sys, input);
    AgreeingFits(sys.accounts, sys.books.books);
    if Executed(limits, sys, input) {
      var sc := Sequenced(sys.nextSeq, input).value;
      var accounts := Gate(limits, sys, sc).accounts;
      GateKeepsFigures(limits, sys, sc);
      SameFiguresAgree(sys.accounts, accounts, sys.books.books);
      RiskCommand(sys.books, accounts, sc.seqNo, sc.cmd, Process(limits, sys, input).Events());
    } else {
      SameFiguresAgree(sys.accounts, Process(limits, sys, input).sys.accounts, sys.books.books);
    }
  }

  /** Over a run that loses no order and fills no forgotten one in part, each account's open
      orders are its resting orders over all symbols and its open notional is their value. */
  lemma {:induction false} RiskFollows(limits: Limits, start: System, inputs: seq<Input>)
    requires ValidBooks(start.books) && RiskAgrees(start.accounts, start.books.books)
    requires Avoids(limits, start, inputs, {Loss, Forget}) && FitsThroughout(limits, start, inputs)
    ensures var sys := RunOf(limits, start, inputs).sys; RiskAgrees(sys.accounts, sys.books.books)
    decreases |inputs|
  {
    hide Process, Execute, ValidBooks, RiskAgrees, SumsFit, Has, Avoids, Executed;
    if inputs != [] {
      var before, input := inputs[..|inputs| - 1], inputs[|inputs| - 1];
      assert inputs == before + [input];
      AvoidsLast(limits, start, before, input, {Loss, Forget}, Loss);
      AvoidsLast(limits, start, before, input, {Loss, Forget}, Forget);
      RiskFollows(limits, start, before);
      FitsHere(limits, start, inputs);
      ProcessKeepsRiskExactly(limits, RunOf(limits, start, before).sys, input);
    }
  }

  /** A run that keeps the index in agreement fills no forgotten order. */
  lemma {:induction false} IndexedForgetsNothing(limits: Limits, start: System, inputs: seq<Input>)
    requires ValidBooks(start.books) && IndexAgrees(start.books)
    requires Avoids(limits, start, inputs, {Clash, Loss, Unindex})
    ensures Avoids(limits, start, inputs, {Loss, Forget})
    decreases |inputs|
  {
    hide Process, Execute, ValidBooks, IndexAgrees, Gate, Clashes, LosesOrder, Unindexes, FillsForgotten;
    if inputs != [] {
      var before, input := inputs[..|inputs| - 1], inputs[|inputs| - 1];
      IndexedForgetsNothing(limits, start, before);
      AvoidsFewer(limits, start, before, {Clash, Loss, Unindex}, {Clash, Unindex});
      IndexFollows(limits, start, before);
      var sys := RunOf(limits, start, before).sys;
      if Executed(limits, sys, input) {
        var cmd := Sequenced(sys.nextSeq, input).value.cmd;
        AgreeingForgetsNothing(sys.books, cmd);
        assert !Has(limits, sys.books, cmd, Loss) && !Has(limits, sys.books, cmd, Forget);
      }
    }
  }

  lemma FitsHere(limits: Limits, start: System, inputs: seq<Input>)
    requires ValidBooks(start.books) && FitsThroughout(limits, start, inputs)
    ensures SumsFit(RunOf(limits, start, inputs).sys.books.books)
  {}

  // ---- the limit on open orders ----

  /** One input keeps every account within the limit exactly when it executes neither an
      evading replace nor an exceeding new order, whatever the accounts say. */
  lemma ProcessKeepsLimitExactly(limits: Limits, sys: System, input: Input)
    requires ValidBooks(sys.books) && WithinLimit(limits, sys.books.books)
    ensures WithinLimit(limits, Process(limits, sys, input).sys.books.books) <==>
      (Executed(limits, sys, input) ==>
         var cmd := Sequenced(sys.nextSeq, input).value.cmd;
         !Has(limits, sys.books, cmd, Evade) && !Has(limits, sys.books, cmd, Exceed))
  {
    hide Process, Execute, ValidBooks, Evades, Exceeds, WithinLimit, Publishes, Silent, SameFigures, AccountsAfter;
    ProcessShape(limits, sys, input);
    if Executed(limits, sys, input) {
      var sc := Sequenced(sys.nextSeq, input).value;
      LimitStep(limits, sys.books, sc.seqNo, sc.cmd);
    }
  }

  /** Over a run without such commands no account has more open orders than its limit. */
  lemma {:induction false} LimitHolds(limits: Limits, start: System, inputs: seq<Input>)
    requires ValidBooks(start.books) && WithinLimit(limits, start.books.books)
    requires Avoids(limits, start, inputs, {Evade, Exceed})
    ensures WithinLimit(limits, RunOf(limits, start, inputs).sys.books.books)
    decreases |inputs|
  {
    hide Process, ValidBooks, Avoids, Has, WithinLimit, Executed;
    if inputs != [] {
      var before, input := inputs[..|inputs| - 1], inputs[|inputs| - 1];
      assert inputs == before + [input];
      AvoidsLast(limits, start, before, input, {Evade, Exceed}, Evade);
      AvoidsLast(limits, start, before, input, {Evade, Exceed}, Exceed);
      LimitHolds(limits, start, before);
      ProcessKeepsLimitExactly(limits, RunOf(limits, start, before).sys, input);
    }
  }

  lemma OwnOffersAreNatural(b: Book, side: u8, price: i64, a: u32)
    ensures OwnOffers(b, side, price, a) >= 0
  {
    TotalAtLeast(b.orders, OwnOffer(side, price, a));
  }

  /** The gate lets a new order exceed the limit only when its account's counter is behind. */
  lemma ExceedingIsBehind(limits: Limits, sys: System, input: Input)
    requires ValidBooks(sys.books) && Executed(limits, sys, input)
    requires Has(limits, sys.books, Sequenced(sys.nextSeq, input).value.cmd, Exceed)
    ensures var a := Sequenced(sys.nextSeq, input).value.cmd.account;
      Get(sys.accounts, a).openOrders < limits.maxOpenOrders <= OpenOrders(sys.books.books, a)
  {
    hide OpenOrders, InWindow, ValidBooks, OwnOffers;
    var cmd := Sequenced(sys.nextSeq, input).value.cmd;
    OwnOffersAreNatural(sys.books.books[cmd.symbol], cmd.side, cmd.price, cmd.account);
  }

  /** While the accounts agree with the books, it lets none. */
  lemma AgreeingGateHolds(limits: Limits, sys: System, input: Input)
    requires ValidBooks(sys.books) && RiskAgrees(sys.accounts, sys.books.books)
    ensures Executed(limits, sys, input) ==>
      !Has(limits, sys.books, Sequenced(sys.nextSeq, input).value.cmd, Exceed)
  {
    hide OpenOrders, OpenValue, Gate, ValidBooks, Has;
    if Executed(limits, sys, input) && Has(limits, sys.books, Sequenced(sys.nextSeq, input).value.cmd, Exceed) {
      assert AccountAgrees(sys.accounts, sys.books.books, Sequenced(sys.nextSeq, input).value.cmd.account);
      ExceedingIsBehind(limits, sys, input);
    }
  }

  /** Over a run in which the accounts stay in agreement, only an evading replace can pass the
      limit. */
  lemma {:induction false} AgreeingLimitHolds(limits: Limits, start: System, inputs: seq<Input>)
    requires ValidBooks(start.books) && RiskAgrees(start.accounts, start.books.books)
    requires Avoids(limits, start, inputs, {Loss, Forget, Evade}) && FitsThroughout(limits, start, inputs)
    requires WithinLimit(limits, start.books.books)
    ensures WithinLimit(limits, RunOf(limits, start, inputs).sys.books.books)
    decreases |inputs|
  {
    hide Process, ValidBooks, RiskAgrees, SumsFit, Avoids, Has, WithinLimit, Executed;
    if inputs != [] {
      var before, input := inputs[..|inputs| - 1], inputs[|inputs| - 1];
      assert inputs == before + [input];
      AvoidsLast(limits, start, before, input, {Loss, Forget, Evade}, Evade);
      AgreeingLimitHolds(limits, start, before);
      AvoidsFewer(limits, start, before, {Loss, Forget, Evade}, {Loss, Forget});
      RiskFollows(limits, start, before);
      var sys := RunOf(limits, start, before).sys;
      AgreeingGateHolds(limits, sys, input);
      ProcessKeepsLimitExactly(limits, sys, input);
    }
  }

  /** The accounts of a new exchange agree with its empty books. */
  lemma {:induction false} NothingOpen(books: seq<Book>, a: u32)
    requires forall b <- books :: b.orders == map[]
    ensures OpenOrders(books, a) == 0 && OpenValue(books, a) == 0
  {
    if books != [] {
      assert forall b <- books[..|books| - 1] :: b in books;
      assert books[|books| - 1] in books;
      NothingOpen(books[..|books| - 1], a);
    }
  }

  lemma NewExchangeAgrees(limits: Limits, maxSymbol: u32, cfg: LadderConfig)
    requires Constructible(maxSymbol, cfg)
    ensures var sys := StartSystem(maxSymbol, cfg);
      && ValidBooks(sys.books) && IndexAgrees(sys.books) && RiskAgrees(sys.accounts, sys.books.books)
      && SumsFit(sys.books.books) && WithinLimit(limits, sys.books.books)
  {
    EmptyBooksAgree(maxSymbol, cfg);
    var sys := StartSystem(maxSymbol, cfg);
    hide ValidBooks, IndexAgrees, OpenOrders, OpenValue, EmptyBooks;
    forall a: u32
      ensures AccountAgrees(sys.accounts, sys.books.books, a) && AccountFits(sys.books.books, a)
      ensures WithinFor(limits, sys.books.books, a)
    {
      NothingOpen(sys.books.books, a);
    }
  }
}
