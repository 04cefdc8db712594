/** What goes wrong without the hypotheses of the main theorems, on concrete inputs to a new
    exchange. */
module Counterexamples {
  import opened Types
  import opened Totals
  import opened PriceTimeBook
  import opened Checksum
  import opened BookChecksum
  import opened ChecksumWords
  import opened Matching
  import opened MatchTheorems
  import opened Books
  import opened BookManagers
  import opened Replica
  import opened Commands
  import opened Risk
  import opened RiskAgreement
  import opened RiskCommands
  import opened OpenLimit
  import opened OrderSize
  import opened ExchangeSpec
  import opened Runs
  import opened BookRuns
  import opened RateWindow

  const BAND := LadderConfig(1, 10, 0, 0)
  const LIMITS := Limits(100_000, 10_000_000_000, 100_000, 100_000, 1_000_000_000)

  function NewOrder(id: u64, account: u32, symbol: u32, side: u8): ClientCommand {
    ClientCommand(NEW, 0, id, 0, account, symbol, side, 5, 7, GTC, 0)
  }

  function ReplaceOrder(oldId: u64, id: u64, account: u32, price: i64): ClientCommand {
    ClientCommand(REPLACE, 0, id, oldId, account, 1, BUY, price, 7, GTC, 0)
  }

  function CancelOrder(id: u64, account: u32): ClientCommand {
    ClientCommand(CANCEL, 0, 0, id, account, 1, BUY, 0, 0, GTC, 0)
  }

  // ---- orders that rest ----

  /** An order that meets nothing on the other side rests whole. */
  lemma RestsWhole(m: Books, sn: u64, cmd: ClientCommand)
    requires ValidBooks(m) && cmd.typ == NEW && KnownSymbol(m, cmd.symbol) && cmd.qty > 0 && cmd.tif == GTC
    requires var b := m.books[cmd.symbol];
      && b.ladder.InBand(cmd.price) && cmd.orderId !in b.orders
      && forall x <- b.orders :: IsBuy(b.orders[x].side) == IsBuy(cmd.side)
    ensures var b, step := m.books[cmd.symbol], Execute(m, sn, cmd);
      var e := Entry(cmd.account, cmd.side, cmd.price, cmd.qty);
      && Shaped(b) && b.symbol == cmd.symbol && step.out.reject == NO_REJECT && ValidBooks(step.books)
      && step.books == Books(m.books[cmd.symbol := Rest(b, cmd.orderId, e)], m.index[cmd.orderId := cmd.symbol])
      && Rest(b, cmd.orderId, e).orders == b.orders[cmd.orderId := e] && Rest(b, cmd.orderId, e).ladder == b.ladder
      && step.out.events == [MdEvent(sn, ADD_EVENT, cmd.symbol, cmd.orderId, 0, e.account, e.side, e.price, e.qty,
                                     NO_REJECT)]
  {
    ExecuteKeeps(m, sn, cmd);
    BookHere(m, cmd.symbol);
    var b := m.books[cmd.symbol];
    if Best(b, !IsBuy(cmd.side)).Some? { HeadRests(b, !IsBuy(cmd.side)); }
    NoRound(b, cmd.side, cmd.price, cmd.qty);
    RestKeeps(b, cmd.orderId, Entry(cmd.account, cmd.side, cmd.price, cmd.qty));
    var execs := Executions(sn, b.symbol, []);
    hide Match, Shaped, Rest;
    assert execs == [] && m.index - {} - {} == m.index;
  }

  /** No account has had more than `n` messages, or has more than `n` open orders. */
  ghost predicate Quiet(accounts: map<u32, Account>, n: nat) {
    forall a: u32 {:trigger Get(accounts, a)} :: |Get(accounts, a).recent| <= n && Get(accounts, a).openOrders <= n
  }

  lemma {:induction false} WindowShrinks(recent: seq<u64>, now: u64, window: u64)
    ensures |InWindow(recent, now, window)| <= |recent|
    decreases |recent|
  {
    if recent != [] { WindowShrinks(recent[1..], now, window); }
  }

  /** The gate, for the small orders used here. */
  lemma GatePasses(limits: Limits, sys: System, sc: SequencedCommand, n: nat)
    requires Quiet(sys.accounts, n) && n < limits.maxMsgs
    requires sc.cmd.typ == CANCEL || sc.cmd.typ == REPLACE ==> sc.cmd.cancelOrderId in sys.books.index
    requires sc.cmd.typ != CANCEL ==>
      sc.cmd.qty <= limits.maxOrderQty && Notional(sc.cmd.price, sc.cmd.qty) <= limits.maxOrderNotional
    requires sc.cmd.typ == NEW ==> Get(sys.accounts, sc.cmd.account).openOrders < limits.maxOpenOrders
    ensures Gate(limits, sys, sc).reason == NO_REJECT && Quiet(Gate(limits, sys, sc).accounts, n + 1)
  {
    hide InWindow, Notional;
    var accounts := Gate(limits, sys, sc).accounts;
    WindowShrinks(Get(sys.accounts, sc.cmd.account).recent, sc.recvTs, limits.window);
    forall a: u32 {:trigger Get(accounts, a)}
      ensures |Get(accounts, a).recent| <= n + 1 && Get(accounts, a).openOrders <= n + 1
    {
      assert |Get(sys.accounts, a).recent| <= n;
    }
  }

  /** What the next input of a run is sequenced as. */
  function Next(sys: System, cmd: ClientCommand, now: u64): SequencedCommand {
    SequencedCommand(sys.nextSeq, now, cmd)
  }

  /** The exchange's step on a command handed over decoded. */
  ghost function StepOn(limits: Limits, sys: System, cmd: ClientCommand, now: u64): (step: Step)
    requires ValidBooks(sys.books)
    ensures ValidBooks(step.sys.books)
  {
    ProcessKeeps(limits, sys, Direct(cmd, now));
    Process(limits, sys, Direct(cmd, now))
  }

  /** A new order that rests whole, as the exchange receives it. The engine's step and a
      replica's are the same, and one open order is accounted for. */
  lemma NewRests(limits: Limits, sys: System, cmd: ClientCommand, now: u64, n: nat)
    requires ValidBooks(sys.books) && cmd.typ == NEW && KnownSymbol(sys.books, cmd.symbol)
    requires cmd.qty > 0 && cmd.tif == GTC
    requires var b := sys.books.books[cmd.symbol];
      && b.ladder.InBand(cmd.price) && cmd.orderId !in b.orders
      && forall x <- b.orders :: IsBuy(b.orders[x].side) == IsBuy(cmd.side)
    requires Quiet(sys.accounts, n) && n < limits.maxMsgs && n < 10
    requires cmd.qty <= limits.maxOrderQty && Notional(cmd.price, cmd.qty) <= limits.maxOrderNotional
    requires Get(sys.accounts, cmd.account).openOrders < limits.maxOpenOrders
    ensures var step := Process(limits, sys, Direct(cmd, now));
      && ValidBooks(step.sys.books) && step.sys.books == Execute(sys.books, sys.nextSeq, cmd).books
      && Quiet(step.sys.accounts, n + 1) && FeedAll(sys.books, step.Events()) == Some(step.sys.books)
      && (forall a: u32 {:trigger Get(step.sys.accounts, a)} ::
            Get(step.sys.accounts, a).openOrders
              == Get(sys.accounts, a).openOrders + (if a == cmd.account then 1 else 0))
  {
    hide Execute, ValidBooks, Notional, Process, Check, Rest, Shaped;
    var input, sc := Direct(cmd, now), Next(sys, cmd, now);
    GatePasses(limits, sys, sc, n);
    ProcessShape(limits, sys, input);
    RestsWhole(sys.books, sys.nextSeq, cmd);
    var evs := Process(limits, sys, input).Events();
    assert |evs| == 1 && evs[0].typ == ADD_EVENT && evs[0].account == cmd.account && evs[0].orderId == cmd.orderId;
    GateKeepsFigures(limits, sys, sc);
    OneAddition(Gate(limits, sys, sc).accounts, evs, Execute(sys.books, sys.nextSeq, cmd).books.index, n + 1);
    FeedAllOne(sys.books, evs[0]);
    assert evs == [evs[0]];
    assert FeedBooks(sys.books, evs[0]) == FeedAddTo(sys.books, evs[0]);
  }

  lemma OneAddition(accounts: map<u32, Account>, evs: seq<MdEvent>, index: map<u64, u32>, n: nat)
    requires |evs| == 1 && evs[0].typ == ADD_EVENT && Quiet(accounts, n) && n <= 10
    requires Get(accounts, evs[0].account).openOrders < n
    ensures var after := AccountAll(accounts, evs, index);
      && Quiet(after, n)
      && forall a: u32 {:trigger Get(after, a)} ::
           Get(after, a).openOrders == Get(accounts, a).openOrders + (if a == evs[0].account then 1 else 0)
  {
    var after := AccountAll(accounts, evs, index);
    assert evs[1..] == [] && AccountAll(OnMarketData(accounts, evs[0], evs[0].orderId in index), [], index) == after;
    assert after == OnMarketData(accounts, evs[0], evs[0].orderId in index);
    forall a: u32 {:trigger Get(after, a)}
      ensures |Get(after, a).recent| <= n && Get(after, a).openOrders <= n
      ensures Get(after, a).openOrders == Get(accounts, a).openOrders + (if a == evs[0].account then 1 else 0)
    {
      assert |Get(accounts, a).recent| <= n;
    }
  }

  // ---- two orders ----

  /** The exchange after two first inputs. */
  ghost function AfterTwo(limits: Limits, c1: ClientCommand, c2: ClientCommand): Run {
    Band();
    RunOf(limits, StartSystem(2, BAND), [Direct(c1, 1), Direct(c2, 2)])
  }

  /** The books of two symbols before anything rests. */
  ghost predicate NothingRests(m: Books) {
    && |m.books| == 3 && m.index == map[]
    && m.books[0].orders == m.books[1].orders == m.books[2].orders == map[]
    && m.books[1].ladder == m.books[2].ladder == Ladder(1, 10)
  }

  lemma Band()
    ensures Constructible(2, BAND)
    ensures NothingRests(StartSystem(2, BAND).books)
  {
    hide EmptyBooks, ValidBooks, IndexAgrees;
    EmptyAt(0);
    EmptyAt(1);
    EmptyAt(2);
  }

  lemma EmptyAt(s: u32)
    requires s <= 2
    ensures Constructible(2, BAND)
    ensures var m := EmptyBooks(2, BAND);
      |m.books| == 3 && m.index == map[] && m.books[s].orders == map[] && m.books[s].ladder == Ladder(1, 10)
  {}

  /** An order as in the examples: new, small and in band. */
  predicate Plain(limits: Limits, c: ClientCommand) {
    && c.typ == NEW && c.tif == GTC && 1 <= c.symbol <= 2 && c.price == 5 && c.qty == 7
    && 7 <= limits.maxOrderQty && 35 <= limits.maxOrderNotional && 10 <= limits.maxMsgs && 1 <= limits.maxOpenOrders
  }

  function EntryOf(c: ClientCommand): Entry {
    Entry(c.account, c.side, c.price, c.qty)
  }

  /** Two orders of one side rest; a replica that heard the run holds the engine's books and
      index. */
  lemma TwoRest(limits: Limits, c1: ClientCommand, c2: ClientCommand)
    requires Plain(limits, c1) && Plain(limits, c2) && c1.side == c2.side && c1.account != c2.account
    requires c1.symbol == c2.symbol ==> c1.orderId != c2.orderId
    ensures Constructible(2, BAND)
    ensures var run := AfterTwo(limits, c1, c2);
      var m := run.sys.books;
      && ValidBooks(m) && |m.books| == 3 && Quiet(run.sys.accounts, 2)
      && FeedAll(StartSystem(2, BAND).books, run.events) == Some(m)
      && Get(run.sys.accounts, c1.account).openOrders == Get(run.sys.accounts, c2.account).openOrders == 1
      && m.index == map[c1.orderId := c1.symbol][c2.orderId := c2.symbol]
      && m.books[0].orders == map[] && m.books[1].ladder == m.books[2].ladder == Ladder(1, 10)
      && (if c1.symbol == c2.symbol then
            && m.books[c1.symbol].orders == map[c1.orderId := EntryOf(c1)][c2.orderId := EntryOf(c2)]
            && m.books[3 - c1.symbol].orders == map[]
          else
            && m.books[c1.symbol].orders == map[c1.orderId := EntryOf(c1)]
            && m.books[c2.symbol].orders == map[c2.orderId := EntryOf(c2)])
  {
    hide ValidBooks, Execute, Process, StartSystem, RunOf, Journaled, FeedAll, Rest, Shaped;
    Band();
    var s0 := StartSystem(2, BAND);
    var i1, i2 := Direct(c1, 1), Direct(c2, 2);
    StartsQuiet();
    NewRests(limits, s0, c1, 1, 0);
    RestsWhole(s0.books, s0.nextSeq, c1);
    var step := Process(limits, s0, i1);
    var s1 := step.sys;
    assert s1.books.books[c1.symbol].orders == map[c1.orderId := EntryOf(c1)];
    RunStart(limits, s0);
    RunNext(limits, s0, [], i1);
    NewRests(limits, s1, c2, 2, 1);
    RestsWhole(s1.books, s1.nextSeq, c2);
    RunNext(limits, s0, [i1], i2);
    assert [] + [i1] == [i1] && [i1] + [i2] == [i1, i2] && [] + step.Events() == step.Events();
    FeedAllJoins(s0.books, step.Events(), Process(limits, s1, i2).Events());
  }

  lemma RunStart(limits: Limits, start: System)
    requires ValidBooks(start.books)
    ensures RunOf(limits, start, []) == Run(start, [], [])
  {}

  lemma StartsQuiet()
    ensures Constructible(2, BAND)
    ensures var s := StartSystem(2, BAND);
      && Quiet(s.accounts, 0) && s.nextSeq == 1
      && forall a: u32 {:trigger Get(s.accounts, a)} :: Get(s.accounts, a).openOrders == 0
  {
    Band();
    hide EmptyBooks;
  }

  // ---- a clash ----

  const SELL_1 := NewOrder(1, 1, 1, SELL)
  const SELL_2 := NewOrder(1, 2, 2, SELL)

  /** Two symbols, each holding an order under id 1. The duplicate check looks at one book, so
      the second is accepted; the index then knows only the second. */
  lemma TakenElsewhere()
    ensures var m := AfterTwo(LIMITS, SELL_1, SELL_2).sys.books;
      && ValidBooks(m) && |m.books| == 3 && !IndexAgrees(m) && m.index == map[1 := 2]
      && m.books[1].orders == map[1 := Entry(1, SELL, 5, 7)] && m.books[2].orders == map[1 := Entry(2, SELL, 5, 7)]
  {
    hide ValidBooks, IndexAgrees, AfterTwo;
    TwoRest(LIMITS, SELL_1, SELL_2);
    IndexMissesOne(AfterTwo(LIMITS, SELL_1, SELL_2).sys.books);
  }

  lemma IndexMissesOne(m: Books)
    requires ValidBooks(m) && |m.books| == 3 && m.index == map[1 := 2] && 1 in m.books[1].orders
    ensures !IndexAgrees(m)
  {}

  /** A buy then takes symbol 1's order in the engine; a replica that heard everything takes
      symbol 2's away instead, without an error. */
  lemma ClashMisleadsReplica()
    ensures Constructible(2, BAND)
    ensures var before := AfterTwo(LIMITS, SELL_1, SELL_2);
      var step := Process(LIMITS, before.sys, Direct(NewOrder(2, 3, 1, BUY), 3));
      var r := FeedAll(StartSystem(2, BAND).books, before.events + step.Events());
      && r.Some? && |step.sys.books.books| == |r.value.books| == 3
      && step.sys.books.books[1].orders == map[] && 1 in step.sys.books.books[2].orders
      && 1 in r.value.books[1].orders && r.value.books[2].orders == map[]
  {
    hide ValidBooks, AfterTwo, Process, Execute, StartSystem, FeedAll, Check, FeedBooks, AccountsAfter, Silent,
         SameFigures;
    TwoRest(LIMITS, SELL_1, SELL_2);
    TakenElsewhere();
    var before, cmd := AfterTwo(LIMITS, SELL_1, SELL_2), NewOrder(2, 3, 1, BUY);
    var sys := before.sys;
    assert Get(sys.accounts, 3).openOrders <= 2;
    GatePasses(LIMITS, sys, Next(sys, cmd, 3), 2);
    ProcessShape(LIMITS, sys, Direct(cmd, 3));
    FillsWhole(sys.books, sys.nextSeq, cmd);
    var evs := Process(LIMITS, sys, Direct(cmd, 3)).Events();
    assert evs == [evs[0]] && evs[0].typ == EXECUTE_EVENT && evs[0].orderId == 1 && evs[0].qty == 7;
    FeedAllOne(sys.books, evs[0]);
    FeedAllJoins(StartSystem(2, BAND).books, before.events, evs);
    Misfeeds(sys.books, evs[0]);
  }

  /** A buy that takes the one order of symbol 1 whole. */
  lemma FillsWhole(m: Books, sn: u64, cmd: ClientCommand)
    requires ValidBooks(m) && |m.books| == 3 && m.books[1].orders == map[1 := Entry(1, SELL, 5, 7)]
    requires cmd == NewOrder(2, 3, 1, BUY) && m.books[1].ladder == Ladder(1, 10)
    ensures var step := Execute(m, sn, cmd);
      && step.out.reject == NO_REJECT && step.out.events == [Execution(sn, 1, Fill(1, Entry(1, SELL, 5, 7), 7))]
      && |step.books.books| == 3 && step.books.books[1].orders == map[] && step.books.books[2] == m.books[2]
  {
    BookHere(m, 1);
    var b := m.books[1];
    BestBounds(b, false, 1);
    HeadRests(b, false);
    var f, next, rest := Round(b, BUY, 5, 7);
    NoRound(next, BUY, 5, 0);
    DropKeeps(b, 1);
    hide Match, Shaped, Drop, Best, ValidBooks;
    assert b.orders - {1} == map[];
    assert Executions(sn, 1, [f] + []) == [Execution(sn, 1, f)];
  }

  lemma Misfeeds(m: Books, ev: MdEvent)
    requires ValidBooks(m) && |m.books| == 3 && m.index == map[1 := 2] && 1 in m.books[1].orders
    requires m.books[2].orders == map[1 := Entry(2, SELL, 5, 7)]
    requires ev.typ == EXECUTE_EVENT && ev.orderId == 1 && ev.qty == 7
    ensures FeedBooks(m, ev).Some?
    ensures var r := FeedBooks(m, ev).value; |r.books| == 3 && r.books[1] == m.books[1] && r.books[2].orders == map[]
  {
    BookHere(m, 2);
    DropKeeps(m.books[2], 1);
    hide Shaped, Drop;
    assert m.books[2].orders - {1} == map[];
  }

  // ---- a lost order ----

  const BUY_1 := NewOrder(1, 1, 1, BUY)
  const BUY_2 := NewOrder(2, 2, 1, BUY)

  lemma TwoBuys(limits: Limits)
    requires Plain(limits, BUY_1)
    ensures Constructible(2, BAND)
    ensures var run := AfterTwo(limits, BUY_1, BUY_2);
      var m := run.sys.books;
      && ValidBooks(m) && IndexAgrees(m) && |m.books| == 3 && m.index == map[1 := 1, 2 := 1]
      && Quiet(run.sys.accounts, 2)
      && FeedAll(StartSystem(2, BAND).books, run.events) == Some(m)
      && Get(run.sys.accounts, 1).openOrders == Get(run.sys.accounts, 2).openOrders == 1
      && m.books[0].orders == m.books[2].orders == map[] && m.books[1].ladder == Ladder(1, 10)
      && m.books[1].orders == map[1 := Entry(1, BUY, 5, 7), 2 := Entry(2, BUY, 5, 7)]
  {
    hide ValidBooks, IndexAgrees, AfterTwo, StartSystem, FeedAll;
    TwoRest(limits, BUY_1, BUY_2);
    TwoIndexed(AfterTwo(limits, BUY_1, BUY_2).sys.books);
  }

  lemma TwoIndexed(m: Books)
    requires ValidBooks(m) && |m.books| == 3 && m.books[0].orders == m.books[2].orders == map[]
    requires m.index == map[1 := 1, 2 := 1] && m.books[1].orders.Keys == {1, 2}
    ensures IndexAgrees(m)
  {}

  /** The books in which two buys rest. */
  ghost predicate BothRest(m: Books) {
    && ValidBooks(m) && |m.books| == 3 && m.index == map[1 := 1, 2 := 1] && m.books[1].ladder == Ladder(1, 10)
    && m.books[0].orders == m.books[2].orders == map[]
    && m.books[1].orders == map[1 := Entry(1, BUY, 5, 7), 2 := Entry(2, BUY, 5, 7)]
  }

  lemma LossyStep(m: Books, sn: u64)
    requires BothRest(m)
    ensures ValidBooks(m) && LosesOrder(m, ReplaceOrder(1, 2, 1, 5))
    ensures var step := Execute(m, sn, ReplaceOrder(1, 2, 1, 5));
      && step.out.reject == DUPLICATE_ORDER && |step.books.books| == 3
      && step.books.books[0] == m.books[0] && step.books.books[2] == m.books[2]
      && step.books.books[1].orders == map[2 := Entry(2, BUY, 5, 7)]
  {
    BookHere(m, 1);
    DropKeeps(m.books[1], 1);
    hide Shaped, Drop;
    assert m.books[1].orders - {1} == map[2 := Entry(2, BUY, 5, 7)];
  }

  /** Two buys of symbol 1 rest. A replace of the first under the second's id cancels the first
      and is rejected; nothing but the reject is published. A replica that heard everything
      holds the order still, and so does its account. */
  lemma ReplaceLosesOrder()
    ensures Constructible(2, BAND)
    ensures var before := AfterTwo(LIMITS, BUY_1, BUY_2);
      var step := Process(LIMITS, before.sys, Direct(ReplaceOrder(1, 2, 1, 5), 3));
      var r := FeedAll(StartSystem(2, BAND).books, before.events + step.Events());
      && |step.Events()| == 1 && step.Events()[0].typ == REJECT_EVENT
      && |step.sys.books.books| == 3 && step.sys.books.books[1].orders == map[2 := Entry(2, BUY, 5, 7)]
      && r == Some(before.sys.books) && |before.sys.books.books| == 3 && 1 in before.sys.books.books[1].orders
      && Get(step.sys.accounts, 1).openOrders == 1 && OpenOrders(step.sys.books.books, 1) == 0
  {
    hide ValidBooks, AfterTwo, Process, Execute, StartSystem, FeedAll, Check, AccountsAfter, Silent, OpenOrders,
         LosesOrder;
    TwoBuys(LIMITS);
    var before, cmd := AfterTwo(LIMITS, BUY_1, BUY_2), ReplaceOrder(1, 2, 1, 5);
    var sys := before.sys;
    GatePasses(LIMITS, sys, Next(sys, cmd, 3), 2);
    ProcessShape(LIMITS, sys, Direct(cmd, 3));
    LossyStep(sys.books, sys.nextSeq);
    var step := Process(LIMITS, sys, Direct(cmd, 3));
    SilentChangesNothing(sys.books, step.Events());
    FeedAllJoins(StartSystem(2, BAND).books, before.events, step.Events());
    GateKeepsFigures(LIMITS, sys, Next(sys, cmd, 3));
    RejectedAccounts(Gate(LIMITS, sys, Next(sys, cmd, 3)).accounts, Execute(sys.books, sys.nextSeq, cmd),
                     step.Events());
    NoneOf(step.sys.books.books, 1);
  }

  lemma RejectedAccounts(accounts: map<u32, Account>, step: BooksStep, evs: seq<MdEvent>)
    requires step.out.reject != NO_REJECT
    ensures AccountsAfter(accounts, step, evs) == accounts
  {}

  lemma {:induction false} NoneOf(books: seq<Book>, a: u32)
    requires forall b <- books :: forall id <- b.orders :: b.orders[id].account != a
    ensures OpenOrders(books, a) == 0
  {
    if books != [] {
      var n := |books| - 1;
      assert books[n] in books && forall b <- books[..n] :: b in books;
      TotalZero(books[n].orders, CountFor(a));
      NoneOf(books[..n], a);
    }
  }

  // ---- a forgotten order ----

  /** A replace of order 1 out of band under the new id 3. */
  lemma ForgettingStep(m: Books, sn: u64)
    requires ValidBooks(m) && |m.books| == 3 && 1 in m.index && m.index[1] == 1 && m.books[1].ladder == Ladder(1, 10)
    requires 1 in m.books[1].orders && 3 !in m.books[1].orders
    ensures Unindexes(m, ReplaceOrder(1, 3, 1, 99))
    ensures var step := Execute(m, sn, ReplaceOrder(1, 3, 1, 99));
      step.out.reject == INVALID_PRICE && step.books == Books(m.books, m.index - {1})
  {
    BookHere(m, 1);
    hide Shaped;
  }

  /** A replace out of band under a new id is rejected and keeps the order, but the index
      forgets it: its owner's cancellation is then rejected as of an unknown order. */
  lemma OutOfBandForgets()
    ensures Constructible(2, BAND)
    ensures var before := AfterTwo(LIMITS, BUY_1, BUY_2).sys;
      var after := StepOn(LIMITS, before, ReplaceOrder(1, 3, 1, 99), 3);
      var last := StepOn(LIMITS, after.sys, CancelOrder(1, 1), 4);
      && after.result.Some? && after.result.value.ack.reason == INVALID_PRICE && !IndexAgrees(after.sys.books)
      && last.result.Some? && last.result.value.ack.reason == UNKNOWN_ORDER
      && |last.sys.books.books| == 3 && 1 in last.sys.books.books[1].orders
  {
    hide ValidBooks, AfterTwo, Process, Execute, StartSystem, FeedAll, Check, AccountsAfter, Silent, IndexAgrees,
         InWindow;
    TwoBuys(LIMITS);
    var sys, cmd := AfterTwo(LIMITS, BUY_1, BUY_2).sys, ReplaceOrder(1, 3, 1, 99);
    GatePasses(LIMITS, sys, Next(sys, cmd, 3), 2);
    ProcessShape(LIMITS, sys, Direct(cmd, 3));
    ForgettingStep(sys.books, sys.nextSeq);
    var after := Process(LIMITS, sys, Direct(cmd, 3));
    RefusalIsAnswered(LIMITS, sys, cmd, 3);
    GateRecent(LIMITS, sys, Next(sys, cmd, 3), 1);
    RejectedAccounts(Gate(LIMITS, sys, Next(sys, cmd, 3)).accounts, Execute(sys.books, sys.nextSeq, cmd),
                     after.Events());
    MissesOne(after.sys.books);
    CancelUnknown(LIMITS, after.sys, CancelOrder(1, 1), 4);
  }

  lemma MissesOne(m: Books)
    requires ValidBooks(m) && |m.books| == 3 && 1 in m.books[1].orders && 1 !in m.index
    ensures !IndexAgrees(m)
  {}

  /** A command that passes the gate and is rejected is answered with the reason. */
  lemma RefusalIsAnswered(limits: Limits, sys: System, cmd: ClientCommand, now: u64)
    requires ValidBooks(sys.books) && Executes(limits, sys, Next(sys, cmd, now))
    requires Execute(sys.books, sys.nextSeq, cmd).out.reject != NO_REJECT
    ensures var r := Process(limits, sys, Direct(cmd, now)).result;
      r.Some? && r.value.ack.reason == Execute(sys.books, sys.nextSeq, cmd).out.reject
  {
    hide Execute, Check, ValidBooks, HashReject, SymbolExists;
  }

  /** A cancellation of an order the index does not hold goes no further than the gate. */
  lemma CancelUnknown(limits: Limits, sys: System, cmd: ClientCommand, now: u64)
    requires ValidBooks(sys.books) && cmd.typ == CANCEL && cmd.cancelOrderId !in sys.books.index
    requires |Get(sys.accounts, cmd.account).recent| < limits.maxMsgs
    ensures var step := Process(limits, sys, Direct(cmd, now));
      step.sys.books == sys.books && step.result.Some? && step.result.value.ack.reason == UNKNOWN_ORDER
  {
    hide Perform, ValidBooks, HashReject, InWindow;
    WindowShrinks(Get(sys.accounts, cmd.account).recent, now, limits.window);
  }

  // ---- a limit evaded ----

  const ONE_EACH := Limits(100_000, 10_000_000_000, 1, 100_000, 1_000_000_000)

  lemma EvadingStep(m: Books, sn: u64)
    requires BothRest(m)
    ensures var step := Execute(m, sn, ReplaceOrder(1, 3, 2, 5));
      && step.out.reject == NO_REJECT && |step.books.books| == 3
      && step.books.books[0] == m.books[0] && step.books.books[2] == m.books[2]
      && step.books.books[1].orders == map[2 := Entry(2, BUY, 5, 7), 3 := Entry(2, BUY, 5, 7)]
  {
    BookHere(m, 1);
    var b := m.books[1];
    DropKeeps(b, 1);
    var d := Drop(b, 1);
    assert d.orders == map[2 := Entry(2, BUY, 5, 7)];
    if Best(d, false).Some? { HeadRests(d, false); }
    NoRound(d, BUY, 5, 7);
    RestKeeps(d, 3, Entry(2, BUY, 5, 7));
    hide Match, Shaped, Rest, Drop, ValidBooks;
    assert Execute(m, sn, ReplaceOrder(1, 3, 2, 5)).books.books[1] == Rest(d, 3, Entry(2, BUY, 5, 7));
  }

  /** With a limit of one open order, two accounts are at it. A new order of the second is
      refused; a replace of the first's order is accepted and leaves the second with two. */
  lemma ReplaceEvadesLimit()
    ensures var before := AfterTwo(ONE_EACH, BUY_1, BUY_2).sys;
      var refused := Process(ONE_EACH, before, Direct(NewOrder(3, 2, 1, BUY), 3));
      var taken := Process(ONE_EACH, before, Direct(ReplaceOrder(1, 3, 2, 5), 3));
      && refused.result.Some? && refused.result.value.ack.reason == RISK_OPEN_ORDERS
      && |taken.sys.books.books| == 3 && OpenOrders(taken.sys.books.books, 2) == 2
      && !WithinLimit(ONE_EACH, taken.sys.books.books)
  {
    hide ValidBooks, AfterTwo, Process, Execute, StartSystem, FeedAll, Check, AccountsAfter, Silent, OpenOrders,
         IndexAgrees;
    TwoBuys(ONE_EACH);
    var sys, cmd := AfterTwo(ONE_EACH, BUY_1, BUY_2).sys, ReplaceOrder(1, 3, 2, 5);
    NewRefused(ONE_EACH, sys, NewOrder(3, 2, 1, BUY), 3);
    GatePasses(ONE_EACH, sys, Next(sys, cmd, 3), 2);
    ProcessShape(ONE_EACH, sys, Direct(cmd, 3));
    EvadingStep(sys.books, sys.nextSeq);
    var books := Process(ONE_EACH, sys, Direct(cmd, 3)).sys.books.books;
    TwoOpen(books);
    assert !WithinFor(ONE_EACH, books, 2);
  }

  lemma TwoOpen(books: seq<Book>)
    requires |books| == 3 && books[0].orders == books[2].orders == map[]
    requires books[1].orders == map[2 := Entry(2, BUY, 5, 7), 3 := Entry(2, BUY, 5, 7)]
    ensures OpenOrders(books, 2) == 2
  {
    var one: map<u64, Entry> := map[2 := Entry(2, BUY, 5, 7)];
    TotalPut(map[], 2, Entry(2, BUY, 5, 7), CountFor(2));
    TotalPut(one, 3, Entry(2, BUY, 5, 7), CountFor(2));
    assert one[3 := Entry(2, BUY, 5, 7)] == books[1].orders;
    assert books[..2][..1] == books[..1] && books[..1][..0] == [];
    assert SumOver(books[..1], CountFor(2)) == 0;
    assert SumOver(books[..2], CountFor(2)) == 2;
  }

  /** A new order at the limit goes no further than the gate. */
  lemma NewRefused(limits: Limits, sys: System, cmd: ClientCommand, now: u64)
    requires ValidBooks(sys.books) && Quiet(sys.accounts, 2) && 2 < limits.maxMsgs && cmd.typ == NEW
    requires cmd.qty <= limits.maxOrderQty && Notional(cmd.price, cmd.qty) <= limits.maxOrderNotional
    requires Get(sys.accounts, cmd.account).openOrders >= limits.maxOpenOrders
    ensures var r := Process(limits, sys, Direct(cmd, now)).result; r.Some? && r.value.ack.reason == RISK_OPEN_ORDERS
  {
    hide Perform, ValidBooks, HashReject, InWindow, Notional;
    assert |Get(sys.accounts, cmd.account).recent| <= 2;
    WindowShrinks(Get(sys.accounts, cmd.account).recent, now, limits.window);
  }

  // ---- a counter behind the books ----

  const BUY_SEVEN := NewOrder(1, 1, 1, BUY)
  const SELL_THREE := ClientCommand(NEW, 0, 2, 0, 3, 1, SELL, 5, 3, GTC, 0)

  /** The exchange after one buy, which a replace out of band then makes it forget. */
  ghost function AfterForgetting(limits: Limits): (r: Run)
    ensures ValidBooks(r.sys.books)
  {
    Band();
    RunOf(limits, StartSystem(2, BAND), [Direct(BUY_SEVEN, 1), Direct(ReplaceOrder(1, 3, 1, 99), 2)])
  }

  /** One order of account 1 rests, all there is. */
  ghost predicate OneRests(m: Books, qty: u32) {
    && ValidBooks(m) && |m.books| == 3 && m.books[1].ladder == Ladder(1, 10)
    && m.books[0].orders == m.books[2].orders == map[] && m.books[1].orders == map[1 := Entry(1, BUY, 5, qty)]
  }

  lemma OneForgotten()
    ensures var sys := AfterForgetting(ONE_EACH).sys;
      && OneRests(sys.books, 7) && sys.books.index == map[] && Quiet(sys.accounts, 2)
      && forall a: u32 {:trigger Get(sys.accounts, a)} ::
           Get(sys.accounts, a).openOrders == if a == 1 then 1 else 0
  {
    hide ValidBooks, Execute, Process, StartSystem, RunOf, Journaled, FeedAll, Rest, Shaped, Check, Silent;
    Band();
    StartsQuiet();
    var s0, cmd := StartSystem(2, BAND), ReplaceOrder(1, 3, 1, 99);
    var i1, i2 := Direct(BUY_SEVEN, 1), Direct(cmd, 2);
    RunStart(ONE_EACH, s0);
    NewRests(ONE_EACH, s0, BUY_SEVEN, 1, 0);
    RestsWhole(s0.books, s0.nextSeq, BUY_SEVEN);
    RunNext(ONE_EACH, s0, [], i1);
    var s1 := Process(ONE_EACH, s0, i1).sys;
    GatePasses(ONE_EACH, s1, Next(s1, cmd, 2), 1);
    ProcessShape(ONE_EACH, s1, i2);
    ForgettingStep(s1.books, s1.nextSeq);
    GateKeepsFigures(ONE_EACH, s1, Next(s1, cmd, 2));
    RejectedAccounts(Gate(ONE_EACH, s1, Next(s1, cmd, 2)).accounts, Execute(s1.books, s1.nextSeq, cmd),
                     Process(ONE_EACH, s1, i2).Events());
    RunNext(ONE_EACH, s0, [i1], i2);
    assert [] + [i1] == [i1] && [i1] + [i2] == [i1, i2];
    assert map[1 := 1] - {1} == map[];
  }

  /** A sale of three of the one order that rests. */
  lemma FillsInPart(m: Books, sn: u64)
    requires OneRests(m, 7) && m.index == map[]
    ensures var step := Execute(m, sn, SELL_THREE);
      && OneRests(step.books, 4) && step.books.index == map[] && FillsForgotten(m, SELL_THREE)
      && step.out.reject == NO_REJECT && step.out.events == [Execution(sn, 1, Fill(1, Entry(1, BUY, 5, 7), 3))]
  {
    ExecuteKeeps(m, sn, SELL_THREE);
    BookHere(m, 1);
    var b := m.books[1];
    BestBounds(b, true, 1);
    HeadRests(b, true);
    var f, next, rest := Round(b, SELL, 5, 3);
    NoRound(next, SELL, 5, 0);
    hide Match, Shaped, Drop, Best, ValidBooks;
    assert next.orders == map[1 := Entry(1, BUY, 5, 4)];
    assert Executions(sn, 1, [f] + []) == [Execution(sn, 1, f)];
    assert f in FillsIn(b, SELL_THREE) && Forgotten(m.index, f);
  }

  lemma OneOpen(books: seq<Book>, qty: u32, a: u32)
    requires |books| == 3 && books[0].orders == books[2].orders == map[]
    requires books[1].orders == map[1 := Entry(1, BUY, 5, qty)]
    ensures OpenOrders(books, a) == if a == 1 then 1 else 0
  {
    TotalPut(map[], 1, Entry(1, BUY, 5, qty), CountFor(a));
    assert books[..2][..1] == books[..1] && books[..1][..0] == [];
    assert SumOver(books[..1], CountFor(a)) == 0;
    assert SumOver(books[..2], CountFor(a)) == if a == 1 then 1 else 0;
  }

  /** A sale fills the forgotten order in part. The index does not hold it, so its account is
      taken to have lost it: the counter was right before the sale and is not after. */
  lemma CounterFallsBehind()
    ensures var before := AfterForgetting(ONE_EACH).sys;
      var after := StepOn(ONE_EACH, before, SELL_THREE, 3).sys;
      && Get(before.accounts, 1).openOrders == OpenOrders(before.books.books, 1) == 1
      && Get(after.accounts, 1).openOrders == 0 && OpenOrders(after.books.books, 1) == 1
      && OneRests(after.books, 4) && Quiet(after.accounts, 3) && WithinLimit(ONE_EACH, after.books.books)
  {
    hide ValidBooks, Execute, Process, AfterForgetting, Check, OpenOrders, Silent;
    OneForgotten();
    var sys := AfterForgetting(ONE_EACH).sys;
    var input, sc := Direct(SELL_THREE, 3), Next(sys, SELL_THREE, 3);
    assert Get(sys.accounts, 3).openOrders == 0;
    GatePasses(ONE_EACH, sys, sc, 2);
    ProcessShape(ONE_EACH, sys, input);
    FillsInPart(sys.books, sys.nextSeq);
    GateKeepsFigures(ONE_EACH, sys, sc);
    var step := Process(ONE_EACH, sys, input);
    OneExecution(Gate(ONE_EACH, sys, sc).accounts, step.Events(), step.sys.books.index, 3);
    OneOpen(sys.books.books, 7, 1);
    var books := step.sys.books.books;
    forall a: u32 {:trigger WithinFor(ONE_EACH, books, a)} ensures WithinFor(ONE_EACH, books, a) {
      OneOpen(books, 4, a);
    }
    OneOpen(books, 4, 1);
  }

  lemma OneExecution(accounts: map<u32, Account>, evs: seq<MdEvent>, index: map<u64, u32>, n: nat)
    requires |evs| == 1 && evs[0].typ == EXECUTE_EVENT && evs[0].orderId !in index && Quiet(accounts, n)
    ensures var after := AccountAll(accounts, evs, index);
      && Quiet(after, n)
      && Get(after, evs[0].account).openOrders == SubFloor(Get(accounts, evs[0].account).openOrders, 1)
  {
    hide Notional;
    var after := AccountAll(accounts, evs, index);
    assert evs[1..] == [] && AccountAll(OnMarketData(accounts, evs[0], false), [], index) == after;
    assert after == OnMarketData(accounts, evs[0], false);
    forall a: u32 {:trigger Get(after, a)} ensures |Get(after, a).recent| <= n && Get(after, a).openOrders <= n {
      assert |Get(accounts, a).recent| <= n;
    }
  }

  /** The gate then lets a new order of that account through, although it has as many as its
      limit allows: afterwards it has one more. */
  lemma NewExceedsLimit()
    ensures var before := StepOn(ONE_EACH, AfterForgetting(ONE_EACH).sys, SELL_THREE, 3).sys;
      var after := StepOn(ONE_EACH, before, NewOrder(4, 1, 1, BUY), 4).sys;
      && WithinLimit(ONE_EACH, before.books.books)
      && OpenOrders(after.books.books, 1) == 2 && !WithinLimit(ONE_EACH, after.books.books)
  {
    hide ValidBooks, Execute, Process, AfterForgetting, Check, OpenOrders, FeedAll, WithinLimit, Rest, Shaped;
    CounterFallsBehind();
    var sys, cmd := StepOn(ONE_EACH, AfterForgetting(ONE_EACH).sys, SELL_THREE, 3).sys, NewOrder(4, 1, 1, BUY);
    NewRests(ONE_EACH, sys, cmd, 4, 3);
    RestsWhole(sys.books, sys.nextSeq, cmd);
    var books := Process(ONE_EACH, sys, Direct(cmd, 4)).sys.books.books;
    TwoOfOne(books);
  }

  lemma TwoOfOne(books: seq<Book>)
    requires |books| == 3 && books[0].orders == books[2].orders == map[]
    requires books[1].orders == map[1 := Entry(1, BUY, 5, 4)][4 := Entry(1, BUY, 5, 7)]
    ensures OpenOrders(books, 1) == 2 && !WithinLimit(ONE_EACH, books)
  {
    var one: map<u64, Entry> := map[1 := Entry(1, BUY, 5, 4)];
    TotalPut(map[], 1, Entry(1, BUY, 5, 4), CountFor(1));
    TotalPut(one, 4, Entry(1, BUY, 5, 7), CountFor(1));
    assert books[..2][..1] == books[..1] && books[..1][..0] == [];
    assert SumOver(books[..1], CountFor(1)) == 0;
    assert SumOver(books[..2], CountFor(1)) == 2;
    assert !WithinFor(ONE_EACH, books, 1);
  }

  // ---- a value that wraps ----

  const HIGH := LadderConfig(0x1_0000_0000_0000, 0x1_0000_0000_0000, 0, 0)
  const DEAR := ClientCommand(NEW, 0, 1, 0, 1, 1, BUY, 0x1_0000_0000_0000, 0x1_0000, GTC, 0)

  lemma HighBand()
    ensures Constructible(1, HIGH)
    ensures var sys := StartSystem(1, HIGH);
      && |sys.books.books| == 2 && sys.books.books[1].orders == map[] && sys.accounts == map[]
      && sys.books.books[1].ladder == Ladder(0x1_0000_0000_0000, 0x1_0000_0000_0000)
  {}

  /** Price times quantity is 2^64 and wraps to zero: the order passes every limit, and rests. */
  lemma NotionalWraps()
    ensures Constructible(1, HIGH)
    ensures var sys := RunOf(LIMITS, StartSystem(1, HIGH), [Direct(DEAR, 1)]).sys;
      && |sys.books.books| == 2 && sys.books.books[1].orders == map[1 := Entry(1, BUY, 0x1_0000_0000_0000, 0x1_0000)]
      && 0x1_0000_0000_0000 * 0x1_0000 > LIMITS.maxOrderNotional && !AllOf(Valued(LIMITS), sys.books)
  {
    hide ValidBooks, Execute, Process, StartSystem, RunOf, Journaled, FeedAll, Rest, Shaped;
    HighBand();
    var s0 := StartSystem(1, HIGH);
    assert Notional(DEAR.price, DEAR.qty) == 0;
    NewRests(LIMITS, s0, DEAR, 1, 0);
    RestsWhole(s0.books, s0.nextSeq, DEAR);
    RunStart(LIMITS, s0);
    RunNext(LIMITS, s0, [], Direct(DEAR, 1));
    assert [] + [Direct(DEAR, 1)] == [Direct(DEAR, 1)];
    var m := Process(LIMITS, s0, Direct(DEAR, 1)).sys.books;
    assert !BookOf(Valued(LIMITS), m, 1) by { assert 1 in m.books[1].orders; }
  }

  // ---- a side that is not hashed ----

  /** The exchange after one input. */
  ghost function AfterOne(c: ClientCommand): Run {
    Band();
    RunOf(LIMITS, StartSystem(2, BAND), [Direct(c, 1)])
  }

  lemma OneRestsThere(c: ClientCommand)
    requires Plain(LIMITS, c) && c.symbol == 1 && c.orderId == 1
    ensures var m, empty := AfterOne(c).sys.books, EmptyBook(1, Ladder(1, 10));
      && |m.books| == 3 && m.books[1] == Rest(empty, 1, EntryOf(c)) && m.books[2] == EmptyBook(2, Ladder(1, 10))
  {
    hide ValidBooks, Execute, Process, StartSystem, RunOf, Journaled, FeedAll, Rest, Shaped;
    Band();
    StartsQuiet();
    EmptiesAre();
    var s0, i1 := StartSystem(2, BAND), Direct(c, 1);
    RunStart(LIMITS, s0);
    NewRests(LIMITS, s0, c, 1, 0);
    RestsWhole(s0.books, s0.nextSeq, c);
    RunNext(LIMITS, s0, [], i1);
    assert [] + [i1] == [i1];
  }

  lemma EmptiesAre()
    ensures Constructible(2, BAND)
    ensures var m := StartSystem(2, BAND).books;
      && |m.books| == 3
      && m.books[1] == EmptyBook(1, Ladder(1, 10)) && m.books[2] == EmptyBook(2, Ladder(1, 10))
  {
    hide EmptyBook;
  }

  /** One buy on one exchange, one sell of the same terms on another: the books differ, and their
      checksums do not. */
  lemma SideIsNotHashed()
    ensures var bought, sold := AfterOne(BUY_1).sys.books, AfterOne(NewOrder(1, 1, 1, SELL)).sys.books;
      && |bought.books| == |sold.books| == 3 && bought.books != sold.books
      && BooksHash(bought.books, 2) == BooksHash(sold.books, 2)
  {
    hide AfterOne, Rest, EmptyBook, BookHash;
    OneRestsThere(BUY_1);
    OneRestsThere(NewOrder(1, 1, 1, SELL));
    LoneOrderHasNoSide(1, Ladder(1, 10), 1, 1, 5, 7);
    SidesDiffer();
    FoldOfTwo(AfterOne(BUY_1).sys.books.books, AfterOne(NewOrder(1, 1, 1, SELL)).sys.books.books);
  }

  lemma SidesDiffer()
    ensures var none := EmptyBook(1, Ladder(1, 10));
      Rest(none, 1, Entry(1, BUY, 5, 7)) != Rest(none, 1, Entry(1, SELL, 5, 7))
  {
    var none := EmptyBook(1, Ladder(1, 10));
    assert Rest(none, 1, Entry(1, BUY, 5, 7)).orders[1].side != Rest(none, 1, Entry(1, SELL, 5, 7)).orders[1].side;
  }

  lemma FoldOfTwo(books: seq<Book>, books': seq<Book>)
    requires |books| == |books'| == 3 && BookHash(books[1]) == BookHash(books'[1]) && books[2] == books'[2]
    ensures BooksHash(books, 2) == BooksHash(books', 2)
  {
    hide BookHash, HashCombine;
    assert BooksHash(books, 1) == BooksHash(books', 1);
  }

  // ---- a clock that goes back ----

  const TWO_IN_TEN := Limits(0, 0, 0, 2, 10)

  function At(now: u64): Input {
    Direct(CancelOrder(1, 1), now)
  }

  /** After these inputs the window of account 1 holds `recent`, and `times` have passed. */
  ghost predicate Passed(start: System, inputs: seq<Input>, recent: seq<u64>, times: seq<u64>)
    requires ValidBooks(start.books)
  {
    && Get(RunOf(TWO_IN_TEN, start, inputs).sys.accounts, 1).recent == recent
    && PassTimes(TWO_IN_TEN, start, inputs, 1) == times
  }

  /** One more message of account 1 that passes. */
  lemma PassesNext(start: System, before: seq<Input>, now: u64, recent: seq<u64>, r: seq<u64>, times: seq<u64>)
    requires ValidBooks(start.books) && Passed(start, before, recent, times)
    requires InWindow(recent, now, 10) == r && |r| < 2
    ensures Passed(start, before + [At(now)], r + [now], times + [now])
  {
    hide ValidBooks, Process, RunOf, InWindow, Passes, Journaled;
    RecentAfter(TWO_IN_TEN, RunOf(TWO_IN_TEN, start, before).sys, At(now), 1);
    RunNext(TWO_IN_TEN, start, before, At(now));
    assert (before + [At(now)])[..|before|] == before;
  }

  /** With a clock that goes back, more messages pass in a window than the limit allows: three
      between 100 and 110 where two are allowed. */
  lemma ClockGoesBack()
    ensures Constructible(2, BAND)
    ensures var times := PassTimes(TWO_IN_TEN, StartSystem(2, BAND), [At(100), At(100), At(111), At(100)], 1);
      times == [100, 100, 111, 100] && CountIn(times, 100, 110) == 3
  {
    hide RunOf, PassTimes, StartSystem, InWindow, CountIn;
    StartsQuiet();
    CountOfFour();
    var s := StartSystem(2, BAND);
    RunStart(TWO_IN_TEN, s);
    NonePassed(s);
    assert Passed(s, [], [], []);
    FourPass(s);
  }

  lemma FourPass(s: System)
    requires ValidBooks(s.books) && Passed(s, [], [], [])
    ensures Passed(s, [At(100), At(100), At(111), At(100)], [111, 100], [100, 100, 111, 100])
  {
    hide Passed, InWindow, ValidBooks;
    Windows();
    var one, two, three := [At(100)], [At(100), At(100)], [At(100), At(100), At(111)];
    PassesNext(s, [], 100, [], [], []);
    assert [] + [At(100)] == one && [] + [100] == [100];
    PassesNext(s, one, 100, [100], [100], [100]);
    assert one + [At(100)] == two && [100] + [100] == [100, 100];
    PassesNext(s, two, 111, [100, 100], [], [100, 100]);
    assert two + [At(111)] == three && [] + [111] == [111] && [100, 100] + [111] == [100, 100, 111];
    PassesNext(s, three, 100, [111], [111], [100, 100, 111]);
    assert three + [At(100)] == [At(100), At(100), At(111), At(100)] && [111] + [100] == [111, 100];
    assert [100, 100, 111] + [100] == [100, 100, 111, 100];
  }

  /** The window before each of the four messages. */
  lemma Windows()
    ensures InWindow([], 100, 10) == [] && InWindow([100], 100, 10) == [100]
    ensures InWindow([100, 100], 111, 10) == [] && InWindow([111], 100, 10) == [111]
  {
    assert [100, 100][1..] == [100] && [100][1..] == [];
    assert InWindow([100], 111, 10) == [];
  }

  lemma NonePassed(start: System)
    requires ValidBooks(start.books)
    ensures PassTimes(TWO_IN_TEN, start, [], 1) == []
  {}

  lemma CountOfFour()
    ensures CountIn([100, 100, 111, 100], 100, 110) == 3
  {
    assert [100, 100, 111, 100][1..] == [100, 111, 100] && [100, 111, 100][1..] == [111, 100];
    assert [111, 100][1..] == [100];
    assert CountIn([100], 100, 110) == 1;
    assert CountIn([111, 100], 100, 110) == 1;
    assert CountIn([100, 111, 100], 100, 110) == 2;
  }
}
