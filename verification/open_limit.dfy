/** The limit on open orders: the gate checks it for new orders only, and checks a counter, not the
    books. The exact conditions under which a command passes it, on the state before the command. */
module OpenLimit {
  import opened Types
  import opened Totals
  import opened PriceTimeBook
  import opened Matching
  import opened MatchTheorems
  import opened Feeds
  import opened Books
  import opened Replica
  import opened IndexAgreement
  import opened Commands
  import opened Risk
  import opened RiskAgreement
  import opened RiskCommands

  ghost predicate WithinFor(limits: Limits, books: seq<Book>, a: u32) {
    OpenOrders(books, a) <= limits.maxOpenOrders
  }

  ghost predicate WithinLimit(limits: Limits, books: seq<Book>) {
    forall a: u32 {:trigger WithinFor(limits, books, a)} :: WithinFor(limits, books, a)
  }

  /** The account's own orders that an order of this side and price would trade with. */
  function OwnOffer(side: u8, price: i64, a: u32): Entry -> int {
    (e: Entry) => if e.account == a && IsBuy(e.side) != IsBuy(side) && Acceptable(side, price, e.price) then 1 else 0
  }

  ghost function OwnOffers(b: Book, side: u8, price: i64, a: u32): int {
    Total(b.orders, OwnOffer(side, price, a))
  }

  /** A replace of another account's order, part of which comes to rest. */
  ghost predicate TakesOver(m: Books, cmd: ClientCommand)
    requires ValidBooks(m)
  {
    && cmd.typ == REPLACE && cmd.cancelOrderId in m.index
    && var s := m.index[cmd.cancelOrderId];
       assert BookOk(m, s);
       var b := m.books[s];
       && cmd.cancelOrderId in b.orders && b.orders[cmd.cancelOrderId].account != cmd.account
       && WouldRest(Drop(b, cmd.cancelOrderId), cmd.orderId, cmd.side, cmd.price, cmd.qty, cmd.tif)
  }

  /** A replace takes over an order while its own account is at the limit, even without the
      orders of its own that it fills first. */
  ghost predicate Evades(limits: Limits, m: Books, cmd: ClientCommand)
    requires ValidBooks(m)
  {
    && TakesOver(m, cmd)
    && var own := OwnOffers(m.books[m.index[cmd.cancelOrderId]], cmd.side, cmd.price, cmd.account);
       OpenOrders(m.books, cmd.account) - own >= limits.maxOpenOrders
  }

  /** Part of a new order comes to rest while its account is at the limit in the books, even
      without the orders of its own that it fills first. The gate lets it through when the
      account's counter is behind the books. */
  ghost predicate Exceeds(limits: Limits, m: Books, cmd: ClientCommand)
    requires ValidBooks(m) && SymbolExists(m, cmd)
  {
    && cmd.typ == NEW
    && var b := m.books[cmd.symbol];
       && WouldRest(b, cmd.orderId, cmd.side, cmd.price, cmd.qty, cmd.tif)
       && OpenOrders(m.books, cmd.account) - OwnOffers(b, cmd.side, cmd.price, cmd.account) >= limits.maxOpenOrders
  }

  // ---- what an order that rests has filled ----

  lemma NoCrossNoOwn(b: Book, side: u8, price: i64, a: u32)
    requires Shaped(b) && !Crosses(b, side, price)
    ensures OwnOffers(b, side, price, a) == 0
  {
    forall id <- b.orders ensures OwnOffer(side, price, a)(b.orders[id]) == 0 {
      if IsBuy(b.orders[id].side) != IsBuy(side) { BestBounds(b, !IsBuy(side), id); }
    }
    TotalZero(b.orders, OwnOffer(side, price, a));
  }

  /** An order with something left after matching has filled every acceptable order, the
      account's own among them. */
  lemma {:induction false} MatchTakesOwn(b: Book, side: u8, price: i64, qty: u32, a: u32)
    requires Valid(b) && Match(b, side, price, qty).remaining > 0
    ensures Total(Match(b, side, price, qty).book.orders, CountFor(a))
      == Total(b.orders, CountFor(a)) - OwnOffers(b, side, price, a)
    decreases qty
  {
    hide Match, Shaped, Crosses, Drop, Best, SetQty, FillOrder, Total;
    if !Crosses(b, side, price) {
      NoRound(b, side, price, qty);
      NoCrossNoOwn(b, side, price, a);
    } else {
      var f, next, m := Round(b, side, price, qty);
      if f.qty == f.e.qty {
        DropKeeps(b, f.id);
        TotalMinus(b.orders, f.id, CountFor(a));
        TotalMinus(b.orders, f.id, OwnOffer(side, price, a));
        MatchTakesOwn(next, side, price, qty - f.qty, a);
      } else {
        assert false;
      }
    }
  }

  /** How many orders of its account a book holds after an order came to rest. */
  lemma RestedCount(b: Book, sn: u64, cmd: ClientCommand)
    requires Valid(b) && WouldRest(b, cmd.orderId, cmd.side, cmd.price, cmd.qty, cmd.tif)
    ensures var r := Add(b, sn, cmd.orderId, cmd.account, cmd.side, cmd.price, cmd.qty, cmd.tif).book;
      Total(r.orders, CountFor(cmd.account))
        == Total(b.orders, CountFor(cmd.account)) - OwnOffers(b, cmd.side, cmd.price, cmd.account) + 1
  {
    LiquidityIsNatural(b, cmd.side, cmd.price);
    MatchIsExact(b, cmd.side, cmd.price, cmd.qty);
    var m := Match(b, cmd.side, cmd.price, cmd.qty);
    MatchTakesOwn(b, cmd.side, cmd.price, cmd.qty, cmd.account);
    var e := Entry(cmd.account, cmd.side, cmd.price, m.remaining);
    RestKeeps(m.book, cmd.orderId, e);
    TotalPut(m.book.orders, cmd.orderId, e, CountFor(cmd.account));
    hide Match, Shaped, Rest, Total, Liquidity;
  }

  /** Taking over an order leaves the account with this many orders over all books. */
  lemma EvaderCount(m: Books, sn: u64, cmd: ClientCommand, s: u32)
    requires ValidBooks(m) && SymbolExists(m, cmd) && TakesOver(m, cmd) && Targets(m, cmd, s)
    requires KnownSymbol(m, s) && Valid(m.books[s])
    ensures OpenOrders(Execute(m, sn, cmd).books.books, cmd.account)
      == OpenOrders(m.books, cmd.account) - OwnOffers(m.books[s], cmd.side, cmd.price, cmd.account) + 1
  {
    var b, a, id := m.books[s], cmd.account, cmd.cancelOrderId;
    DropKeeps(b, id);
    var d := Drop(b, id);
    TotalMinus(b.orders, id, CountFor(a));
    TotalMinus(b.orders, id, OwnOffer(cmd.side, cmd.price, a));
    RestedCount(d, sn, cmd);
    hide Shaped, Drop, Total, WouldRest, Add, ValidBooks;
    var r := Add(d, sn, cmd.orderId, a, cmd.side, cmd.price, cmd.qty, cmd.tif).book;
    assert b.ladder.InBand(cmd.price) by { RestsInBand(d, cmd); }
    assert Execute(m, sn, cmd).books.books == m.books[s := r];
    SumPut(m.books, s, r, CountFor(a));
  }

  /** A new order that comes to rest leaves its account with this many over all books. */
  lemma NewCount(m: Books, sn: u64, cmd: ClientCommand)
    requires ValidBooks(m) && SymbolExists(m, cmd) && cmd.typ == NEW
    requires WouldRest(m.books[cmd.symbol], cmd.orderId, cmd.side, cmd.price, cmd.qty, cmd.tif)
    ensures OpenOrders(Execute(m, sn, cmd).books.books, cmd.account)
      == OpenOrders(m.books, cmd.account) - OwnOffers(m.books[cmd.symbol], cmd.side, cmd.price, cmd.account) + 1
  {
    assert BookOk(m, cmd.symbol);
    var b, a := m.books[cmd.symbol], cmd.account;
    RestedCount(b, sn, cmd);
    hide Shaped, Total, WouldRest, Add, ValidBooks;
    var r := Add(b, sn, cmd.orderId, a, cmd.side, cmd.price, cmd.qty, cmd.tif).book;
    assert Execute(m, sn, cmd).books.books == m.books[cmd.symbol := r];
    SumPut(m.books, cmd.symbol, r, CountFor(a));
  }

  /** Part of the command's order comes to rest in addition to its account's orders. */
  ghost predicate Adds(m: Books, cmd: ClientCommand)
    requires ValidBooks(m) && SymbolExists(m, cmd)
  {
    || TakesOver(m, cmd)
    || (cmd.typ == NEW && WouldRest(m.books[cmd.symbol], cmd.orderId, cmd.side, cmd.price, cmd.qty, cmd.tif))
  }

  lemma RestsInBand(b: Book, cmd: ClientCommand)
    requires WouldRest(b, cmd.orderId, cmd.side, cmd.price, cmd.qty, cmd.tif)
    ensures b.ladder.InBand(cmd.price)
  {}

  // ---- no other way ----

  /** Additions less cancellations of an account among some events. */
  function Net(evs: seq<MdEvent>, a: u32): int {
    if evs == [] then 0
    else Net(evs[1..], a) + (if evs[0].account != a then 0
                             else if evs[0].typ == ADD_EVENT then 1
                             else if evs[0].typ == CANCEL_EVENT then -1 else 0)
  }

  lemma {:induction false} NetBounds(books: seq<Book>, s: nat, evs: seq<MdEvent>, r: Book, a: u32)
    requires s < |books| && (forall b <- books :: Valid(b)) && Valid(books[s]) && Leads(books[s], evs, r)
    ensures OpenOrders(books[s := r], a) <= OpenOrders(books, a) + Net(evs, a)
    decreases |evs|
  {
    hide Shaped, Faithful, Feed, OpenOrders, OpenValue;
    if evs == [] {
      assert books[s := r] == books;
    } else {
      var next := Feed(books[s], evs[0]).value;
      FeedKeeps(books[s], evs[0]);
      EventMovesOpenOrders(books, s, evs[0], a);
      NetBounds(books[s := next], s, evs[1..], r, a);
      assert books[s := next][s := r] == books[s := r];
    }
  }

  lemma EventMovesOpenOrders(books: seq<Book>, s: nat, ev: MdEvent, a: u32)
    requires s < |books| && (forall b <- books :: Valid(b)) && Valid(books[s])
    requires Faithful(books[s], ev) && Feed(books[s], ev).Some?
    ensures OpenOrders(books[s := Feed(books[s], ev).value], a) <= OpenOrders(books, a) + Net([ev], a)
    ensures Net([ev], a) ==
      if ev.account != a then 0 else if ev.typ == ADD_EVENT then 1 else if ev.typ == CANCEL_EVENT then -1 else 0
  {
    SumsMove(books, s, ev, a);
    EventOrders(books[s], ev);
    hide Shaped, Feed, OpenOrders, OpenValue;
    assert [ev][1..] == [];
  }

  lemma {:induction false} ExecutionsNet(sn: u64, symbol: u32, fills: seq<Fill>, more: seq<MdEvent>, a: u32)
    ensures Net(Executions(sn, symbol, fills) + more, a) == Net(more, a)
  {
    var evs := Executions(sn, symbol, fills) + more;
    if fills == [] {
      assert evs == more;
    } else {
      assert evs[1..] == Executions(sn, symbol, fills[1..]) + more;
      ExecutionsNet(sn, symbol, fills[1..], more, a);
    }
  }

  lemma AddNet(b: Book, sn: u64, cmd: ClientCommand, a: u32)
    requires Valid(b)
    ensures Net(Add(b, sn, cmd.orderId, cmd.account, cmd.side, cmd.price, cmd.qty, cmd.tif).out.events, a) <=
      if a == cmd.account && WouldRest(b, cmd.orderId, cmd.side, cmd.price, cmd.qty, cmd.tif) then 1 else 0
  {
    var id, side, price, qty := cmd.orderId, cmd.side, cmd.price, cmd.qty;
    if qty != 0 && b.ladder.InBand(price) && id !in b.orders {
      MatchIsExact(b, side, price, qty);
      hide Match, Shaped, Rest, Liquidity;
      var m := Match(b, side, price, qty);
      ExecutionsNet(sn, b.symbol, m.fills, [], a);
      assert Executions(sn, b.symbol, m.fills) + [] == Executions(sn, b.symbol, m.fills);
      var added := MdEvent(sn, ADD_EVENT, b.symbol, id, 0, cmd.account, side, price, m.remaining, NO_REJECT);
      ExecutionsNet(sn, b.symbol, m.fills, [added], a);
      assert [added][1..] == [];
    }
  }

  lemma CommandNet(m: Books, sn: u64, cmd: ClientCommand, a: u32)
    requires ValidBooks(m) && SymbolExists(m, cmd)
    ensures Net(Execute(m, sn, cmd).out.events, a) <=
      if a == cmd.account && Adds(m, cmd) then 1 else 0
  {
    if cmd.typ == NEW {
      assert BookOk(m, cmd.symbol);
      AddNet(m.books[cmd.symbol], sn, cmd, a);
    } else if cmd.typ == REPLACE && cmd.cancelOrderId in m.index {
      assert BookOk(m, m.index[cmd.cancelOrderId]);
      var b := m.books[m.index[cmd.cancelOrderId]];
      if b.ladder.InBand(cmd.price) && cmd.cancelOrderId in b.orders {
        DropKeeps(b, cmd.cancelOrderId);
        var d := Drop(b, cmd.cancelOrderId);
        AddNet(d, sn, cmd, a);
        hide Add, Drop, Shaped, WouldRest;
        var evs := Execute(m, sn, cmd).out.events;
        assert evs[0] == Cancellation(b, sn, cmd.cancelOrderId);
        assert evs[1..] == Add(d, sn, cmd.orderId, cmd.account, cmd.side, cmd.price, cmd.qty, cmd.tif).out.events;
      }
    }
  }

  /** A command keeps every account within the limit if and only if it is neither an evading
      replace nor an exceeding new order. */
  lemma LimitStep(limits: Limits, m: Books, sn: u64, cmd: ClientCommand)
    requires ValidBooks(m) && SymbolExists(m, cmd) && WithinLimit(limits, m.books)
    ensures WithinLimit(limits, Execute(m, sn, cmd).books.books) <==>
      !Evades(limits, m, cmd) && !Exceeds(limits, m, cmd)
  {
    hide Execute, OpenOrders, OwnOffers, Shaped, Leads, Valid, ValidBooks, Net, WouldRest, Drop;
    var step := Execute(m, sn, cmd);
    var s := ExecuteMoves(m, sn, cmd);
    ValidEverywhere(m);
    if TakesOver(m, cmd) {
      EvaderCount(m, sn, cmd, s);
    } else if Adds(m, cmd) {
      NewCount(m, sn, cmd);
    }
    if Evades(limits, m, cmd) || Exceeds(limits, m, cmd) {
      assert !WithinFor(limits, step.books.books, cmd.account);
    } else {
      forall a: u32 {:trigger WithinFor(limits, step.books.books, a)} ensures WithinFor(limits, step.books.books, a) {
        assert WithinFor(limits, m.books, a);
        if (a != cmd.account || !Adds(m, cmd)) && (step.books != m || step.out.events != []) {
          CommandNet(m, sn, cmd, a);
          NetBounds(m.books, s, step.out.events, step.books.books[s], a);
        }
      }
    }
  }
}
