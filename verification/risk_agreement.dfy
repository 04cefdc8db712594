/** The risk engine's accounts against the books: open orders are the resting orders, open
    notional is their value. */
module RiskAgreement {
  import opened Types
  import opened Totals
  import opened PriceTimeBook
  import opened Matching
  import opened MatchTheorems
  import opened Feeds
  import opened Books
  import opened Replica
  import opened IndexAgreement
  import opened Risk

  function CountFor(a: u32): Entry -> int {
    (e: Entry) => if e.account == a then 1 else 0
  }

  function ValueFor(a: u32): Entry -> int {
    (e: Entry) => if e.account == a then e.price * e.qty else 0
  }

  ghost function SumOver(books: seq<Book>, w: Entry -> int): int {
    if books == [] then 0 else SumOver(books[..|books| - 1], w) + Total(books[|books| - 1].orders, w)
  }

  lemma {:induction false} SumPut(books: seq<Book>, s: nat, b: Book, w: Entry -> int)
    requires s < |books|
    ensures SumOver(books[s := b], w) == SumOver(books, w) - Total(books[s].orders, w) + Total(b.orders, w)
  {
    var n := |books| - 1;
    if s == n {
      assert books[s := b][..n] == books[..n];
    } else {
      assert books[s := b][..n] == books[..n][s := b];
      SumPut(books[..n], s, b, w);
    }
  }

  /** The resting orders of an account, over all symbols. */
  ghost function OpenOrders(books: seq<Book>, a: u32): int {
    SumOver(books, CountFor(a))
  }

  /** The value of the resting orders of an account, over all symbols. */
  ghost function OpenValue(books: seq<Book>, a: u32): int {
    SumOver(books, ValueFor(a))
  }

  ghost predicate AccountAgrees(accounts: map<u32, Account>, books: seq<Book>, a: u32) {
    Get(accounts, a).openOrders == OpenOrders(books, a) && Get(accounts, a).openNotional == OpenValue(books, a)
  }

  ghost predicate RiskAgrees(accounts: map<u32, Account>, books: seq<Book>) {
    forall a: u32 {:trigger AccountAgrees(accounts, books, a)} :: AccountAgrees(accounts, books, a)
  }

  /** The sums of an account fit the source's counters. */
  ghost predicate AccountFits(books: seq<Book>, a: u32) {
    OpenOrders(books, a) < W32 && OpenValue(books, a) < W64
  }

  ghost predicate SumsFit(books: seq<Book>) {
    forall a: u32 {:trigger AccountFits(books, a)} :: AccountFits(books, a)
  }

  /** An order weighs on its own account, one order and its value. */
  lemma WeighsOnAccount(b: Book, id: u64, w: Entry -> int)
    requires id in b.orders
    ensures Total(b.orders, w) == Total(b.orders - {id}, w) + w(b.orders[id])
    ensures forall qty: u32 ::
      Total(SetQty(b, id, qty).orders, w) == Total(b.orders - {id}, w) + w(b.orders[id].(qty := qty))
  {
    TotalMinus(b.orders, id, w);
    forall qty: u32
      ensures Total(SetQty(b, id, qty).orders, w) == Total(b.orders - {id}, w) + w(b.orders[id].(qty := qty))
    {
      TotalPut(b.orders, id, b.orders[id].(qty := qty), w);
    }
  }

  lemma ValueSplits(price: int, qty: int, part: int)
    ensures price * qty == price * part + price * (qty - part)
  {}

  lemma ValueIsNatural(price: int, qty: int)
    requires price >= 0 && qty >= 0
    ensures price * qty >= 0
  {}

  /** What one event does to the sums of an account. */
  lemma EventMovesSums(b: Book, ev: MdEvent, a: u32)
    requires Valid(b) && Faithful(b, ev) && Feed(b, ev).Some?
    ensures var r, mine, v := Feed(b, ev).value, ev.account == a, ev.price * ev.qty;
      && v >= 0
      && (!mine ==>
            Total(r.orders, CountFor(a)) == Total(b.orders, CountFor(a))
            && Total(r.orders, ValueFor(a)) == Total(b.orders, ValueFor(a)))
      && (mine && ev.typ == ADD_EVENT ==>
            Total(r.orders, CountFor(a)) == Total(b.orders, CountFor(a)) + 1
            && Total(r.orders, ValueFor(a)) == Total(b.orders, ValueFor(a)) + v)
      && (mine && ev.typ != ADD_EVENT ==>
            Total(r.orders, CountFor(a)) == Total(b.orders, CountFor(a)) - (if ev.orderId in r.orders then 0 else 1)
            && Total(r.orders, ValueFor(a)) == Total(b.orders, ValueFor(a)) - v)
  {
    var id := ev.orderId;
    if ev.typ == ADD_EVENT {
      var e := Entry(ev.account, ev.side, ev.price, ev.qty);
      RestKeeps(b, id, e);
      TotalPut(b.orders, id, e, CountFor(a));
      TotalPut(b.orders, id, e, ValueFor(a));
      ValueIsNatural(ev.price, ev.qty);
    } else {
      DropKeeps(b, id);
      var e := b.orders[id];
      assert Placed(b, id, e);
      WeighsOnAccount(b, id, CountFor(a));
      WeighsOnAccount(b, id, ValueFor(a));
      ValueIsNatural(ev.price, ev.qty);
      ValueSplits(e.price, e.qty, ev.qty);
      hide Shaped, Drop;
    }
  }

  lemma SumsAreNatural(books: seq<Book>, a: u32)
    requires forall b <- books :: Valid(b)
    ensures OpenOrders(books, a) >= 0 && OpenValue(books, a) >= 0
    ensures forall b <- books :: Total(b.orders, CountFor(a)) <= OpenOrders(books, a)
    ensures forall b <- books :: Total(b.orders, ValueFor(a)) <= OpenValue(books, a)
  {
    if books != [] {
      var n := |books| - 1;
      assert forall b <- books[..n] :: b in books;
      SumsAreNatural(books[..n], a);
      var b := books[n];
      assert b in books;
      forall id <- b.orders ensures ValueFor(a)(b.orders[id]) >= 0 {
        assert Placed(b, id, b.orders[id]);
        ValueIsNatural(b.orders[id].price, b.orders[id].qty);
      }
      TotalAtLeast(b.orders, CountFor(a));
      TotalAtLeast(b.orders, ValueFor(a));
      forall x | x in books ensures x in books[..n] || x == b {}
    }
  }

  /** An account whose figures are the sums before an event has the sums after it. */
  lemma AccountStep(a: Account, ev: MdEvent, live: bool, open: int, value: int)
    requires ev.typ == ADD_EVENT || ev.typ == CANCEL_EVENT || ev.typ == EXECUTE_EVENT
    requires a.openOrders == open && a.openNotional == value && 0 <= ev.price * ev.qty == Magnitude(ev.price) * ev.qty
    requires ev.typ == ADD_EVENT ==> open < W32 && value + ev.price * ev.qty < W64 && open + 1 < W32
    requires ev.typ == CANCEL_EVENT || ev.typ == EXECUTE_EVENT ==> ev.price * ev.qty <= value
    requires ev.typ == CANCEL_EVENT || (ev.typ == EXECUTE_EVENT && !live) ==> 1 <= open
    ensures Notional(ev.price, ev.qty) == ev.price * ev.qty
    ensures ev.typ == ADD_EVENT ==>
      Apply(a, ev, live) == a.(openOrders := open + 1, openNotional := value + ev.price * ev.qty)
    ensures ev.typ == CANCEL_EVENT || ev.typ == EXECUTE_EVENT ==>
      Apply(a, ev, live) == a.(openOrders := if ev.typ == EXECUTE_EVENT && live then open else open - 1,
                               openNotional := value - ev.price * ev.qty)
  {}

  lemma PriceIsMagnitude(b: Book, ev: MdEvent)
    requires Valid(b) && Faithful(b, ev)
    ensures 0 <= ev.price * ev.qty == Magnitude(ev.price) * ev.qty
  {
    if ev.typ != ADD_EVENT { assert Placed(b, ev.orderId, b.orders[ev.orderId]); }
    ValueIsNatural(ev.price, ev.qty);
  }

  /** The sums of an account before and after one event. */
  lemma SumsMove(books: seq<Book>, s: nat, ev: MdEvent, a: u32)
    requires s < |books| && (forall b <- books :: Valid(b)) && Valid(books[s])
    requires Faithful(books[s], ev) && Feed(books[s], ev).Some?
    ensures var r, v := Feed(books[s], ev).value, ev.price * ev.qty;
      var open, open' := OpenOrders(books, a), OpenOrders(books[s := r], a);
      var value, value' := OpenValue(books, a), OpenValue(books[s := r], a);
      && 0 <= open && 0 <= value && 0 <= open' && 0 <= value' && 0 <= v
      && (ev.account != a ==> open' == open && value' == value)
      && (ev.account == a && ev.typ == ADD_EVENT ==> open' == open + 1 && value' == value + v)
      && (ev.account == a && ev.typ != ADD_EVENT ==>
            open' == open - (if ev.orderId in r.orders then 0 else 1) && value' == value - v)
  {
    var r := Feed(books[s], ev).value;
    FeedKeeps(books[s], ev);
    EventMovesSums(books[s], ev, a);
    hide Shaped, Faithful, Feed, Total;
    SumPut(books, s, r, CountFor(a));
    SumPut(books, s, r, ValueFor(a));
    SumsAreNatural(books, a);
    SumsAreNatural(books[s := r], a);
  }

  /** One event, applied to the accounts and to the books, keeps them in agreement, and the
      guards against going below zero never bite. */
  lemma EventKeepsRisk(accounts: map<u32, Account>, books: seq<Book>, s: nat, ev: MdEvent, live: bool)
    requires s < |books| && (forall b <- books :: Valid(b)) && Valid(books[s])
    requires RiskAgrees(accounts, books) && Faithful(books[s], ev) && Feed(books[s], ev).Some?
    requires ev.typ == EXECUTE_EVENT ==> live == (ev.orderId in Feed(books[s], ev).value.orders)
    requires SumsFit(books[s := Feed(books[s], ev).value])
    ensures RiskAgrees(OnMarketData(accounts, ev, live), books[s := Feed(books[s], ev).value])
    ensures ev.typ != ADD_EVENT ==>
      Get(accounts, ev.account).openNotional >= Notional(ev.price, ev.qty) == ev.price * ev.qty
    ensures ev.typ == CANCEL_EVENT || (ev.typ == EXECUTE_EVENT && !live) ==> Get(accounts, ev.account).openOrders >= 1
  {
    var r := Feed(books[s], ev).value;
    EventOrders(books[s], ev);
    PriceIsMagnitude(books[s], ev);
    assert ev.typ == ADD_EVENT || ev.typ == CANCEL_EVENT || ev.typ == EXECUTE_EVENT;
    hide Shaped, Faithful, Feed, OpenOrders, OpenValue, Apply, Notional, Magnitude, Valid;
    var mine := ev.account;
    SumsMove(books, s, ev, mine);
    assert AccountAgrees(accounts, books, mine) && AccountFits(books[s := r], mine);
    AccountStep(Get(accounts, mine), ev, live, OpenOrders(books, mine), OpenValue(books, mine));
    var accounts', books' := OnMarketData(accounts, ev, live), books[s := r];
    forall a: u32 {:trigger AccountAgrees(accounts', books', a)} ensures AccountAgrees(accounts', books', a) {
      assert AccountAgrees(accounts, books, a);
      SumsMove(books, s, ev, a);
    }
  }

  /** An execution in part that is accounted for as if the order were gone leaves its account one
      order short. */
  lemma EventBreaksRisk(accounts: map<u32, Account>, books: seq<Book>, s: nat, ev: MdEvent)
    requires s < |books| && (forall b <- books :: Valid(b)) && Valid(books[s])
    requires RiskAgrees(accounts, books) && Faithful(books[s], ev) && Feed(books[s], ev).Some?
    requires ev.typ == EXECUTE_EVENT && ev.orderId in Feed(books[s], ev).value.orders
    ensures !RiskAgrees(OnMarketData(accounts, ev, false), books[s := Feed(books[s], ev).value])
  {
    var r, a := Feed(books[s], ev).value, ev.account;
    FeedKeeps(books[s], ev);
    StillHolds(books[s], ev);
    SumsMove(books, s, ev, a);
    hide Shaped, Faithful, Feed, OpenOrders, OpenValue, Notional;
    var books' := books[s := r];
    SumsAreNatural(books', a);
    assert books'[s] in books';
    assert AccountAgrees(accounts, books, a);
    assert !AccountAgrees(OnMarketData(accounts, ev, false), books', a);
  }

  lemma StillHolds(b: Book, ev: MdEvent)
    requires Valid(b) && Faithful(b, ev) && Feed(b, ev).Some?
    requires ev.typ == EXECUTE_EVENT && ev.orderId in Feed(b, ev).value.orders
    ensures Total(Feed(b, ev).value.orders, CountFor(ev.account)) >= 1
  {
    DropKeeps(b, ev.orderId);
    TotalAtLeast(Feed(b, ev).value.orders, CountFor(ev.account));
    hide Shaped, Drop;
  }

  // ---- a command's events ----

  /** Every executed order that is gone at the end was gone when it was executed: in part is
      only the last to be filled. */
  ghost predicate Settled(b: Book, evs: seq<MdEvent>, r: Book)
    requires Valid(b)
    decreases |evs|
  {
    evs == [] ||
    (Feed(b, evs[0]).Some?
     && (FeedKeeps(b, evs[0]);
         var next := Feed(b, evs[0]).value;
         && (evs[0].typ == EXECUTE_EVENT ==> (evs[0].orderId in r.orders <==> evs[0].orderId in next.orders))
         && Settled(next, evs[1..], r)))
  }

  lemma SettledFirst(b: Book, ev: MdEvent, more: seq<MdEvent>, next: Book, r: Book)
    requires Valid(b) && Feed(b, ev) == Some(next) && Valid(next) && Settled(next, more, r)
    requires ev.typ == EXECUTE_EVENT ==> (ev.orderId in r.orders <==> ev.orderId in next.orders)
    ensures Settled(b, [ev] + more, r)
  {
    hide Feed, Shaped;
    assert ([ev] + more)[1..] == more;
  }

  /** A filled order that is gone after its fill stays gone; one that is left ends the match. */
  lemma FilledSettles(b: Book, side: u8, price: i64, qty: u32, f: Fill, next: Book)
    requires Valid(b) && f.id in b.orders && f.e == b.orders[f.id] && f.qty == Min(f.e.qty, qty) && f.qty > 0
    requires next == (if f.qty == f.e.qty then Drop(b, f.id) else SetQty(b, f.id, f.e.qty - f.qty)) && Valid(next)
    ensures var left := Match(next, side, price, qty - f.qty).book.orders;
      && (f.id in left <==> f.id in next.orders) && forall x <- next.orders :: x in b.orders
  {
    hide Match, Shaped;
    MatchLeaves(next, side, price, qty - f.qty);
    if f.qty < f.e.qty { NoRound(next, side, price, 0); } else { DropKeeps(b, f.id); }
    hide Drop;
  }

  /** Every fill is of an order of the book, which is gone after the match exactly when it was
      filled whole; only the last is in part, and then nothing is left of the aggressor. */
  lemma {:induction false} FilledStays(b: Book, side: u8, price: i64, qty: u32)
    requires Valid(b)
    ensures var m := Match(b, side, price, qty);
      && (forall f <- m.fills :: f.id in b.orders && (f.id in m.book.orders <==> f.qty < f.e.qty))
      && (forall i :: 0 <= i < |m.fills| && m.fills[i].qty < m.fills[i].e.qty ==>
            i == |m.fills| - 1 && m.remaining == 0)
    decreases qty
  {
    hide Match, Shaped, Crosses, Drop, Best, FillOrder, Positive;
    if qty == 0 || !Crosses(b, side, price) {
      NoRound(b, side, price, qty);
    } else {
      var f, next, m := Round(b, side, price, qty);
      FilledSettles(b, side, price, qty, f, next);
      FilledStays(next, side, price, qty - f.qty);
      NextHolds(b, f, next);
      if f.qty < f.e.qty { NoRound(next, side, price, 0); }
    }
  }

  lemma NextHolds(b: Book, f: Fill, next: Book)
    requires Valid(b) && f.id in b.orders && f.e == b.orders[f.id] && f.qty <= f.e.qty
    requires next == (if f.qty == f.e.qty then Drop(b, f.id) else SetQty(b, f.id, f.e.qty - f.qty))
    ensures f.id in next.orders <==> f.qty < f.e.qty
  {
    DropKeeps(b, f.id);
    hide Shaped, Drop;
  }

  lemma {:induction false} MatchSettles(b: Book, side: u8, price: i64, qty: u32, sn: u64, r: Book, last: seq<MdEvent>)
    requires Valid(b)
    requires var m := Match(b, side, price, qty);
      (forall x <- b.orders :: x in r.orders <==> x in m.book.orders) && Settled(m.book, last, r)
    ensures Settled(b, Executions(sn, b.symbol, Match(b, side, price, qty).fills) + last, r)
    decreases qty
  {
    hide Match, Shaped, Crosses, Drop, Best, Settled, FillOrder, Positive;
    if qty == 0 || !Crosses(b, side, price) {
      NoRound(b, side, price, qty);
      assert Executions(sn, b.symbol, []) + last == last;
    } else {
      var f, next, m := Round(b, side, price, qty);
      FilledSettles(b, side, price, qty, f, next);
      FillSame(b, f.id, f.qty);
      MatchSettles(next, side, price, qty - f.qty, sn, r, last);
      var ev, more := Execution(sn, b.symbol, f), Executions(sn, b.symbol, m.fills);
      assert Executions(sn, b.symbol, [f] + m.fills) + last == [ev] + (more + last);
      SettledFirst(b, ev, more + last, next, r);
    }
  }

  lemma AddSettles(b: Book, sn: u64, id: u64, account: u32, side: u8, price: i64, qty: u32, tif: u8)
    requires Valid(b)
    ensures var s := Add(b, sn, id, account, side, price, qty, tif);
      Settled(b, s.out.events, s.book)
  {
    if qty > 0 && b.ladder.InBand(price) && id !in b.orders {
      var m, s := Match(b, side, price, qty), Add(b, sn, id, account, side, price, qty, tif);
      MatchLeaves(b, side, price, qty);
      AddLeads(b, sn, id, account, side, price, qty, tif);
      var execs := Executions(sn, b.symbol, m.fills);
      if m.remaining > 0 && tif == GTC {
        RestKeeps(m.book, id, Entry(account, side, price, m.remaining));
        hide Match, Shaped, Crosses, Rest;
        MatchSettles(b, side, price, qty, sn, s.book, [s.out.events[|execs|]]);
      } else {
        hide Match, Shaped, Crosses;
        MatchSettles(b, side, price, qty, sn, s.book, []);
        assert execs + [] == execs;
      }
    }
  }

  lemma ReplaceSettles(b: Book, sn: u64, oldId: u64, id: u64, account: u32, side: u8, price: i64, qty: u32, tif: u8)
    requires Valid(b)
    ensures var s := Replace(b, sn, oldId, id, account, side, price, qty, tif);
      Settled(b, s.out.events, s.book)
  {
    if b.ladder.InBand(price) && oldId in b.orders {
      var ev := Cancellation(b, sn, oldId);
      FeedKeeps(b, ev);
      AddSettles(Drop(b, oldId), sn, id, account, side, price, qty, tif);
      var evs := Add(Drop(b, oldId), sn, id, account, side, price, qty, tif).out.events;
      assert ([ev] + evs)[1..] == evs;
    }
  }

  /** `account_for_md`: the accounts after a run of events, against the index at its end. */
  function AccountAll(accounts: map<u32, Account>, evs: seq<MdEvent>, index: map<u64, u32>): map<u32, Account>
    decreases |evs|
  {
    if evs == [] then accounts
    else AccountAll(OnMarketData(accounts, evs[0], evs[0].orderId in index), evs[1..], index)
  }

  /** Sums fit all along when they fit at the end: only the last event adds. */
  ghost predicate FitAlong(books: seq<Book>, s: nat, evs: seq<MdEvent>)
    requires s < |books| && Valid(books[s])
    decreases |evs|
  {
    evs == [] ||
    (Feed(books[s], evs[0]).Some?
     && (FeedKeeps(books[s], evs[0]);
         var next := books[s := Feed(books[s], evs[0]).value];
         SumsFit(next) && FitAlong(next, s, evs[1..])))
  }

  lemma {:induction false} FitsAlong(books: seq<Book>, s: nat, evs: seq<MdEvent>, r: Book)
    requires s < |books| && (forall b <- books :: Valid(b)) && Valid(books[s])
    requires Leads(books[s], evs, r) && AddsLast(evs) && SumsFit(books) && SumsFit(books[s := r])
    ensures FitAlong(books, s, evs)
    decreases |evs|
  {
    hide Shaped, Faithful, Feed, OpenOrders, OpenValue;
    if evs != [] {
      var ev, next := evs[0], Feed(books[s], evs[0]).value;
      FeedKeeps(books[s], ev);
      var books' := books[s := next];
      if |evs| == 1 {
        assert next == r && evs[1..] == [];
      } else {
        assert ev.typ != ADD_EVENT;
        forall a: u32 {:trigger AccountFits(books', a)} ensures AccountFits(books', a) {
          SumsMove(books, s, ev, a);
          assert AccountFits(books, a);
        }
        assert books'[s := r] == books[s := r];
        FitsAlong(books', s, evs[1..], r);
      }
    }
  }

  lemma {:induction false} EventsKeepRisk(accounts: map<u32, Account>, books: seq<Book>, s: nat, evs: seq<MdEvent>,
                                          r: Book, index: map<u64, u32>)
    requires s < |books| && (forall b <- books :: Valid(b)) && Valid(books[s])
    requires RiskAgrees(accounts, books) && Leads(books[s], evs, r) && Settled(books[s], evs, r)
    requires FitAlong(books, s, evs)
    requires forall ev :: ev in evs && ev.typ == EXECUTE_EVENT ==> (ev.orderId in index <==> ev.orderId in r.orders)
    ensures RiskAgrees(AccountAll(accounts, evs, index), books[s := r])
    decreases |evs|
  {
    if evs == [] {
      assert books[s := r] == books;
    } else {
      var ev := evs[0];
      assert ev in evs && forall e :: e in evs[1..] ==> e in evs;
      var next := Feed(books[s], ev).value;
      FeedKeeps(books[s], ev);
      hide Shaped, Faithful, Feed, RiskAgrees;
      EventKeepsRisk(accounts, books, s, ev, ev.orderId in index);
      EventsKeepRisk(OnMarketData(accounts, ev, ev.orderId in index), books[s := next], s, evs[1..], r, index);
      assert books[s := next][s := r] == books[s := r];
    }
  }

  /** Events that end with an execution in part of an order the index does not hold, and tell the
      truth before, leave the accounts in disagreement. */
  lemma {:induction false} EventsBreakRisk(accounts: map<u32, Account>, books: seq<Book>, s: nat, evs: seq<MdEvent>,
                                           r: Book, index: map<u64, u32>)
    requires s < |books| && (forall b <- books :: Valid(b)) && Valid(books[s]) && evs != []
    requires RiskAgrees(accounts, books) && Leads(books[s], evs, r) && Settled(books[s], evs, r)
    requires FitAlong(books, s, evs)
    requires forall i :: 0 <= i < |evs| - 1 && evs[i].typ == EXECUTE_EVENT ==>
      (evs[i].orderId in index <==> evs[i].orderId in r.orders)
    requires var ev := evs[|evs| - 1]; ev.typ == EXECUTE_EVENT && ev.orderId in r.orders && ev.orderId !in index
    ensures !RiskAgrees(AccountAll(accounts, evs, index), books[s := r])
    decreases |evs|
  {
    var ev, more := evs[0], evs[1..];
    var next, accounts' := Feed(books[s], ev).value, OnMarketData(accounts, ev, ev.orderId in index);
    FeedKeeps(books[s], ev);
    hide Shaped, Faithful, Feed, RiskAgrees;
    if more == [] {
      assert AccountAll(accounts', [], index) == accounts' && next == r;
      EventBreaksRisk(accounts, books, s, ev);
    } else {
      assert forall i :: 0 <= i < |more| ==> more[i] == evs[i + 1];
      EventKeepsRisk(accounts, books, s, ev, ev.orderId in index);
      EventsBreakRisk(accounts', books[s := next], s, more, r, index);
      assert books[s := next][s := r] == books[s := r];
    }
  }
}
