/** A replica driven by the events of an engine follows it, queue for queue; and the global
    index follows the books. */
module Replica {
  import opened Types
  import opened PriceTimeBook
  import opened Matching
  import opened Feeds
  import opened Books

  /** Every index entry points at a book that holds the order. */
  ghost predicate Sound(m: Books)
    requires ValidBooks(m)
  {
    forall id <- m.index :: id in m.books[m.index[id]].orders
  }

  /** Every resting order is indexed under its symbol. */
  ghost predicate Complete(m: Books) {
    forall s: int, id: u64 {:trigger id in m.books[s].orders} ::
      KnownSymbol(m, s) && id in m.books[s].orders ==> id in m.index && m.index[id] == s
  }

  /** The index maps an order to a symbol exactly when that symbol's book holds it. */
  ghost predicate IndexAgrees(m: Books)
    requires ValidBooks(m)
  {
    Sound(m) && Complete(m)
  }

  /** The id rests in no other symbol's book. */
  ghost predicate FreeElsewhere(m: Books, s: int, id: u64) {
    forall t: int {:trigger id in m.books[t].orders} :: KnownSymbol(m, t) && t != s ==> id !in m.books[t].orders
  }

  /** What a replica makes of a run of events: `None` if it reports an error. */
  ghost function FeedAll(m: Books, evs: seq<MdEvent>): Option<Books>
    requires ValidBooks(m)
    decreases |evs|
  {
    if evs == [] then Some(m)
    else
      FeedBooksKeeps(m, evs[0]);
      if FeedBooks(m, evs[0]).None? then None else FeedAll(FeedBooks(m, evs[0]).value, evs[1..])
  }

  /** One faithful event reaches the book it came from, and the index follows. */
  lemma FeedRoutes(m: Books, s: u32, ev: MdEvent)
    requires ValidBooks(m) && IndexAgrees(m) && KnownSymbol(m, s) && Valid(m.books[s]) && m.books[s].symbol == s
    requires Faithful(m.books[s], ev) && Feed(m.books[s], ev).Some?
    requires ev.typ == ADD_EVENT ==> FreeElsewhere(m, s, ev.orderId)
    ensures FeedBooks(m, ev).Some?
    ensures FeedBooks(m, ev).value.books == m.books[s := Feed(m.books[s], ev).value]
    ensures ValidBooks(FeedBooks(m, ev).value) && IndexAgrees(FeedBooks(m, ev).value)
  {
    FeedBooksKeeps(m, ev);
    var b, r := m.books[s], Feed(m.books[s], ev).value;
    EventOrders(b, ev);
    hide Shaped, Drop, Rest, Faithful;
    var m' := FeedBooks(m, ev).value;
    assert m'.books == m.books[s := r];
    forall id <- m'.index ensures id in m'.books[m'.index[id]].orders {
      assert id != ev.orderId ==> id in m.index && m'.index[id] == m.index[id];
    }
    forall t: int, id: u64 {:trigger id in m'.books[t].orders} | KnownSymbol(m', t) && id in m'.books[t].orders
      ensures id in m'.index && m'.index[id] == t
    {
      if t == s { assert id == ev.orderId || id in b.orders; } else { assert id in m.books[t].orders; }
    }
  }

  /** What one event does to the set of orders. */
  lemma EventOrders(b: Book, ev: MdEvent)
    requires Valid(b) && Faithful(b, ev) && Feed(b, ev).Some?
    ensures var r := Feed(b, ev).value;
      && (ev.typ == ADD_EVENT ==> ev.orderId !in b.orders && r.orders.Keys == b.orders.Keys + {ev.orderId})
      && (ev.typ != ADD_EVENT ==> ev.orderId in b.orders)
      && (ev.typ == CANCEL_EVENT ==> r.orders.Keys == b.orders.Keys - {ev.orderId})
      && (ev.typ == EXECUTE_EVENT ==> r.orders.Keys == b.orders.Keys || r.orders.Keys == b.orders.Keys - {ev.orderId})
  {
    if ev.typ == ADD_EVENT {
      RestKeeps(b, ev.orderId, Entry(ev.account, ev.side, ev.price, ev.qty));
    } else {
      DropKeeps(b, ev.orderId);
    }
  }

  /** The additions of a run of events are of ids that rest in no other book. */
  ghost predicate Fresh(m: Books, s: int, evs: seq<MdEvent>) {
    forall ev :: ev in evs && ev.typ == ADD_EVENT ==> FreeElsewhere(m, s, ev.orderId)
  }

  lemma {:induction false} FeedAllRoutes(m: Books, s: u32, evs: seq<MdEvent>, r: Book)
    requires ValidBooks(m) && IndexAgrees(m) && KnownSymbol(m, s) && Valid(m.books[s]) && m.books[s].symbol == s
    requires Leads(m.books[s], evs, r) && Fresh(m, s, evs)
    ensures FeedAll(m, evs).Some?
    ensures FeedAll(m, evs).value.books == m.books[s := r]
    ensures ValidBooks(FeedAll(m, evs).value) && IndexAgrees(FeedAll(m, evs).value)
    decreases |evs|
  {
    if evs == [] {
      assert m.books[s := r] == m.books;
    } else {
      var ev := evs[0];
      FeedRoutes(m, s, ev);
      FeedKeeps(m.books[s], ev);
      FeedSame(m.books[s], ev);
      hide Shaped, Faithful, Feed, FeedBooks, Sound, Complete;
      var m' := FeedBooks(m, ev).value;
      assert Fresh(m', s, evs[1..]) by { FreshOn(m, s, evs, m'); }
      FeedAllRoutes(m', s, evs[1..], r);
      assert m'.books[s := r] == m.books[s := r];
    }
  }

  lemma FreshOn(m: Books, s: int, evs: seq<MdEvent>, m': Books)
    requires KnownSymbol(m, s) && evs != [] && Fresh(m, s, evs) && |m'.books| == |m.books|
    requires m'.books == m.books[s := m'.books[s]]
    ensures Fresh(m', s, evs[1..])
  {
    forall ev | ev in evs[1..] && ev.typ == ADD_EVENT ensures FreeElsewhere(m', s, ev.orderId) {
      assert ev in evs && FreeElsewhere(m, s, ev.orderId);
      forall t: int {:trigger ev.orderId in m'.books[t].orders} | KnownSymbol(m', t) && t != s
        ensures ev.orderId !in m'.books[t].orders
      {
        assert m'.books[t] == m.books[t] && ev.orderId !in m.books[t].orders;
      }
    }
  }

  lemma FeedSame(b: Book, ev: MdEvent)
    requires Valid(b) && Feed(b, ev).Some?
    ensures Feed(b, ev).value.symbol == b.symbol && Feed(b, ev).value.ladder == b.ladder
  {
    if ev.typ == EXECUTE_EVENT { FillSame(b, ev.orderId, ev.qty); }
  }

  /** When a replica reports an error: an addition for no symbol of its own, without quantity, out
      of band, or under an id that rests there; a cancellation or execution of an order that its
      index, or the book the index names, does not hold, or of no quantity; a type it does not
      know. An error changes nothing; replaces and rejects are passed over. */
  lemma ErrsExactly(m: Books, ev: MdEvent)
    requires ValidBooks(m)
    ensures FeedBooks(m, ev) == None <==>
      if ev.typ == ADD_EVENT then
        || !KnownSymbol(m, ev.symbol) || ev.qty == 0 || !m.books[ev.symbol].ladder.InBand(ev.price)
        || ev.orderId in m.books[ev.symbol].orders
      else if ev.typ == CANCEL_EVENT || ev.typ == EXECUTE_EVENT then
        || ev.orderId !in m.index || ev.orderId !in m.books[m.index[ev.orderId]].orders
        || (ev.typ == EXECUTE_EVENT && ev.qty == 0)
      else ev.typ != REPLACE_EVENT && ev.typ != REJECT_EVENT
    ensures ev.typ == REPLACE_EVENT || ev.typ == REJECT_EVENT ==> FeedBooks(m, ev) == Some(m)
  {
    if ev.typ == ADD_EVENT && KnownSymbol(m, ev.symbol) { assert BookOk(m, ev.symbol); }
    if ev.orderId in m.index { assert BookOk(m, m.index[ev.orderId]); }
    hide Shaped, Rest, Drop;
  }

  /** What an event that is applied does to a replica: it changes the one order, in the one book,
      and its index entry, and nothing else. More than an order holds takes the order out. */
  lemma FeedEffect(m: Books, ev: MdEvent)
    requires ValidBooks(m) && FeedBooks(m, ev).Some? && ev.typ in {ADD_EVENT, CANCEL_EVENT, EXECUTE_EVENT}
    ensures ev.typ != ADD_EVENT ==> ev.orderId in m.index
    ensures var r, id := FeedBooks(m, ev).value, ev.orderId;
      var s := if ev.typ == ADD_EVENT then ev.symbol else m.index[id];
      && KnownSymbol(m, s) && |r.books| == |m.books|
      && (forall t :: 0 <= t < |m.books| && t != s ==> r.books[t] == m.books[t])
      && r.books[s].ladder == m.books[s].ladder
      && var orders := m.books[s].orders;
         if ev.typ == ADD_EVENT then
           && r.books[s].orders == orders[id := Entry(ev.account, ev.side, ev.price, ev.qty)]
           && r.index == m.index[id := s]
         else
           && id in orders
           && if ev.typ == CANCEL_EVENT || ev.qty >= orders[id].qty
              then r.books[s].orders == orders - {id} && r.index == m.index - {id}
              else r.books[s].orders == orders[id := orders[id].(qty := orders[id].qty - ev.qty)] && r.index == m.index
  {
    var s := if ev.typ == ADD_EVENT then ev.symbol else m.index[ev.orderId];
    assert BookOk(m, s);
    var b := m.books[s];
    if ev.typ == ADD_EVENT {
      RestKeeps(b, ev.orderId, Entry(ev.account, ev.side, ev.price, ev.qty));
    } else {
      DropKeeps(b, ev.orderId);
    }
    hide Shaped, Rest, Drop;
  }
}
