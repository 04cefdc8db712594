/** The market-data events of one book, as its replicas apply them. */
module Feeds {
  import opened Types
  import opened PriceTimeBook
  import opened Matching
  import opened MatchTheorems

  /** The event tells the truth about the book it is about to change: an execution hits the
      order with priority on its side, a cancellation takes the whole order, an addition is
      new, in band and does not cross. */
  ghost predicate Faithful(b: Book, ev: MdEvent)
    requires Shaped(b)
  {
    && ev.symbol == b.symbol
    && (ev.typ == EXECUTE_EVENT || ev.typ == CANCEL_EVENT ==>
          && ev.orderId in b.orders
          && var e := b.orders[ev.orderId];
             ev.account == e.account && ev.side == e.side && ev.price == e.price && 0 < ev.qty <= e.qty)
    && (ev.typ == EXECUTE_EVENT ==> Best(b, IsBuy(ev.side)).Some? && ev.orderId == Head(b, IsBuy(ev.side)))
    && (ev.typ == CANCEL_EVENT ==> ev.qty == b.orders[ev.orderId].qty)
    && (ev.typ == ADD_EVENT ==>
          ev.orderId !in b.orders && ev.qty > 0 && b.ladder.InBand(ev.price) && !Crosses(b, ev.side, ev.price))
    && (ev.typ == ADD_EVENT || ev.typ == CANCEL_EVENT || ev.typ == EXECUTE_EVENT)
  }

  /** `evs` lead from `b` to `r`, each faithful where it is applied. */
  ghost predicate Leads(b: Book, evs: seq<MdEvent>, r: Book)
    requires Valid(b)
    decreases |evs|
  {
    if evs == [] then r == b
    else
      Faithful(b, evs[0]) && Feed(b, evs[0]).Some?
      && (FeedKeeps(b, evs[0]); Leads(Feed(b, evs[0]).value, evs[1..], r))
  }

  lemma {:induction false} LeadsOn(b: Book, evs: seq<MdEvent>, r: Book, ev: MdEvent)
    requires Valid(b) && Leads(b, evs, r)
    ensures Valid(r) && r.ladder == b.ladder && r.symbol == b.symbol
    ensures Faithful(r, ev) && Feed(r, ev).Some? ==> Leads(b, evs + [ev], Feed(r, ev).value)
    decreases |evs|
  {
    if evs == [] {
      if Faithful(r, ev) && Feed(r, ev).Some? { FeedKeeps(r, ev); }
      assert (evs + [ev])[1..] == [];
    } else {
      FeedKeeps(b, evs[0]);
      assert (evs + [ev])[1..] == evs[1..] + [ev];
      LeadsOn(Feed(b, evs[0]).value, evs[1..], r, ev);
    }
  }

  /** The executions of a match lead the book through it. */
  lemma {:induction false} MatchLeads(b: Book, side: u8, price: i64, qty: u32, sn: u64)
    requires Valid(b)
    ensures var m := Match(b, side, price, qty);
      Leads(b, Executions(sn, b.symbol, m.fills), m.book)
    decreases qty
  {
    hide Match, Shaped, Crosses, Drop, Best;
    if qty == 0 || !Crosses(b, side, price) {
      NoRound(b, side, price, qty);
    } else {
      var f, next, m := Round(b, side, price, qty);
      MatchLeads(next, side, price, qty - f.qty, sn);
      var evs := Executions(sn, b.symbol, [f] + m.fills);
      assert evs[0] == Execution(sn, b.symbol, f);
      assert evs[1..] == Executions(sn, b.symbol, m.fills);
    }
  }

  /** Every event of an accepted new order is faithful, and together they lead to its book. */
  lemma AddLeads(b: Book, sn: u64, id: u64, account: u32, side: u8, price: i64, qty: u32, tif: u8)
    requires Valid(b)
    ensures var s := Add(b, sn, id, account, side, price, qty, tif);
      Leads(b, s.out.events, s.book)
  {
    if qty > 0 && b.ladder.InBand(price) && id !in b.orders {
      MatchLeads(b, side, price, qty, sn);
      MatchLeaves(b, side, price, qty);
      var m := Match(b, side, price, qty);
      var execs := Executions(sn, b.symbol, m.fills);
      hide Match, Shaped, Crosses;
      LeadsOn(b, execs, m.book, MdEvent(sn, ADD_EVENT, b.symbol, id, 0, account, side, price, m.remaining, NO_REJECT));
    }
  }

  lemma CancelLeads(b: Book, sn: u64, id: u64)
    requires Valid(b) && id in b.orders
    ensures Leads(b, [Cancellation(b, sn, id)], Drop(b, id))
  {
    FeedKeeps(b, Cancellation(b, sn, id));
  }

  /** A replace that is not rejected leads from its book to its result. */
  lemma ReplaceLeads(b: Book, sn: u64, oldId: u64, id: u64, account: u32, side: u8, price: i64, qty: u32, tif: u8)
    requires Valid(b)
    ensures var s := Replace(b, sn, oldId, id, account, side, price, qty, tif);
      Leads(b, s.out.events, s.book)
  {
    if b.ladder.InBand(price) && oldId in b.orders {
      var ev := Cancellation(b, sn, oldId);
      FeedKeeps(b, ev);
      AddLeads(Drop(b, oldId), sn, id, account, side, price, qty, tif);
      var evs := Add(Drop(b, oldId), sn, id, account, side, price, qty, tif).out.events;
      assert ([ev] + evs)[1..] == evs;
    }
  }

  /** An order that left a book was named by an execution or a cancellation. */
  lemma {:induction false} LeaversAreNamed(b: Book, evs: seq<MdEvent>, r: Book, id: u64)
    requires Valid(b) && Leads(b, evs, r) && id in b.orders && id !in r.orders
    ensures exists ev :: ev in evs && (ev.typ == EXECUTE_EVENT || ev.typ == CANCEL_EVENT) && ev.orderId == id
    decreases |evs|
  {
    FeedKeeps(b, evs[0]);
    var next := Feed(b, evs[0]).value;
    if id in next.orders {
      LeaversAreNamed(next, evs[1..], r, id);
    } else {
      assert evs[0] in evs;
    }
  }

  /** Events differing only in their numbers have the same effect. */
  lemma {:induction false} NumbersDoNotMatter(b: Book, evs: seq<MdEvent>, evs': seq<MdEvent>, r: Book)
    requires Valid(b) && Leads(b, evs, r) && |evs'| == |evs|
    requires forall i :: 0 <= i < |evs| ==> evs'[i] == evs[i].(seqNo := evs'[i].seqNo)
    ensures Leads(b, evs', r)
    decreases |evs|
  {
    if evs != [] {
      FeedKeeps(b, evs[0]);
      assert evs'[0] == evs[0].(seqNo := evs'[0].seqNo);
      NumbersDoNotMatter(Feed(b, evs[0]).value, evs[1..], evs'[1..], r);
    }
  }
}
