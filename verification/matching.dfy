/** The operations of the specification book: matching, adding, cancelling, replacing,
    and applying one event of the feed. */
module Matching {
  import opened Types
  import opened PriceTimeBook

  /** The first non-empty level at or above `i`. */
  function Lowest(qs: seq<seq<u64>>, i: nat): (r: Option<nat>)
    requires i <= |qs|
    ensures r.None? ==> forall j :: i <= j < |qs| ==> qs[j] == []
    ensures r.Some? ==> i <= r.value < |qs| && qs[r.value] != [] && forall j :: i <= j < r.value ==> qs[j] == []
    decreases |qs| - i
  {
    if i == |qs| then None else if qs[i] != [] then Some(i) else Lowest(qs, i + 1)
  }

  /** The last non-empty level below `n`. */
  function Highest(qs: seq<seq<u64>>, n: nat): (r: Option<nat>)
    requires n <= |qs|
    ensures r.None? ==> forall j :: 0 <= j < n ==> qs[j] == []
    ensures r.Some? ==> r.value < n && qs[r.value] != [] && forall j :: r.value < j < n ==> qs[j] == []
  {
    if n == 0 then None else if qs[n - 1] != [] then Some(n - 1) else Highest(qs, n - 1)
  }

  /** The best occupied level of a side: the highest bid or the lowest ask. */
  function Best(b: Book, buy: bool): (r: Option<nat>)
    ensures r.Some? ==> r.value < |b.Side(buy)| && b.Side(buy)[r.value] != []
  {
    if buy then Highest(b.bids, |b.bids|) else Lowest(b.asks, 0)
  }

  function BestPrice(b: Book, buy: bool): Option<int> {
    var i := Best(b, buy);
    if i.Some? then Some(b.ladder.minPrice + i.value) else None
  }

  /** The order that has priority over every other on its side. */
  function Head(b: Book, buy: bool): u64
    requires Best(b, buy).Some?
  {
    b.Side(buy)[Best(b, buy).value][0]
  }

  /** Whether an aggressor with this limit may trade at `p`. */
  predicate Acceptable(side: u8, limit: i64, p: int) {
    if IsBuy(side) then p <= limit else p >= limit
  }

  predicate Crosses(b: Book, side: u8, price: i64) {
    var best := Best(b, !IsBuy(side));
    best.Some? && Acceptable(side, price, b.ladder.minPrice + best.value)
  }

  /** One fill of a resting order, with the order as it stood before. */
  datatype Fill = Fill(id: u64, e: Entry, qty: u32)

  datatype Matched = Matched(book: Book, fills: seq<Fill>, remaining: u32)

  lemma HeadRests(b: Book, buy: bool)
    requires Shaped(b) && Best(b, buy).Some?
    ensures Head(b, buy) in b.orders
    ensures IsBuy(b.orders[Head(b, buy)].side) == buy
    ensures b.LevelOf(b.orders[Head(b, buy)].price) == Best(b, buy).value
  {
    var i := Best(b, buy).value;
    assert QueueOk(b, buy, i, b.Side(buy)[i]);
  }

  lemma FillKeeps(b: Book, id: u64, qty: u32)
    requires Valid(b) && id in b.orders && qty > 0
    ensures Valid(FillOrder(b, id, qty))
  {
    if qty >= b.orders[id].qty {
      DropKeeps(b, id);
    } else {
      SetQtyKeeps(b, id, b.orders[id].qty - qty);
    }
  }

  lemma SetQtyKeeps(b: Book, id: u64, qty: u32)
    requires Shaped(b) && id in b.orders
    ensures Shaped(SetQty(b, id, qty))
  {
    var r := SetQty(b, id, qty);
    forall buy: bool, i | 0 <= i < |r.Side(buy)|
      ensures QueueOk(r, buy, i, r.Side(buy)[i])
    {
      assert QueueOk(b, buy, i, b.Side(buy)[i]);
    }
    forall x <- r.orders ensures Placed(r, x, r.orders[x]) {
      assert Placed(b, x, b.orders[x]);
    }
  }

  lemma DropAfterSet(b: Book, id: u64, qty: u32)
    requires Shaped(b) && id in b.orders
    ensures Shaped(SetQty(b, id, qty)) && Drop(SetQty(b, id, qty), id) == Drop(b, id)
  {
    SetQtyKeeps(b, id, qty);
    assert SetQty(b, id, qty).orders - {id} == b.orders - {id};
  }

  /** Matching: fill the head of the opposite side until the aggressor is spent or no
      longer crosses. */
  function Match(b: Book, side: u8, price: i64, qty: u32): (m: Matched)
    requires Valid(b)
    ensures Valid(m.book) && m.book.orders.Keys <= b.orders.Keys
    ensures m.book.ladder == b.ladder && m.book.symbol == b.symbol
    ensures m.remaining <= qty
    decreases qty
  {
    if qty == 0 || !Crosses(b, side, price) then Matched(b, [], qty)
    else
      HeadRests(b, !IsBuy(side));
      var id := Head(b, !IsBuy(side));
      var e := b.orders[id];
      var x: u32 := Min(e.qty, qty);
      FillKeeps(b, id, x);
      var m := Match(FillOrder(b, id, x), side, price, qty - x);
      m.(fills := [Fill(id, e, x)] + m.fills)
  }

  /** Fills made before the ones of `m`. */
  function Preceded(fills: seq<Fill>, m: Matched): Matched {
    m.(fills := fills + m.fills)
  }

  lemma IsPositive(b: Book, id: u64)
    requires Valid(b) && id in b.orders
    ensures b.orders[id].qty > 0
  {}

  /** One round of the matching loop. */
  lemma MatchRound(b: Book, side: u8, price: i64, qty: u32, fills: seq<Fill>)
    requires Valid(b) && qty > 0 && Crosses(b, side, price)
    ensures var id := Head(b, !IsBuy(side));
      && id in b.orders && IsBuy(b.orders[id].side) != IsBuy(side)
      && var e := b.orders[id]; var x := Min(e.qty, qty);
         && 0 < x && Valid(FillOrder(b, id, x))
         && Preceded(fills, Match(b, side, price, qty))
            == Preceded(fills + [Fill(id, e, x)], Match(FillOrder(b, id, x), side, price, qty - x))
  {
    hide Shaped, Drop, Best, FillOrder, Positive;
    HeadRests(b, !IsBuy(side));
    var id := Head(b, !IsBuy(side));
    var e := b.orders[id];
    assert e.qty > 0 by { IsPositive(b, id); }
    FillKeeps(b, id, Min(e.qty, qty));
    var m := Match(FillOrder(b, id, Min(e.qty, qty)), side, price, qty - Min(e.qty, qty));
    assert fills + ([Fill(id, e, Min(e.qty, qty))] + m.fills) == fills + [Fill(id, e, Min(e.qty, qty))] + m.fills;
  }

  function Execution(sn: u64, symbol: u32, f: Fill): MdEvent {
    MdEvent(sn, EXECUTE_EVENT, symbol, f.id, 0, f.e.account, f.e.side, f.e.price, f.qty, NO_REJECT)
  }

  function Executions(sn: u64, symbol: u32, fills: seq<Fill>): seq<MdEvent> {
    seq(|fills|, i requires 0 <= i < |fills| => Execution(sn, symbol, fills[i]))
  }

  function TradesOf(sn: u64, symbol: u32, aggressor: u64, fills: seq<Fill>): seq<Trade> {
    seq(|fills|, i requires 0 <= i < |fills| =>
      Trade(sn, symbol, fills[i].id, aggressor, fills[i].e.price, fills[i].qty))
  }

  datatype BookStep = BookStep(book: Book, out: MatchOutput)

  function Rejected(b: Book, remaining: u32, reason: u8): BookStep {
    BookStep(b, MatchOutput([], [], remaining, reason))
  }

  /** A new order: match, then rest what is left of a good-till-cancelled order. */
  function Add(b: Book, sn: u64, id: u64, account: u32, side: u8, price: i64, qty: u32, tif: u8): BookStep
    requires Valid(b)
  {
    if qty == 0 then Rejected(b, qty, INVALID_QTY)
    else if !b.ladder.InBand(price) then Rejected(b, qty, INVALID_PRICE)
    else if id in b.orders then Rejected(b, qty, DUPLICATE_ORDER)
    else
      var m := Match(b, side, price, qty);
      var execs, trades := Executions(sn, b.symbol, m.fills), TradesOf(sn, b.symbol, id, m.fills);
      if m.remaining > 0 && tif == GTC then
        var added := MdEvent(sn, ADD_EVENT, b.symbol, id, 0, account, side, price, m.remaining, NO_REJECT);
        BookStep(Rest(m.book, id, Entry(account, side, price, m.remaining)),
                 MatchOutput(execs + [added], trades, 0, NO_REJECT))
      else
        BookStep(m.book, MatchOutput(execs, trades, m.remaining, NO_REJECT))
  }

  function Cancellation(b: Book, sn: u64, id: u64): MdEvent
    requires id in b.orders
  {
    var e := b.orders[id];
    MdEvent(sn, CANCEL_EVENT, b.symbol, id, 0, e.account, e.side, e.price, e.qty, NO_REJECT)
  }

  /** Cancel-and-add under one command: the new order goes to the tail of its level. */
  function Replace(b: Book, sn: u64, oldId: u64, id: u64, account: u32, side: u8, price: i64, qty: u32, tif: u8)
    : BookStep
    requires Valid(b)
  {
    if !b.ladder.InBand(price) then Rejected(b, 0, INVALID_PRICE)
    else if oldId !in b.orders then Rejected(b, 0, UNKNOWN_ORDER)
    else
      DropKeeps(b, oldId);
      var s := Add(Drop(b, oldId), sn, id, account, side, price, qty, tif);
      s.(out := s.out.(events := [Cancellation(b, sn, oldId)] + s.out.events))
  }

  /** `feed_add`: `None` where it reports failure. */
  function FeedAdd(b: Book, id: u64, e: Entry): Option<Book>
    requires Shaped(b)
  {
    if id in b.orders || e.qty == 0 || !b.ladder.InBand(e.price) then None else Some(Rest(b, id, e))
  }

  /** `feed_execute`: `None` where it reports failure. */
  function FeedExecute(b: Book, id: u64, qty: u32): Option<Book>
    requires Shaped(b)
  {
    if id !in b.orders || qty == 0 then None else Some(FillOrder(b, id, qty))
  }

  function FeedCancel(b: Book, id: u64): Option<Book>
    requires Shaped(b)
  {
    if id !in b.orders then None else Some(Drop(b, id))
  }

  /** What a replica's book does with one event, or `None` where it reports an error. */
  function Feed(b: Book, ev: MdEvent): Option<Book>
    requires Shaped(b)
  {
    if ev.typ == ADD_EVENT then FeedAdd(b, ev.orderId, Entry(ev.account, ev.side, ev.price, ev.qty))
    else if ev.typ == CANCEL_EVENT then FeedCancel(b, ev.orderId)
    else if ev.typ == EXECUTE_EVENT then FeedExecute(b, ev.orderId, ev.qty)
    else Some(b)
  }

  lemma AddKeeps(b: Book, sn: u64, id: u64, account: u32, side: u8, price: i64, qty: u32, tif: u8)
    requires Valid(b)
    ensures Valid(Add(b, sn, id, account, side, price, qty, tif).book)
  {
    if qty != 0 && b.ladder.InBand(price) && id !in b.orders {
      var m := Match(b, side, price, qty);
      if m.remaining > 0 {
        RestKeeps(m.book, id, Entry(account, side, price, m.remaining));
      }
    }
  }

  lemma ReplaceKeeps(b: Book, sn: u64, oldId: u64, id: u64, account: u32, side: u8, price: i64, qty: u32, tif: u8)
    requires Valid(b)
    ensures Valid(Replace(b, sn, oldId, id, account, side, price, qty, tif).book)
  {
    if b.ladder.InBand(price) && oldId in b.orders {
      DropKeeps(b, oldId);
      AddKeeps(Drop(b, oldId), sn, id, account, side, price, qty, tif);
    }
  }

  lemma FeedKeeps(b: Book, ev: MdEvent)
    requires Valid(b)
    ensures Feed(b, ev).Some? ==> Valid(Feed(b, ev).value)
  {
    if Feed(b, ev).Some? {
      if ev.typ == ADD_EVENT {
        RestKeeps(b, ev.orderId, Entry(ev.account, ev.side, ev.price, ev.qty));
      } else if ev.typ == CANCEL_EVENT {
        DropKeeps(b, ev.orderId);
      } else if ev.typ == EXECUTE_EVENT {
        FillKeeps(b, ev.orderId, ev.qty);
      }
    }
  }
}
