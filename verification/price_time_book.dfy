/** The price-time order book as a value: the specification that `OrderBook` refines.

    One first-in-first-out queue of order ids per price level and side, lowest price
    first, and one record of each resting order. */
module PriceTimeBook {
  import opened Types

  datatype Entry = Entry(account: u32, side: u8, price: i64, qty: u32)

  datatype Book = Book(
    symbol: u32, ladder: Ladder, orders: map<u64, Entry>, bids: seq<seq<u64>>, asks: seq<seq<u64>>)
  {
    function Side(buy: bool): seq<seq<u64>> {
      if buy then bids else asks
    }

    function With(buy: bool, i: nat, q: seq<u64>): Book
      requires i < |Side(buy)|
    {
      if buy then this.(bids := bids[i := q]) else this.(asks := asks[i := q])
    }

    function LevelOf(price: i64): int {
      price - ladder.minPrice
    }
  }

  function EmptyBook(symbol: u32, ladder: Ladder): (b: Book)
    requires ladder.Valid()
    ensures Valid(b) && b.orders == map[]
  {
    var none := seq(ladder.Levels(), _ => []);
    Book(symbol, ladder, map[], none, none)
  }

  /** A queue holds resting orders of its own side and level, each once. */
  ghost predicate QueueOk(b: Book, buy: bool, i: int, q: seq<u64>) {
    && NoDup(q)
    && forall k :: 0 <= k < |q| ==>
         q[k] in b.orders && IsBuy(b.orders[q[k]].side) == buy && b.LevelOf(b.orders[q[k]].price) == i
  }

  ghost predicate QueuesOk(b: Book) {
    forall buy: bool, i: int {:trigger QueueOk(b, buy, i, b.Side(buy)[i])} ::
      0 <= i < |b.Side(buy)| ==> QueueOk(b, buy, i, b.Side(buy)[i])
  }

  /** Every resting order is in band and in the queue of its side and price. */
  ghost predicate Placed(b: Book, id: u64, e: Entry) {
    && 0 <= b.LevelOf(e.price) < |b.Side(IsBuy(e.side))|
    && id in b.Side(IsBuy(e.side))[b.LevelOf(e.price)]
  }

  ghost predicate Shaped(b: Book) {
    && b.ladder.Valid()
    && |b.bids| == |b.asks| == b.ladder.Levels()
    && QueuesOk(b)
    && forall id <- b.orders {:trigger Placed(b, id, b.orders[id])} :: Placed(b, id, b.orders[id])
  }

  ghost predicate Positive(orders: map<u64, Entry>) {
    forall id <- orders :: orders[id].qty > 0
  }

  /** The invariant of a book between operations. */
  ghost predicate Valid(b: Book) {
    Shaped(b) && Positive(b.orders)
  }

  function IndexOf(q: seq<u64>, id: u64): (k: nat)
    requires id in q
    ensures k < |q| && q[k] == id && id !in q[..k]
  {
    if q[0] == id then 0 else 1 + IndexOf(q[1..], id)
  }

  function Without(q: seq<u64>, id: u64): seq<u64>
    requires id in q
  {
    var k := IndexOf(q, id);
    q[..k] + q[k + 1..]
  }

  function Queue(b: Book, id: u64): seq<u64>
    requires Shaped(b) && id in b.orders
  {
    assert Placed(b, id, b.orders[id]);
    b.Side(IsBuy(b.orders[id].side))[b.LevelOf(b.orders[id].price)]
  }

  /** A new order joins its level at the tail. */
  function Rest(b: Book, id: u64, e: Entry): Book
    requires Shaped(b) && b.ladder.InBand(e.price)
  {
    var buy, i := IsBuy(e.side), b.LevelOf(e.price);
    b.With(buy, i, b.Side(buy)[i] + [id]).(orders := b.orders[id := e])
  }

  /** An order leaves, wherever in its queue it stands. */
  function Drop(b: Book, id: u64): Book
    requires Shaped(b) && id in b.orders
  {
    var e := b.orders[id];
    assert Placed(b, id, e);
    b.With(IsBuy(e.side), b.LevelOf(e.price), Without(Queue(b, id), id)).(orders := b.orders - {id})
  }

  /** An order's quantity changes; its place does not. */
  function SetQty(b: Book, id: u64, qty: u32): Book
    requires id in b.orders
  {
    b.(orders := b.orders[id := b.orders[id].(qty := qty)])
  }

  /** Filling an order: a partial fill keeps the place, a full one leaves. */
  function FillOrder(b: Book, id: u64, qty: u32): Book
    requires Shaped(b) && id in b.orders
  {
    if qty >= b.orders[id].qty then Drop(b, id) else SetQty(b, id, b.orders[id].qty - qty)
  }

  /** Replacing one queue keeps the shape, when exactly the orders of that queue may
      come, go or change. */
  lemma RequeueKeeps(b: Book, buy: bool, i: nat, q: seq<u64>, orders: map<u64, Entry>)
    requires Shaped(b) && i < |b.Side(buy)|
    requires QueueOk(b.With(buy, i, q).(orders := orders), buy, i, q)
    requires forall x <- b.orders :: x !in b.Side(buy)[i] ==> x in orders && orders[x] == b.orders[x]
    requires forall x <- orders :: x in q || (x in b.orders && orders[x] == b.orders[x] && x !in b.Side(buy)[i])
    ensures Shaped(b.With(buy, i, q).(orders := orders))
  {
    var r := b.With(buy, i, q).(orders := orders);
    forall buy', i' | 0 <= i' < |r.Side(buy')|
      ensures QueueOk(r, buy', i', r.Side(buy')[i'])
    {
      if buy' != buy || i' != i {
        QueuesApart(b, buy, i, buy', i');
        assert QueueOk(b, buy', i', b.Side(buy')[i']);
      }
    }
    forall x <- r.orders
      ensures Placed(r, x, r.orders[x])
    {
      if x !in q {
        assert Placed(b, x, b.orders[x]);
      }
    }
  }

  /** No order stands in two queues. */
  lemma QueuesApart(b: Book, buy: bool, i: nat, buy': bool, i': nat)
    requires Shaped(b) && i < |b.Side(buy)| && i' < |b.Side(buy')| && (buy, i) != (buy', i')
    ensures forall x :: x in b.Side(buy')[i'] ==> x in b.orders && x !in b.Side(buy)[i]
  {
    assert QueueOk(b, buy, i, b.Side(buy)[i]) && QueueOk(b, buy', i', b.Side(buy')[i']);
  }

  lemma RestKeeps(b: Book, id: u64, e: Entry)
    requires Shaped(b) && b.ladder.InBand(e.price) && id !in b.orders
    ensures Shaped(Rest(b, id, e))
    ensures Rest(b, id, e).symbol == b.symbol && Rest(b, id, e).ladder == b.ladder
    ensures Rest(b, id, e).orders == b.orders[id := e]
    ensures Positive(b.orders) && e.qty > 0 ==> Positive(Rest(b, id, e).orders)
  {
    var buy, i := IsBuy(e.side), b.LevelOf(e.price);
    var q := b.Side(buy)[i];
    var q', orders := q + [id], b.orders[id := e];
    assert q'[|q|] == id;
    assert QueueOk(b.With(buy, i, q').(orders := orders), buy, i, q') by {
      assert QueueOk(b, buy, i, q);
      forall k | 0 <= k < |q| ensures q'[k] == q[k] && q[k] in b.orders && q[k] != id {}
    }
    forall x <- orders ensures x in q' || (x in b.orders && orders[x] == b.orders[x] && x !in q) {
      if x in q { assert q'[IndexOf(q, x)] == x; }
    }
    RequeueKeeps(b, buy, i, q', orders);
  }

  lemma WithoutIs(q: seq<u64>, id: u64)
    requires NoDup(q) && id in q
    ensures NoDup(Without(q, id))
    ensures forall x :: x in Without(q, id) <==> x in q && x != id
  {
    var k := IndexOf(q, id);
    assert q == q[..k] + [id] + q[k + 1..];
  }

  lemma DropKeeps(b: Book, id: u64)
    requires Shaped(b) && id in b.orders
    ensures Shaped(Drop(b, id))
    ensures Drop(b, id).symbol == b.symbol && Drop(b, id).ladder == b.ladder && Drop(b, id).orders == b.orders - {id}
    ensures Positive(b.orders - {id}) ==> Positive(Drop(b, id).orders)
  {
    var e, q := b.orders[id], Queue(b, id);
    var buy, i := IsBuy(e.side), b.LevelOf(e.price);
    assert Placed(b, id, e) && QueueOk(b, buy, i, q);
    WithoutIs(q, id);
    var r := b.With(buy, i, Without(q, id)).(orders := b.orders - {id});
    forall k | 0 <= k < |Without(q, id)| ensures Without(q, id)[k] in q && Without(q, id)[k] != id {
      assert Without(q, id)[k] in Without(q, id);
    }
    assert QueueOk(r, buy, i, Without(q, id));
    RequeueKeeps(b, buy, i, Without(q, id), b.orders - {id});
  }
}
