/** The cached quantity of each level against the sum over its queue. */
module LevelTotals {
  import opened Types
  import opened PriceTimeBook
  import opened Matching
  import opened Bitmap
  import opened Arena

  function QtyOf(orders: map<u64, Entry>, id: u64): nat {
    if id in orders then orders[id].qty else 0
  }

  function QueueQty(orders: map<u64, Entry>, q: seq<u64>): nat {
    if q == [] then 0 else QueueQty(orders, q[..|q| - 1]) + QtyOf(orders, q[|q| - 1])
  }

  ghost predicate LevelFits(b: Book, buy: bool, i: int) {
    0 <= i < |b.Side(buy)| ==> QueueQty(b.orders, b.Side(buy)[i]) < W32
  }

  /** The quantity resting at each level fits the source's 32-bit total. */
  ghost predicate LevelsFit(b: Book) {
    forall buy, i {:trigger LevelFits(b, buy, i)} :: LevelFits(b, buy, i)
  }

  ghost predicate LevelExact(f: Fields, b: Book, buy: bool, i: int) {
    0 <= i < |b.Side(buy)| && i < |f.Levels(buy)| ==>
      f.Levels(buy)[i].totalQty == QueueQty(b.orders, b.Side(buy)[i])
  }

  /** No level total has wrapped: each is the sum of its queue. */
  ghost predicate Exact(f: Fields, b: Book) {
    forall buy, i {:trigger LevelExact(f, b, buy, i)} :: LevelExact(f, b, buy, i)
  }

  lemma {:induction false} QueueQtySame(orders: map<u64, Entry>, orders': map<u64, Entry>, q: seq<u64>)
    requires forall id :: id in q ==> QtyOf(orders', id) == QtyOf(orders, id)
    ensures QueueQty(orders', q) == QueueQty(orders, q)
  {
    if q != [] {
      assert q[|q| - 1] in q;
      QueueQtySame(orders, orders', q[..|q| - 1]);
    }
  }

  /** One order's share of its queue. */
  lemma {:induction false} QueueQtyAt(orders: map<u64, Entry>, orders': map<u64, Entry>, q: seq<u64>, k: nat)
    requires k < |q| && NoDup(q)
    requires forall id :: id in q && id != q[k] ==> QtyOf(orders', id) == QtyOf(orders, id)
    ensures QueueQty(orders, q) == QueueQty(orders, q[..k] + q[k + 1..]) + QtyOf(orders, q[k])
    ensures QueueQty(orders', q) == QueueQty(orders, q) - QtyOf(orders, q[k]) + QtyOf(orders', q[k])
  {
    var n := |q| - 1;
    if k == n {
      assert q[..k] + q[k + 1..] == q[..n];
      QueueQtySame(orders, orders', q[..n]);
    } else {
      var q' := q[..k] + q[k + 1..];
      assert q'[..n - 1] == q[..n][..k] + q[..n][k + 1..] && q'[n - 1] == q[n];
      assert q[n] in q && q[n] != q[k];
      QueueQtyAt(orders, orders', q[..n], k);
    }
  }

  /** A level whose orders and total are untouched stays exact. */
  lemma OtherLevels(f: Fields, b: Book, g: Fields, r: Book, buy: bool, i: nat, q: seq<u64>)
    requires Shaped(b) && Exact(f, b) && i < |b.Side(buy)|
    requires r == b.With(buy, i, q).(orders := r.orders)
    requires forall x <- b.orders :: x !in b.Side(buy)[i] ==> QtyOf(r.orders, x) == QtyOf(b.orders, x)
    requires forall buy': bool, j :: 0 <= j < |f.Levels(buy')| && (buy', j) != (buy, i) ==>
      j < |g.Levels(buy')| && g.Levels(buy')[j].totalQty == f.Levels(buy')[j].totalQty
    requires |g.Levels(true)| == |f.Levels(true)| && |g.Levels(false)| == |f.Levels(false)|
    requires i < |g.Levels(buy)| ==> g.Levels(buy)[i].totalQty == QueueQty(r.orders, q)
    ensures Exact(g, r)
  {
    forall buy', j ensures LevelExact(g, r, buy', j) {
      if 0 <= j < |b.Side(buy')| && j < |f.Levels(buy')| && (buy', j) != (buy, i) {
        QueuesApart(b, buy, i, buy', j);
        QueueQtySame(b.orders, r.orders, b.Side(buy')[j]);
        assert LevelExact(f, b, buy', j);
      }
    }
  }

  lemma JoinsPlainly(f: Fields, b: Book, id: u64, e: Entry, i: nat)
    requires Joins(f, b, id, e, i)
    ensures b.LevelOf(e.price) == i < |b.Side(IsBuy(e.side))| == |f.Levels(IsBuy(e.side))|
    ensures id !in b.orders && id !in b.Side(IsBuy(e.side))[i] && id in f.index && f.index[id] < |f.nodes|
    ensures var n := f.nodes[f.index[id]]; n.side == e.side && n.levelIdx == i && n.qty == e.qty
  {}

  /** Resting an order keeps the totals exact when the level's new sum fits. */
  lemma AppendedExact(f: Fields, b: Book, id: u64, e: Entry, i: nat)
    requires Shaped(b) && b.ladder.InBand(e.price) && Joins(f, b, id, e, i) && Appendable(f, f.index[id])
    requires Exact(f, b) && LevelsFit(Rest(b, id, e))
    ensures Exact(AppendedTo(f, f.index[id]), Rest(b, id, e))
  {
    hide Joins, Shaped, SetBit, Appended;
    JoinsPlainly(f, b, id, e, i);
    var buy := IsBuy(e.side);
    var q, r := b.Side(buy)[i], Rest(b, id, e);
    assert LevelExact(f, b, buy, i);
    assert QueueQty(r.orders, q + [id]) == QueueQty(b.orders, q) + e.qty by {
      assert (q + [id])[..|q|] == q;
      QueueQtySame(b.orders, r.orders, q);
    }
    hide QueueQty;
    assert LevelFits(r, buy, i);
    OtherLevels(f, b, AppendedTo(f, f.index[id]), r, buy, i, q + [id]);
  }

  lemma LeavesPlainly(f: Fields, b: Book, id: u64, i: nat, k: nat)
    requires Leaves(f, b, id, i, k)
    ensures id in b.orders && id in f.index && f.index[id] < |f.nodes|
    ensures var e, n := b.orders[id], f.nodes[f.index[id]];
      && n.side == e.side && n.levelIdx == i && n.qty == e.qty && b.LevelOf(e.price) == i
      && i < |b.Side(IsBuy(e.side))| == |f.Levels(IsBuy(e.side))|
      && var q := b.Side(IsBuy(e.side))[i];
         && NoDup(q) && k < |q| && q[k] == id && Without.requires(q, id) && Without(q, id) == q[..k] + q[k + 1..]
         && f.Levels(IsBuy(e.side))[i].count == |q|
  {}

  /** Removing an order with its whole quantity keeps the totals exact. */
  lemma RemovedExact(f: Fields, b: Book, id: u64, i: nat, k: nat, best: Option<nat>)
    requires Shaped(b) && Leaves(f, b, id, i, k) && Removable(f, f.index[id]) && Exact(f, b)
    ensures Exact(RemovedFrom(f, f.index[id], b.orders[id].qty, best), Drop(b, id))
  {
    hide Leaves, Shaped, ClearBit, Relinked;
    LeavesPlainly(f, b, id, i, k);
    var buy := IsBuy(b.orders[id].side);
    var q, r, g := b.Side(buy)[i], Drop(b, id), RemovedFrom(f, f.index[id], b.orders[id].qty, best);
    var q' := q[..k] + q[k + 1..];
    assert LevelExact(f, b, buy, i);
    assert QueueQty(r.orders, q') == QueueQty(b.orders, q) - b.orders[id].qty by {
      QueueQtyAt(b.orders, r.orders, q, k);
      assert forall x :: x in q' ==> x in q && x != id by { WithoutIs(q, id); }
      QueueQtySame(b.orders, r.orders, q');
    }
    assert q' == [] ==> QueueQty(r.orders, q') == 0;
    hide QueueQty;
    OtherLevels(f, b, g, r, buy, i, q');
  }

  lemma ExactAt(f: Fields, b: Book, buy: bool, i: nat)
    requires Exact(f, b) && i < |b.Side(buy)| && i < |f.Levels(buy)|
    ensures f.Levels(buy)[i].totalQty == QueueQty(b.orders, b.Side(buy)[i])
  {
    assert LevelExact(f, b, buy, i);
  }

  /** Taking the same quantity off an order and its level keeps the totals exact. */
  lemma ReducedExact(f: Fields, b: Book, id: u64, i: nat, k: nat, qty: u32, g: Fields)
    requires Shaped(b) && Leaves(f, b, id, i, k) && Exact(f, b) && qty <= b.orders[id].qty
    requires var buy, level := IsBuy(b.orders[id].side), f.Levels(IsBuy(b.orders[id].side))[i];
      g.bids == f.Store(buy, i, level.(totalQty := Wrap32(level.totalQty - qty))).bids
      && g.asks == f.Store(buy, i, level.(totalQty := Wrap32(level.totalQty - qty))).asks
    ensures Exact(g, SetQty(b, id, b.orders[id].qty - qty))
  {
    hide Leaves, Shaped, Without, Exact;
    LeavesPlainly(f, b, id, i, k);
    var buy := IsBuy(b.orders[id].side);
    var q, r := b.Side(buy)[i], SetQty(b, id, b.orders[id].qty - qty);
    ExactAt(f, b, buy, i);
    QueueQtyAt(b.orders, r.orders, q, k);
    hide QueueQty;
    assert b.With(buy, i, q) == b;
    OtherLevels(f, b, g, r, buy, i, q);
  }

  function NodeFor(b: Book, id: u64, e: Entry): Node
    requires Shaped(b) && b.ladder.InBand(e.price)
  {
    Node(id, e.account, e.side, e.price, e.qty, b.LevelOf(e.price), NULL, NULL, true)
  }

  /** The fields after a new order was given a node and appended to its level. */
  function RestedIn(f: Fields, b: Book, id: u64, e: Entry): Fields
    requires Shaped(b) && b.ladder.InBand(e.price) && |f.nodes| < NULL && (f.free != [] ==> AllocAt(f) < |f.nodes|)
    requires Appendable(Allocated(f, NodeFor(b, id, e)), AllocAt(f))
  {
    AppendedTo(Allocated(f, NodeFor(b, id, e)), AllocAt(f))
  }

  /** Resting an order, on the fields and on the book. */
  lemma RestRepresents(f: Fields, b: Book, id: u64, e: Entry)
    requires Represents(f, b, {}) && id !in b.orders && b.ladder.InBand(e.price) && |f.nodes| < NULL
    ensures f.free != [] ==> AllocAt(f) < |f.nodes|
    ensures Appendable(Allocated(f, NodeFor(b, id, e)), AllocAt(f))
    ensures Represents(RestedIn(f, b, id, e), Rest(b, id, e), {})
    ensures |RestedIn(f, b, id, e).nodes| == Max(|f.nodes|, |Rest(b, id, e).orders|)
  {
    hide ArenaOk, OrdersOk, SideRep, Shaped, Max, Rest;
    OrdersFit(f, b);
    AllocRepresents(f, b, NodeFor(b, id, e));
    AppendedRepresents(Allocated(f, NodeFor(b, id, e)), b, id, e);
    RestKeeps(b, id, e);
  }

  lemma RestExact(f: Fields, b: Book, id: u64, e: Entry)
    requires Represents(f, b, {}) && id !in b.orders && b.ladder.InBand(e.price) && |f.nodes| < NULL
    requires Exact(f, b) && LevelsFit(Rest(b, id, e))
    requires f.free != [] ==> AllocAt(f) < |f.nodes|
    requires Appendable(Allocated(f, NodeFor(b, id, e)), AllocAt(f))
    ensures Exact(RestedIn(f, b, id, e), Rest(b, id, e))
  {
    assert id !in f.index;
    AllocRepresents(f, b, NodeFor(b, id, e));
    var g := Allocated(f, NodeFor(b, id, e));
    JoinLevel(g, b, id, e);
    hide ArenaOk, OrdersOk, SideRep, Joins, QueuesOk, LevelExact, LevelsFit;
    AllocExact(f, b, g);
    AppendedExact(g, b, id, e, b.LevelOf(e.price));
  }

  lemma AllocExact(f: Fields, b: Book, g: Fields)
    requires Exact(f, b) && g.bids == f.bids && g.asks == f.asks
    ensures Exact(g, b)
  {
    forall buy, i ensures LevelExact(g, b, buy, i) {
      assert LevelExact(f, b, buy, i);
    }
  }

  /** Everything `remove_node` needs for a resting order. */
  lemma CanRemove(f: Fields, b: Book, id: u64) returns (i: nat, k: nat)
    requires Represents(f, b, {}) && id in b.orders
    ensures Leaves(f, b, id, i, k) && Removable(f, f.index[id])
    ensures NoStray(ClearBit(f.Bitmap(IsBuy(b.orders[id].side)), i), b.ladder.Levels())
    ensures f.Levels(IsBuy(b.orders[id].side))[i].count == |b.Side(IsBuy(b.orders[id].side))[i]|
  {
    i, k := LeaveLevel(f, b, id);
    RemovedList(f, b, id, i, k, 0, None);
  }

  /** Removing a resting order, on the fields and on the book. */
  lemma DropRepresents(f: Fields, b: Book, id: u64, i: nat, k: nat, best: Option<nat>)
    requires Represents(f, b, {}) && Leaves(f, b, id, i, k) && Removable(f, f.index[id])
    requires f.Levels(IsBuy(b.orders[id].side))[i].count <= 1 ==> Recomputed(f, IsBuy(b.orders[id].side), i, best)
    ensures var g := RemovedFrom(f, f.index[id], b.orders[id].qty, best);
      && Represents(g, Drop(b, id), {}) && |g.nodes| == |f.nodes| && (Exact(f, b) ==> Exact(g, Drop(b, id)))
  {
    hide ArenaOk, OrdersOk, SideRep, Shaped, Recomputed, LevelExact, Leaves;
    LeavesPlainly(f, b, id, i, k);
    RemovedRepresents(f, b, id, i, k, b.orders[id].qty, best);
    if Exact(f, b) { RemovedExact(f, b, id, i, k, best); }
  }

  /** A level's total plays no part in what the fields represent. */
  lemma TotalRepresents(f: Fields, b: Book, buy: bool, i: nat, total: u32)
    requires Represents(f, b, {}) && i < |f.Levels(buy)|
    ensures Represents(f.Store(buy, i, f.Levels(buy)[i].(totalQty := total)), b, {})
  {
    var g := f.Store(buy, i, f.Levels(buy)[i].(totalQty := total));
    forall side: bool ensures SideRep(g, b, side) {
      forall j | 0 <= j < |b.Side(side)| ensures ListOk(g.nodes, g.index, b.Side(side)[j], g.Levels(side)[j]) {
        assert ListOk(f.nodes, f.index, b.Side(side)[j], f.Levels(side)[j]);
        ListIgnoresTotal(g.nodes, g.index, b.Side(side)[j], f.Levels(side)[j], g.Levels(side)[j]);
      }
    }
    hide ArenaOk, OrdersOk, Shaped, SideRep;
  }

  predicate Takeable(f: Fields, idx: u32, qty: u32) {
    idx < |f.nodes| && qty <= f.nodes[idx].qty && f.nodes[idx].levelIdx < |f.Levels(IsBuy(f.nodes[idx].side))|
  }

  /** The fields after `qty` was taken off an order and off its level. */
  function TakenFrom(f: Fields, idx: u32, qty: u32): Fields
    requires Takeable(f, idx, qty)
  {
    var n := f.nodes[idx];
    var level := f.Levels(IsBuy(n.side))[n.levelIdx];
    f.(nodes := f.nodes[idx := n.(qty := n.qty - qty)])
     .Store(IsBuy(n.side), n.levelIdx, level.(totalQty := Wrap32(level.totalQty - qty)))
  }

  /** A partial fill, on the fields and on the book. */
  lemma TakeRepresents(f: Fields, b: Book, id: u64, i: nat, k: nat, qty: u32)
    requires Represents(f, b, {}) && Leaves(f, b, id, i, k) && qty <= b.orders[id].qty
    ensures Takeable(f, f.index[id], qty)
    ensures var g, r := TakenFrom(f, f.index[id], qty), SetQty(b, id, b.orders[id].qty - qty);
      Represents(g, r, {}) && (Exact(f, b) ==> Exact(g, r))
  {
    hide ArenaOk, OrdersOk, SideRep, Shaped, LevelExact, Leaves;
    LeavesPlainly(f, b, id, i, k);
    var idx, r := f.index[id], SetQty(b, id, b.orders[id].qty - qty);
    var buy, level := IsBuy(b.orders[id].side), f.Levels(IsBuy(b.orders[id].side))[i];
    var f' := f.(nodes := f.nodes[idx := f.nodes[idx].(qty := b.orders[id].qty - qty)]);
    QtyRepresents(f, b, id, b.orders[id].qty - qty);
    TotalRepresents(f', r, buy, i, Wrap32(level.totalQty - qty));
    if Exact(f, b) { ReducedExact(f, b, id, i, k, qty, TakenFrom(f, idx, qty)); }
  }

  /** The head of the best list is the node of the order with priority. */
  lemma HeadNode(f: Fields, b: Book, buy: bool)
    requires Represents(f, b, {})
    ensures f.Best(buy) == Best(b, buy)
    ensures Best(b, buy).Some? ==>
      && f.Best(buy).value < |f.Levels(buy)| && Head(b, buy) in f.index && f.index[Head(b, buy)] < |f.nodes|
      && f.Levels(buy)[f.Best(buy).value].head == f.index[Head(b, buy)]
  {
    if Best(b, buy).Some? {
      HeadRests(b, buy);
      var i := Best(b, buy).value;
      assert ListOk(f.nodes, f.index, b.Side(buy)[i], f.Levels(buy)[i]);
      assert Held(f.nodes, f.index, Head(b, buy));
    }
  }

  /** The matching loop half way: `fills` made, `left` still to trade, the rest of the
      match is the match of the book as it stands. */
  ghost predicate Progress(b0: Book, b: Book, id: u64, side: u8, price: i64, qty: u32, fills: seq<Fill>, left: u32) {
    && Valid(b0) && Valid(b) && b.symbol == b0.symbol && b.ladder == b0.ladder && b0.ladder.InBand(price)
    && id !in b.orders
    && Match(b0, side, price, qty) == Preceded(fills, Match(b, side, price, left))
  }

  lemma ProgressStep(b0: Book, b: Book, id: u64, side: u8, price: i64, qty: u32, fills: seq<Fill>, left: u32)
    requires Progress(b0, b, id, side, price, qty, fills, left) && left > 0 && Crosses(b, side, price)
    ensures var h := Head(b, !IsBuy(side));
      && h in b.orders
      && var x := Min(b.orders[h].qty, left);
         Progress(b0, FillOrder(b, h, x), id, side, price, qty, fills + [Fill(h, b.orders[h], x)], left - x)
  {
    var h := Head(b, !IsBuy(side));
    MatchRound(b, side, price, left, fills);
    FillKeeps(b, h, Min(b.orders[h].qty, left));
  }

  lemma ProgressStart(b: Book, id: u64, side: u8, price: i64, qty: u32)
    requires Valid(b) && b.ladder.InBand(price) && id !in b.orders
    ensures Progress(b, b, id, side, price, qty, [], qty)
  {
    assert [] + Match(b, side, price, qty).fills == Match(b, side, price, qty).fills;
  }

  lemma ProgressEnd(b0: Book, b: Book, id: u64, side: u8, price: i64, qty: u32, fills: seq<Fill>, left: u32)
    requires Progress(b0, b, id, side, price, qty, fills, left) && (left == 0 || !Crosses(b, side, price))
    ensures Match(b0, side, price, qty) == Matched(b, fills, left)
  {
    assert fills + [] == fills;
  }

  lemma ExecutionsGrow(sn: u64, symbol: u32, aggressor: u64, fills: seq<Fill>, f: Fill)
    ensures Executions(sn, symbol, fills + [f]) == Executions(sn, symbol, fills) + [Execution(sn, symbol, f)]
    ensures TradesOf(sn, symbol, aggressor, fills + [f])
         == TradesOf(sn, symbol, aggressor, fills) + [Trade(sn, symbol, f.id, aggressor, f.e.price, f.qty)]
  {}

  lemma OrdersFit(f: Fields, b: Book)
    requires Represents(f, b, {})
    ensures |b.orders| <= |f.nodes| && f.index.Keys == b.orders.Keys && Shaped(b)
  {
    assert |f.index.Keys| == |b.orders.Keys|;
  }

  lemma NodeCarries(f: Fields, b: Book, id: u64)
    requires Represents(f, b, {}) && id in b.orders
    ensures Shaped(b) && id in f.index && f.index[id] < |f.nodes|
    ensures var n, e := f.nodes[f.index[id]], b.orders[id];
      n.active && n.orderId == id && n.account == e.account && n.side == e.side && n.price == e.price && n.qty == e.qty
      && n.levelIdx == b.LevelOf(e.price)
  {
    assert Carries(f.nodes, f.index, b, id) && Held(f.nodes, f.index, id);
  }

  lemma LadderOf(b: Book)
    requires Shaped(b)
    ensures b.ladder.Valid() && |b.bids| == |b.asks| == b.ladder.Levels()
  {}

  /** Walking a level's list visits its queue in order and stops at its end. */
  lemma WalkStep(f: Fields, b: Book, buy: bool, i: nat, k: nat)
    requires Represents(f, b, {}) && i < |b.Side(buy)| && k <= |b.Side(buy)[i]|
    ensures |f.Levels(buy)| == |b.Side(buy)|
    ensures var q, at := b.Side(buy)[i], Ptr(f.index, b.Side(buy)[i], k);
      && (at == NULL <==> k == |q|)
      && (k == 0 ==> f.Levels(buy)[i].head == at)
      && (k < |q| ==>
          && at < |f.nodes| && q[k] in b.orders
          && var n, e := f.nodes[at], b.orders[q[k]];
             n.orderId == q[k] && n.account == e.account && n.qty == e.qty && n.next == Ptr(f.index, q, k + 1))
  {
    var q := b.Side(buy)[i];
    assert QueueOk(b, buy, i, q) && ListOk(f.nodes, f.index, q, f.Levels(buy)[i]);
    if k < |q| {
      assert Link(f.nodes, f.index, q, k);
      NodeCarries(f, b, q[k]);
      assert Held(f.nodes, f.index, q[k]);
    }
  }

  /** A set bit is an occupied level. */
  lemma BitIsOccupied(f: Fields, b: Book, buy: bool, j: nat)
    requires Represents(f, b, {}) && j < |b.Side(buy)|
    ensures j / 64 < |f.Bitmap(buy)| && (HasBit(f.Bitmap(buy), j) <==> b.Side(buy)[j] != [])
  {
    assert SideRep(f, b, buy);
  }

  lemma LadderFits(f: Fields, b: Book)
    requires Represents(f, b, {})
    ensures b.ladder.Valid() && |b.bids| == |b.asks| == |f.bids| == |f.asks| == b.ladder.Levels()
  {}

  lemma BitmapsReflect(f: Fields, b: Book)
    requires Represents(f, b, {})
    ensures b.ladder.Valid()
    ensures Reflects(f.bidBitmap, b.bids) && NoStray(f.bidBitmap, b.ladder.Levels())
    ensures Reflects(f.askBitmap, b.asks) && NoStray(f.askBitmap, b.ladder.Levels())
  {}
}
