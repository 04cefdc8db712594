/** One symbol's limit order book: a node arena, linked price levels, occupancy bitmaps,
    cached best levels. Refines `PriceTimeBook` and `Matching`, operation by operation. */
module OrderBooks {
  import opened Types
  import opened PriceTimeBook
  import opened Matching
  import opened Bitmap
  import opened Arena
  import opened LevelTotals
  import opened Checksum
  import opened BookChecksum

  class OrderBook {
    const symbolId: u32
    const ladder: Ladder
    var nodes: seq<Node>
    var free: seq<u32>
    var index: map<u64, u32>
    var bids: seq<Level>
    var asks: seq<Level>
    var bidBitmap: seq<bv64>
    var askBitmap: seq<bv64>
    var bidLevelCount: nat
    var askLevelCount: nat
    var bestBidIdx: Option<nat>
    var bestAskIdx: Option<nat>

    /** The book this object represents. */
    ghost var view: Book

    ghost function Snapshot(): Fields
      reads this
    {
      Fields(nodes, free, index, bids, asks, bidBitmap, askBitmap, bidLevelCount, askLevelCount, bestBidIdx, bestAskIdx)
    }

    ghost predicate Shape()
      reads this
    {
      view.symbol == symbolId && view.ladder == ladder && Represents(Snapshot(), view, {})
    }

    ghost predicate Valid()
      reads this
    {
      Shape() && Positive(view.orders)
    }

    constructor (symbolId: u32, ladder: Ladder)
      requires ladder.Valid()
      ensures Valid() && view == EmptyBook(symbolId, ladder) && nodes == [] && this.symbolId == symbolId
      ensures Exact(Snapshot(), view)
    {
      this.symbolId, this.ladder := symbolId, ladder;
      var levels := ladder.Levels();
      nodes, free, index := [], [], map[];
      bids, asks := seq(levels, _ => NO_ORDERS), seq(levels, _ => NO_ORDERS);
      bidBitmap, askBitmap := seq((levels + 63) / 64, _ => 0), seq((levels + 63) / 64, _ => 0);
      bidLevelCount, askLevelCount := 0, 0;
      bestBidIdx, bestAskIdx := None, None;
      view := EmptyBook(symbolId, ladder);
      new;
      EmptySide(view.bids, true);
      EmptySide(view.asks, false);
    }

    /** `find_lowest_occupied`: word by word, lowest set bit first. */
    method FindLowestOccupied(bitmap: seq<bv64>) returns (r: Option<nat>)
      requires ladder.Valid() && NoStray(bitmap, ladder.Levels())
      ensures BestBit(bitmap, false, r)
    {
      hide Meets, OneAt;
      var w := 0;
      while w < |bitmap|
        invariant w <= |bitmap|
        invariant forall j: nat {:trigger HasBit(bitmap, j)} :: j < 64 * w ==> !HasBit(bitmap, j)
      {
        if bitmap[w] != 0 {
          var idx := w * 64 + CountrZero(bitmap[w]);
          assert HasBit(bitmap, idx);
          if idx < ladder.Levels() { return Some(idx); }
        }
        forall j: nat | 64 * w <= j < 64 * (w + 1) ensures !HasBit(bitmap, j) {
          if bitmap[w] == 0 { ZeroMisses(OneAt(j % 64)); }
        }
        w := w + 1;
      }
      return None;
    }

    /** `find_highest_occupied`: word by word from the top, highest set bit first. */
    method FindHighestOccupied(bitmap: seq<bv64>) returns (r: Option<nat>)
      requires ladder.Valid() && NoStray(bitmap, ladder.Levels())
      ensures BestBit(bitmap, true, r)
    {
      hide Meets, OneAt;
      var w := |bitmap|;
      while w > 0
        invariant 0 <= w <= |bitmap|
        invariant forall j: nat {:trigger HasBit(bitmap, j)} :: 64 * w <= j < 64 * |bitmap| ==> !HasBit(bitmap, j)
      {
        if bitmap[w - 1] != 0 {
          var idx := (w - 1) * 64 + (63 - CountlZero(bitmap[w - 1]));
          assert HasBit(bitmap, idx);
          if idx < ladder.Levels() { return Some(idx); }
        }
        forall j: nat | 64 * (w - 1) <= j < 64 * w ensures !HasBit(bitmap, j) {
          if bitmap[w - 1] == 0 { ZeroMisses(OneAt(j % 64)); }
        }
        w := w - 1;
      }
      return None;
    }

    method SetOccupied(side: u8, i: nat)
      requires i / 64 < |Snapshot().Bitmap(IsBuy(side))|
      modifies `bidBitmap, `askBitmap, `bestBidIdx, `bestAskIdx
      ensures var f, buy := old(Snapshot()), IsBuy(side);
        Snapshot() == f.Mark(buy, SetBit(f.Bitmap(buy), i), f.Count(buy), BestWith(f.Best(buy), buy, i))
    {
      if IsBuy(side) {
        bidBitmap := SetBit(bidBitmap, i);
        if bestBidIdx.None? || i > bestBidIdx.value { bestBidIdx := Some(i); }
      } else {
        askBitmap := SetBit(askBitmap, i);
        if bestAskIdx.None? || i < bestAskIdx.value { bestAskIdx := Some(i); }
      }
    }

    method AllocNode(id: u64, account: u32, side: u8, price: i64, qty: u32) returns (idx: u32)
      requires |nodes| < NULL && (free != [] ==> AllocAt(Snapshot()) < |nodes|)
      requires ladder.Valid() && ladder.InBand(price)
      modifies `nodes, `free, `index
      ensures idx == old(AllocAt(Snapshot()))
      ensures Snapshot() == Allocated(old(Snapshot()),
        Node(id, account, side, price, qty, price - ladder.minPrice, NULL, NULL, true))
    {
      if |free| > 0 {
        idx := free[|free| - 1];
        free := free[..|free| - 1];
        nodes := nodes[idx := BLANK];
      } else {
        idx := |nodes|;
        nodes := nodes + [BLANK];
      }
      nodes := nodes[idx := Node(id, account, side, price, qty, price - ladder.minPrice, NULL, NULL, true)];
      index := index[id := idx];
    }

    method StoreLevel(side: u8, i: nat, level: Level)
      requires i < |Snapshot().Levels(IsBuy(side))|
      modifies `bids, `asks
      ensures Snapshot() == old(Snapshot()).Store(IsBuy(side), i, level)
    {
      if IsBuy(side) { bids := bids[i := level]; } else { asks := asks[i := level]; }
    }

    /** The list part of `append_to_level`. */
    method LinkAtTail(idx: u32) returns (level: Level)
      requires Appendable(Snapshot(), idx)
      modifies `nodes
      ensures Snapshot() == LinkedAtTail(old(Snapshot()), idx)
      ensures level == LevelWith(old(Snapshot()), idx)
    {
      var n := nodes[idx];
      level := if IsBuy(n.side) then bids[n.levelIdx] else asks[n.levelIdx];
      nodes := nodes[idx := n.(prev := level.tail, next := NULL)];
      if level.tail != NULL {
        nodes := nodes[level.tail := nodes[level.tail].(next := idx)];
      } else {
        level := level.(head := idx);
      }
      level := level.(tail := idx, totalQty := Wrap32(level.totalQty + n.qty), count := Wrap32(level.count + 1));
    }

    /** The part of `append_to_level` for a level that was empty. */
    method OccupyLevel(side: u8, i: nat)
      requires i / 64 < |Snapshot().Bitmap(IsBuy(side))|
      modifies `bidBitmap, `askBitmap, `bidLevelCount, `askLevelCount, `bestBidIdx, `bestAskIdx
      ensures var f, buy := old(Snapshot()), IsBuy(side);
        Snapshot() == f.Mark(buy, SetBit(f.Bitmap(buy), i), f.Count(buy) + 1, BestWith(f.Best(buy), buy, i))
    {
      if IsBuy(side) { bidLevelCount := bidLevelCount + 1; } else { askLevelCount := askLevelCount + 1; }
      SetOccupied(side, i);
    }

    method AppendToLevel(idx: u32)
      requires Appendable(Snapshot(), idx)
      modifies `nodes, `bids, `asks, `bidBitmap, `askBitmap, `bidLevelCount, `askLevelCount, `bestBidIdx, `bestAskIdx
      ensures Snapshot() == AppendedTo(old(Snapshot()), idx)
    {
      var n := nodes[idx];
      var wasEmpty := (if IsBuy(n.side) then bids[n.levelIdx] else asks[n.levelIdx]).count == 0;
      var level := LinkAtTail(idx);
      hide LinkedAtTail, LevelWith, SetBit, BestWith;
      StoreLevel(n.side, n.levelIdx, level);
      if wasEmpty { OccupyLevel(n.side, n.levelIdx); }
    }

    method ClearOccupied(side: u8, i: nat)
      requires i / 64 < |Snapshot().Bitmap(IsBuy(side))| && ladder.Valid()
      requires NoStray(ClearBit(Snapshot().Bitmap(IsBuy(side)), i), ladder.Levels())
      modifies `bidBitmap, `askBitmap, `bestBidIdx, `bestAskIdx
      ensures var f, buy := old(Snapshot()), IsBuy(side);
        && Snapshot() == f.Mark(buy, ClearBit(f.Bitmap(buy), i), f.Count(buy), Snapshot().Best(buy))
        && Recomputed(f, buy, i, Snapshot().Best(buy))
    {
      hide BestBit, ClearBit;
      if IsBuy(side) {
        bidBitmap := ClearBit(bidBitmap, i);
        if bestBidIdx == Some(i) { bestBidIdx := FindHighestOccupied(bidBitmap); }
      } else {
        askBitmap := ClearBit(askBitmap, i);
        if bestAskIdx == Some(i) { bestAskIdx := FindLowestOccupied(askBitmap); }
      }
    }

    method FreeNode(idx: u32)
      requires idx < |nodes|
      modifies `nodes, `free, `index
      ensures Snapshot() == Freed(old(Snapshot()), idx)
    {
      index := index - {nodes[idx].orderId};
      nodes := nodes[idx := BLANK];
      free := free + [idx];
    }

    /** The list part of `remove_node`. */
    method Unlink(idx: u32, removedQty: u32) returns (level: Level)
      requires Removable(Snapshot(), idx)
      modifies `nodes
      ensures Snapshot() == Unlinked(old(Snapshot()), idx)
      ensures level == LevelWithout(old(Snapshot()), idx, removedQty)
    {
      ghost var f := Snapshot();
      var n := nodes[idx];
      level := if IsBuy(n.side) then bids[n.levelIdx] else asks[n.levelIdx];
      if n.prev != NULL {
        nodes := nodes[n.prev := nodes[n.prev].(next := n.next)];
      } else {
        level := level.(head := n.next);
      }
      if n.next != NULL {
        nodes := nodes[n.next := nodes[n.next].(prev := n.prev)];
      } else {
        level := level.(tail := n.prev);
      }
      level := level.(totalQty := level.totalQty - Min(level.totalQty, removedQty));
      if level.count > 0 { level := level.(count := level.count - 1); }
    }

    /** The part of `remove_node` for a level that became empty. */
    method VacateLevel(side: u8, i: nat)
      requires i < |Snapshot().Levels(IsBuy(side))| && Snapshot().Count(IsBuy(side)) > 0
      requires i / 64 < |Snapshot().Bitmap(IsBuy(side))| && ladder.Valid()
      requires NoStray(ClearBit(Snapshot().Bitmap(IsBuy(side)), i), ladder.Levels())
      modifies `bids, `asks, `bidBitmap, `askBitmap, `bidLevelCount, `askLevelCount, `bestBidIdx, `bestAskIdx
      ensures var f, buy := old(Snapshot()), IsBuy(side);
        && Snapshot() == f.Store(buy, i, NO_ORDERS).Mark(buy, ClearBit(f.Bitmap(buy), i), f.Count(buy) - 1,
                                                         Snapshot().Best(buy))
        && Recomputed(f, buy, i, Snapshot().Best(buy))
    {
      hide BestBit, ClearBit, NoStray;
      StoreLevel(side, i, NO_ORDERS);
      if IsBuy(side) { bidLevelCount := bidLevelCount - 1; } else { askLevelCount := askLevelCount - 1; }
      ClearOccupied(side, i);
    }

    method RemoveNode(sn: u64, idx: u32, removedQty: u32, typ: u8) returns (ev: MdEvent)
      requires Removable(Snapshot(), idx) && ladder.Valid()
      requires NoStray(ClearBit(Snapshot().Bitmap(IsBuy(nodes[idx].side)), nodes[idx].levelIdx), ladder.Levels())
      modifies `nodes, `free, `index, `bids, `asks
      modifies `bidBitmap, `askBitmap, `bidLevelCount, `askLevelCount, `bestBidIdx, `bestAskIdx
      ensures var f, n := old(Snapshot()), old(nodes[idx]);
        var buy := IsBuy(n.side);
        && Snapshot() == RemovedFrom(f, idx, removedQty, Snapshot().Best(buy))
        && (f.Levels(buy)[n.levelIdx].count <= 1 ==> Recomputed(f, buy, n.levelIdx, Snapshot().Best(buy)))
        && ev == MdEvent(sn, typ, symbolId, n.orderId, 0, n.account, n.side, n.price, removedQty, NO_REJECT)
    {
      var n := nodes[idx];
      var level := Unlink(idx, removedQty);
      hide BestBit, ClearBit, NoStray;
      ev := MdEvent(sn, typ, symbolId, n.orderId, 0, n.account, n.side, n.price, removedQty, NO_REJECT);
      if level.count == 0 {
        VacateLevel(n.side, n.levelIdx);
      } else {
        StoreLevel(n.side, n.levelIdx, level);
      }
      FreeNode(idx);
    }

    /** Allocate a node and append it to its level. */
    method RestOrder(id: u64, account: u32, side: u8, price: i64, qty: u32)
      requires Shape() && id !in view.orders && ladder.InBand(price) && |nodes| < NULL
      modifies this
      ensures Shape() && view == Rest(old(view), id, Entry(account, side, price, qty))
      ensures old(Positive(view.orders)) && qty > 0 ==> Positive(view.orders)
      ensures |nodes| == Max(old(|nodes|), |view.orders|)
      ensures old(Exact(Snapshot(), view)) && LevelsFit(view) ==> Exact(Snapshot(), view)
    {
      hide Represents, Exact, LevelsFit, Allocated, AppendedTo, Appendable, Shaped, Max;
      ghost var f, e := Snapshot(), Entry(account, side, price, qty);
      OrdersFit(f, view);
      LadderOf(view);
      RestRepresents(f, view, id, e);
      if Exact(f, view) && LevelsFit(Rest(view, id, e)) { RestExact(f, view, id, e); }
      var idx := AllocNode(id, account, side, price, qty);
      AppendToLevel(idx);
      view := Rest(view, id, e);
    }

    /** `remove_node` for the node of a resting order, with the quantity it has left. */
    method RemoveOrder(sn: u64, idx: u32, removedQty: u32, typ: u8, ghost id: u64) returns (ev: MdEvent)
      requires Shape() && id in view.orders && idx == index[id] && removedQty == view.orders[id].qty
      modifies this
      ensures Shape() && view == Drop(old(view), id)
      ensures old(Positive(view.orders - {id})) ==> Positive(view.orders)
      ensures ev == Cancellation(old(view), sn, id).(typ := typ)
      ensures |nodes| == old(|nodes|)
      ensures old(Exact(Snapshot(), view)) ==> Exact(Snapshot(), view)
    {
      hide Represents, Removable, RemovedFrom, NoStray, ClearBit, Recomputed, Exact, Leaves, Shaped, Drop;
      ghost var f, b := Snapshot(), view;
      ghost var buy := IsBuy(view.orders[id].side);
      ghost var i, k := CanRemove(f, b, id);
      NodeCarries(f, b, id);
      LadderOf(view);
      LeavesPlainly(f, b, id, i, k);
      DropKeeps(b, id);
      ev := RemoveNode(sn, idx, removedQty, typ);
      DropRepresents(f, b, id, i, k, Snapshot().Best(buy));
      view := Drop(view, id);
    }

    /** Take `qty` off a node and off its level. */
    method TakeFromNode(idx: u32, qty: u32)
      requires Takeable(Snapshot(), idx, qty)
      modifies `nodes, `bids, `asks
      ensures Snapshot() == TakenFrom(old(Snapshot()), idx, qty)
    {
      hide Wrap32;
      var n := nodes[idx];
      var level := if IsBuy(n.side) then bids[n.levelIdx] else asks[n.levelIdx];
      nodes := nodes[idx := n.(qty := n.qty - qty)];
      StoreLevel(n.side, n.levelIdx, level.(totalQty := Wrap32(level.totalQty - qty)));
    }

    method TakeQty(idx: u32, qty: u32, ghost id: u64)
      requires Shape() && id in view.orders && idx < |nodes| && idx == index[id] && qty <= view.orders[id].qty
      modifies `nodes, `bids, `asks, `view
      ensures Shape() && view == SetQty(old(view), id, old(view).orders[id].qty - qty)
      ensures |nodes| == old(|nodes|) && nodes[idx] == old(nodes[idx]).(qty := view.orders[id].qty)
      ensures old(Exact(Snapshot(), view)) ==> Exact(Snapshot(), view)
    {
      hide Represents, Exact, Leaves, NoStray, Shaped;
      ghost var i, k := CanRemove(Snapshot(), view, id);
      NodeCarries(Snapshot(), view, id);
      TakeRepresents(Snapshot(), view, id, i, k, qty);
      TakeFromNode(idx, qty);
      view := SetQty(view, id, view.orders[id].qty - qty);
    }

    /** `execute_head`: fill the resting order `id` against the aggressor, in part or in full. */
    method ExecuteHead(sn: u64, idx: u32, qty: u32, aggressor: u64, ghost id: u64)
      returns (done: u32, ev: MdEvent, trade: Trade)
      requires Valid() && id in view.orders && idx < |nodes| && idx == index[id] && qty > 0
      modifies this
      ensures Valid() && view == FillOrder(old(view), id, Min(old(view).orders[id].qty, qty))
      ensures done == Min(old(view).orders[id].qty, qty)
      ensures ev == Execution(sn, symbolId, Fill(id, old(view).orders[id], done))
      ensures trade == Trade(sn, symbolId, id, aggressor, old(view).orders[id].price, done)
      ensures |nodes| == old(|nodes|)
      ensures old(Exact(Snapshot(), view)) ==> Exact(Snapshot(), view)
    {
      hide Represents, Exact, Shaped, Drop;
      ghost var e, b := view.orders[id], view;
      NodeCarries(Snapshot(), view, id);
      FillKeeps(b, id, Min(e.qty, qty));
      DropAfterSet(b, id, 0);
      var n := nodes[idx];
      done := Min(n.qty, qty);
      TakeQty(idx, done, id);
      trade := Trade(sn, symbolId, n.orderId, aggressor, n.price, done);
      ev := MdEvent(sn, EXECUTE_EVENT, symbolId, n.orderId, 0, n.account, n.side, n.price, done, NO_REJECT);
      if nodes[idx].qty == 0 {
        var _ := RemoveOrder(sn, idx, 0, EXECUTE_EVENT, id);
      }
    }

    function BestOf(buy: bool): Option<nat>
      reads `bestBidIdx, `bestAskIdx
    {
      if buy then bestBidIdx else bestAskIdx
    }

    /** `crosses`. */
    function CrossesNow(side: u8, price: i64): bool
      reads `bestBidIdx, `bestAskIdx
    {
      if IsBuy(side) then bestAskIdx.Some? && price >= ladder.minPrice + bestAskIdx.value
      else bestBidIdx.Some? && price <= ladder.minPrice + bestBidIdx.value
    }

    predicate Contains(id: u64)
      reads `index
    {
      id in index
    }

    /** One round of the matching loop: execute against the head of the best opposite level. */
    method FillBest(sn: u64, side: u8, qty: u32, aggressor: u64) returns (done: u32, ev: MdEvent, trade: Trade)
      requires Valid() && qty > 0 && Best(view, !IsBuy(side)).Some?
      modifies this
      ensures Valid() && Head(old(view), !IsBuy(side)) in old(view).orders
      ensures var b := old(view);
        var h := Head(b, !IsBuy(side));
        && done == Min(b.orders[h].qty, qty) && 0 < done <= qty
        && view == FillOrder(b, h, done)
        && ev == Execution(sn, symbolId, Fill(h, b.orders[h], done))
        && trade == Trade(sn, symbolId, h, aggressor, b.orders[h].price, done)
      ensures |nodes| == old(|nodes|)
      ensures old(Exact(Snapshot(), view)) ==> Exact(Snapshot(), view)
    {
      HeadNode(Snapshot(), view, !IsBuy(side));
      HeadRests(view, !IsBuy(side));
      hide Represents, Shaped, Exact;
      if IsBuy(side) {
        done, ev, trade := ExecuteHead(sn, asks[bestAskIdx.value].head, qty, aggressor, Head(view, false));
      } else {
        done, ev, trade := ExecuteHead(sn, bids[bestBidIdx.value].head, qty, aggressor, Head(view, true));
      }
    }

    /** The matching loop of `add_order`. */
    method MatchLoop(sn: u64, id: u64, side: u8, price: i64, qty: u32) returns (out: MatchOutput)
      requires Valid() && ladder.InBand(price) && id !in view.orders
      modifies this
      ensures Valid() && id !in view.orders
      ensures var m := Match(old(view), side, price, qty);
        && view == m.book
        && out == MatchOutput(Executions(sn, symbolId, m.fills), TradesOf(sn, symbolId, id, m.fills), m.remaining,
                              NO_REJECT)
      ensures |nodes| == old(|nodes|)
      ensures old(Exact(Snapshot(), view)) ==> Exact(Snapshot(), view)
    {
      hide Represents, Shaped, Exact, LevelsFit, Match, Positive, Best, Progress, Drop, SetQty;
      ghost var b0, exact0, fills: seq<Fill> := view, Exact(Snapshot(), view), [];
      OrdersFit(Snapshot(), view);
      ProgressStart(view, id, side, price, qty);
      HeadNode(Snapshot(), view, !IsBuy(side));
      out := MatchOutput([], [], qty, NO_REJECT);
      while out.remaining > 0 && CrossesNow(side, price)
        invariant Valid() && Progress(b0, view, id, side, price, qty, fills, out.remaining)
        invariant |nodes| == old(|nodes|) && (exact0 ==> Exact(Snapshot(), view))
        invariant BestOf(!IsBuy(side)) == Best(view, !IsBuy(side))
        invariant out == MatchOutput(Executions(sn, symbolId, fills), TradesOf(sn, symbolId, id, fills), out.remaining,
                                     NO_REJECT)
        decreases out.remaining
      {
        ProgressStep(b0, view, id, side, price, qty, fills, out.remaining);
        ghost var h := Head(view, !IsBuy(side));
        ghost var e := view.orders[h];
        hide Executions, TradesOf, FillOrder;
        var done, ev, trade := FillBest(sn, side, out.remaining, id);
        ExecutionsGrow(sn, symbolId, id, fills, Fill(h, e, done));
        fills := fills + [Fill(h, e, done)];
        out := out.(events := out.events + [ev], trades := out.trades + [trade], remaining := out.remaining - done);
        HeadNode(Snapshot(), view, !IsBuy(side));
      }
      ProgressEnd(b0, view, id, side, price, qty, fills, out.remaining);
    }

    method AddOrder(sn: u64, id: u64, account: u32, side: u8, price: i64, qty: u32, tif: u8) returns (out: MatchOutput)
      requires Valid() && |nodes| < NULL
      modifies this
      ensures Valid()
      ensures BookStep(view, out) == Add(old(view), sn, id, account, side, price, qty, tif)
      ensures |nodes| == Max(old(|nodes|), |view.orders|)
      ensures old(Exact(Snapshot(), view)) && LevelsFit(view) ==> Exact(Snapshot(), view)
    {
      hide Represents, Shaped, Exact, LevelsFit, Match, Executions, TradesOf, Positive;
      OrdersFit(Snapshot(), view);
      if qty == 0 { return MatchOutput([], [], qty, INVALID_QTY); }
      if !ladder.InBand(price) { return MatchOutput([], [], qty, INVALID_PRICE); }
      if Contains(id) { return MatchOutput([], [], qty, DUPLICATE_ORDER); }
      out := MatchLoop(sn, id, side, price, qty);
      OrdersFit(Snapshot(), view);
      if out.remaining > 0 && tif == GTC {
        RestOrder(id, account, side, price, out.remaining);
        var added := MdEvent(sn, ADD_EVENT, symbolId, id, 0, account, side, price, out.remaining, NO_REJECT);
        out := out.(events := out.events + [added], remaining := 0);
      }
    }

    method CancelOrder(sn: u64, id: u64) returns (ev: Option<MdEvent>)
      requires Valid()
      modifies this
      ensures Valid()
      ensures ev == if id in old(view).orders then Some(Cancellation(old(view), sn, id)) else None
      ensures view == FeedCancel(old(view), id).GetOr(old(view))
      ensures |nodes| == old(|nodes|)
      ensures old(Exact(Snapshot(), view)) ==> Exact(Snapshot(), view)
    {
      hide Represents, Shaped, Exact, Drop;
      OrdersFit(Snapshot(), view);
      if !Contains(id) { return None; }
      NodeCarries(Snapshot(), view, id);
      var e := RemoveOrder(sn, index[id], nodes[index[id]].qty, CANCEL_EVENT, id);
      ev := Some(e);
    }

    method FeedAddOrder(id: u64, account: u32, side: u8, price: i64, qty: u32) returns (ok: bool)
      requires Valid() && |nodes| < NULL
      modifies this
      ensures Valid()
      ensures var r := FeedAdd(old(view), id, Entry(account, side, price, qty));
        ok == r.Some? && view == r.GetOr(old(view))
      ensures |nodes| == Max(old(|nodes|), |view.orders|)
      ensures old(Exact(Snapshot(), view)) && LevelsFit(view) ==> Exact(Snapshot(), view)
    {
      hide Represents, Shaped, Exact, LevelsFit, Positive, Rest;
      OrdersFit(Snapshot(), view);
      if Contains(id) || qty == 0 || !ladder.InBand(price) { return false; }
      RestOrder(id, account, side, price, qty);
      return true;
    }

    method FeedExecuteOrder(id: u64, qty: u32) returns (ok: bool)
      requires Valid()
      modifies this
      ensures Valid()
      ensures var r := FeedExecute(old(view), id, qty); ok == r.Some? && view == r.GetOr(old(view))
      ensures |nodes| == old(|nodes|)
      ensures old(Exact(Snapshot(), view)) ==> Exact(Snapshot(), view)
    {
      hide Represents, Shaped, Exact, Drop;
      OrdersFit(Snapshot(), view);
      if !Contains(id) || qty == 0 { return false; }
      NodeCarries(Snapshot(), view, id);
      var n := nodes[index[id]];
      if qty >= n.qty {
        var _ := RemoveOrder(0, index[id], n.qty, EXECUTE_EVENT, id);
      } else {
        TakeQty(index[id], qty, id);
      }
      return true;
    }

    method ReplaceOrder(sn: u64, oldId: u64, id: u64, account: u32, side: u8, price: i64, qty: u32, tif: u8)
      returns (out: MatchOutput)
      requires Valid() && |nodes| < NULL
      modifies this
      ensures Valid()
      ensures BookStep(view, out) == Replace(old(view), sn, oldId, id, account, side, price, qty, tif)
      ensures |nodes| == Max(old(|nodes|), |view.orders|)
      ensures old(Exact(Snapshot(), view)) && LevelsFit(view) ==> Exact(Snapshot(), view)
    {
      hide Represents, Shaped, Exact, LevelsFit, Positive, Drop, Add;
      OrdersFit(Snapshot(), view);
      if !ladder.InBand(price) { return MatchOutput([], [], 0, INVALID_PRICE); }
      var cancelled := CancelOrder(sn, oldId);
      if cancelled.None? { return MatchOutput([], [], 0, UNKNOWN_ORDER); }
      out := AddOrder(sn, id, account, side, price, qty, tif);
      out := out.(events := [cancelled.value] + out.events);
    }

    method Find(id: u64) returns (r: Option<Entry>)
      requires Valid()
      ensures r == if id in view.orders then Some(view.orders[id]) else None
    {
      hide Represents, Shaped;
      OrdersFit(Snapshot(), view);
      if !Contains(id) { return None; }
      NodeCarries(Snapshot(), view, id);
      var n := nodes[index[id]];
      if !n.active { return None; }
      return Some(Entry(n.account, n.side, n.price, n.qty));
    }

    /** The walk of `checksum` along one level's list. */
    method HashList(head: u32, h: bv64, ghost buy: bool, ghost i: nat) returns (r: bv64)
      requires Valid() && i < |view.Side(buy)| && head == Ptr(index, view.Side(buy)[i], 0)
      ensures r == HashQueue(h, view.orders, view.Side(buy)[i])
    {
      hide Represents, Shaped, Positive, HashCombine, Word, Ptr;
      WalkStep(Snapshot(), view, buy, i, 0);
      ghost var q, k := view.Side(buy)[i], 0;
      r := h;
      var at := head;
      assert q[0..] == q;
      while at != NULL
        invariant k <= |q| && at == Ptr(index, q, k) && (at == NULL <==> k == |q|)
        invariant HashQueue(h, view.orders, q) == HashQueue(r, view.orders, q[k..])
        decreases |q| - k
      {
        WalkStep(Snapshot(), view, buy, i, k);
        WalkStep(Snapshot(), view, buy, i, k + 1);
        var n := nodes[at];
        r := HashCombine(HashCombine(HashCombine(r, Word(n.orderId)), Word(n.account)), Word(n.qty));
        at := n.next;
        assert q[k..][1..] == q[k + 1..];
        k := k + 1;
      }
    }

    /** One level of `checksum`. */
    method HashLevelAt(buy: bool, i: nat, h: bv64) returns (r: bv64)
      requires Valid() && i < |view.Side(buy)|
      ensures Exact(Snapshot(), view) ==> r == HashLevel(h, view, buy, i)
    {
      hide Represents, Shaped, Positive, HashCombine, Word, HashQueue;
      WalkStep(Snapshot(), view, buy, i, 0);
      LadderFits(Snapshot(), view);
      var level := if buy then bids[i] else asks[i];
      r := HashCombine(HashCombine(h, Word((ladder.minPrice + i) % W64)), Word(level.totalQty));
      r := HashList(level.head, r, buy, i);
      assert Exact(Snapshot(), view) ==> LevelExact(Snapshot(), view, buy, i);
    }

    /** The next occupied bid level below `i`. */
    method NextBidBelow(i: nat) returns (r: Option<nat>)
      requires Valid() && i < |view.bids|
      ensures r.None? ==> forall j :: 0 <= j < i ==> view.bids[j] == []
      ensures r.Some? ==> r.value < i && view.bids[r.value] != [] && forall j :: r.value < j < i ==> view.bids[j] == []
    {
      hide Represents, Shaped, Positive, HasBit;
      var j := i;
      while j > 0
        invariant 0 <= j <= i
        invariant forall k :: j <= k < i ==> view.bids[k] == []
      {
        j := j - 1;
        BitIsOccupied(Snapshot(), view, true, j);
        if HasBit(bidBitmap, j) { return Some(j); }
      }
      return None;
    }

    /** The next occupied ask level above `i`. */
    method NextAskAbove(i: nat) returns (r: Option<nat>)
      requires Valid() && i < |view.asks|
      ensures r.None? ==> forall j :: i < j < |view.asks| ==> view.asks[j] == []
      ensures r.Some? ==> i < r.value < |view.asks| && view.asks[r.value] != []
      ensures r.Some? ==> forall j :: i < j < r.value ==> view.asks[j] == []
    {
      hide Represents, Shaped, Positive, HasBit;
      LadderFits(Snapshot(), view);
      var j := i + 1;
      while j < ladder.Levels()
        invariant i < j <= |view.asks|
        invariant forall k :: i < k < j ==> view.asks[k] == []
      {
        BitIsOccupied(Snapshot(), view, false, j);
        if HasBit(askBitmap, j) { return Some(j); }
        j := j + 1;
      }
      return None;
    }

    /** The bid loop of `checksum`. */
    method HashBidSide(h0: bv64) returns (h: bv64)
      requires Valid()
      ensures Exact(Snapshot(), view) ==> h == HashBids(h0, view, |view.bids|)
    {
      hide Represents, Shaped, Positive, HashCombine, Word, HashLevel, Exact, BestBit;
      BitmapsReflect(Snapshot(), view);
      LadderFits(Snapshot(), view);
      h := h0;
      ghost var exact := Exact(Snapshot(), view);
      var at := FindHighestOccupied(bidBitmap);
      BestBitIsBest(bidBitmap, view.bids, true, at);
      SkipBids(h, view, |view.bids|, if at.Some? then at.value + 1 else 0);
      while at.Some?
        invariant at.Some? ==> 0 <= at.value < |view.bids| && view.bids[at.value] != []
        invariant exact ==>
          HashBids(h0, view, |view.bids|) == HashBids(h, view, if at.Some? then at.value + 1 else 0)
        decreases if at.Some? then at.value + 1 else 0
      {
        var i := at.value;
        h := HashLevelAt(true, i, h);
        at := NextBidBelow(i);
        SkipBids(h, view, i, if at.Some? then at.value + 1 else 0);
      }
    }

    /** The ask loop of `checksum`. */
    method HashAskSide(h0: bv64) returns (h: bv64)
      requires Valid()
      ensures Exact(Snapshot(), view) ==> h == HashAsks(h0, view, 0)
    {
      hide Represents, Shaped, Positive, HashCombine, Word, HashLevel, Exact, BestBit;
      BitmapsReflect(Snapshot(), view);
      LadderFits(Snapshot(), view);
      h := h0;
      ghost var exact := Exact(Snapshot(), view);
      var at := FindLowestOccupied(askBitmap);
      BestBitIsBest(askBitmap, view.asks, false, at);
      SkipAsks(h, view, 0, if at.Some? then at.value else |view.asks|);
      while at.Some?
        invariant at.Some? ==> 0 <= at.value < |view.asks| && view.asks[at.value] != []
        invariant exact ==>
          HashAsks(h0, view, 0) == HashAsks(h, view, if at.Some? then at.value else |view.asks|)
        decreases if at.Some? then |view.asks| - at.value else 0
      {
        var i := at.value;
        h := HashLevelAt(false, i, h);
        at := NextAskAbove(i);
        SkipAsks(h, view, i + 1, if at.Some? then at.value else |view.asks|);
      }
    }

    method BookChecksum() returns (h: bv64)
      requires Valid()
      ensures Exact(Snapshot(), view) ==> h == BookHash(view)
    {
      hide Represents, Exact, HashCombine, Word, HashBids, HashAsks;
      h := HashCombine(BOOK_SEED, Word(symbolId));
      h := HashBidSide(h);
      h := HashAskSide(h);
    }

    /** `stats`: live orders, occupied levels a side, best prices. */
    method Stats() returns (live: nat, bidLevels: nat, askLevels: nat, bestBid: Option<int>, bestAsk: Option<int>)
      requires Valid()
      ensures live == |view.orders| && bidLevels == Occupied(view.bids) && askLevels == Occupied(view.asks)
      ensures bestBid == BestPrice(view, true) && bestAsk == BestPrice(view, false)
    {
      HeadNode(Snapshot(), view, true);
      HeadNode(Snapshot(), view, false);
      OrdersFit(Snapshot(), view);
      live, bidLevels, askLevels := |index|, bidLevelCount, askLevelCount;
      assert |index.Keys| == |view.orders.Keys|;
      bestBid := if bestBidIdx.Some? then Some(ladder.minPrice + bestBidIdx.value) else None;
      bestAsk := if bestAskIdx.Some? then Some(ladder.minPrice + bestAskIdx.value) else None;
    }
  }
}
