/** What matching means: price-time priority, exact quantities, an uncrossed book. */
module MatchTheorems {
  import opened Types
  import opened Totals
  import opened PriceTimeBook
  import opened Matching

  // ---- the priority order of a side ----

  function LevelsUp(qs: seq<seq<u64>>, i: nat): seq<u64>
    requires i <= |qs|
    decreases |qs| - i
  {
    if i == |qs| then [] else qs[i] + LevelsUp(qs, i + 1)
  }

  function LevelsDown(qs: seq<seq<u64>>, n: nat): seq<u64>
    requires n <= |qs|
  {
    if n == 0 then [] else qs[n - 1] + LevelsDown(qs, n - 1)
  }

  /** A side's orders, best price first and oldest first within a price. */
  function Priority(b: Book, buy: bool): seq<u64> {
    if buy then LevelsDown(b.bids, |b.bids|) else LevelsUp(b.asks, 0)
  }

  lemma {:induction false} UpFromBest(qs: seq<seq<u64>>, i: nat, q: seq<u64>)
    requires i <= |qs|
    ensures var j := Lowest(qs, i);
      && (j.None? ==> LevelsUp(qs, i) == [])
      && (j.Some? ==> LevelsUp(qs, i) == qs[j.value] + LevelsUp(qs, j.value + 1))
      && (j.Some? ==> LevelsUp(qs[j.value := q], i) == q + LevelsUp(qs, j.value + 1))
    decreases |qs| - i
  {
    if i < |qs| {
      if qs[i] == [] {
        UpFromBest(qs, i + 1, q);
      } else {
        UpSame(qs, qs[i := q], i + 1);
      }
    }
  }

  lemma {:induction false} UpSame(qs: seq<seq<u64>>, qs': seq<seq<u64>>, i: nat)
    requires i <= |qs| == |qs'| && forall j :: i <= j < |qs| ==> qs[j] == qs'[j]
    ensures LevelsUp(qs, i) == LevelsUp(qs', i)
    decreases |qs| - i
  {
    if i < |qs| { UpSame(qs, qs', i + 1); }
  }

  lemma {:induction false} DownFromBest(qs: seq<seq<u64>>, n: nat, q: seq<u64>)
    requires n <= |qs|
    ensures var j := Highest(qs, n);
      && (j.None? ==> LevelsDown(qs, n) == [])
      && (j.Some? ==> LevelsDown(qs, n) == qs[j.value] + LevelsDown(qs, j.value))
      && (j.Some? ==> LevelsDown(qs[j.value := q], n) == q + LevelsDown(qs, j.value))
  {
    if n > 0 {
      if qs[n - 1] == [] {
        DownFromBest(qs, n - 1, q);
      } else {
        DownSame(qs, qs[n - 1 := q], n - 1);
      }
    }
  }

  lemma {:induction false} DownSame(qs: seq<seq<u64>>, qs': seq<seq<u64>>, n: nat)
    requires n <= |qs| == |qs'| && forall j :: 0 <= j < n ==> qs[j] == qs'[j]
    ensures LevelsDown(qs, n) == LevelsDown(qs', n)
  {
    if n > 0 { DownSame(qs, qs', n - 1); }
  }

  /** The head of the book is the first in priority; dropping it leaves the rest in order. */
  lemma HeadIsFirst(b: Book, buy: bool)
    requires Shaped(b)
    ensures Best(b, buy).None? <==> Priority(b, buy) == []
    ensures Best(b, buy).Some? ==>
      && Head(b, buy) in b.orders
      && Priority(b, buy)[0] == Head(b, buy)
      && Priority(Drop(b, Head(b, buy)), buy) == Priority(b, buy)[1..]
  {
    hide Shaped, Drop, Lowest, Highest, LevelsUp, LevelsDown;
    if Best(b, buy).Some? {
      HeadRests(b, buy);
      DropHead(b, buy);
    }
    if buy {
      DownFromBest(b.bids, |b.bids|, []);
      if Best(b, true).Some? { DownFromBest(b.bids, |b.bids|, b.bids[Best(b, true).value][1..]); }
    } else {
      UpFromBest(b.asks, 0, []);
      if Best(b, false).Some? { UpFromBest(b.asks, 0, b.asks[Best(b, false).value][1..]); }
    }
  }

  lemma DropHead(b: Book, buy: bool)
    requires Shaped(b) && Best(b, buy).Some?
    ensures Head(b, buy) in b.orders
    ensures var i := Best(b, buy).value;
      Drop(b, Head(b, buy)).Side(buy) == b.Side(buy)[i := b.Side(buy)[i][1..]]
  {
    HeadRests(b, buy);
    var q := b.Side(buy)[Best(b, buy).value];
    hide Shaped;
    assert Without(q, q[0]) == q[1..];
  }

  // ---- quantities ----

  function FilledQty(fills: seq<Fill>): nat {
    if fills == [] then 0 else fills[0].qty + FilledQty(fills[1..])
  }

  function Offer(side: u8, price: i64): Entry -> int {
    (e: Entry) => if IsBuy(e.side) != IsBuy(side) && Acceptable(side, price, e.price) then e.qty else 0
  }

  /** What rests on the other side at prices the aggressor accepts. */
  ghost function Liquidity(b: Book, side: u8, price: i64): int {
    Total(b.orders, Offer(side, price))
  }

  /** Without a cross there is nothing acceptable; the best level bounds the others. */
  lemma BestBounds(b: Book, buy: bool, id: u64)
    requires Shaped(b) && id in b.orders && IsBuy(b.orders[id].side) == buy
    ensures Best(b, buy).Some?
    ensures var i, j := b.LevelOf(b.orders[id].price), Best(b, buy).value;
      if buy then i <= j else j <= i
  {
    assert Placed(b, id, b.orders[id]);
  }

  lemma NoCrossNoLiquidity(b: Book, side: u8, price: i64)
    requires Shaped(b) && !Crosses(b, side, price)
    ensures Liquidity(b, side, price) == 0
  {
    forall id <- b.orders ensures Offer(side, price)(b.orders[id]) == 0 {
      if IsBuy(b.orders[id].side) != IsBuy(side) {
        BestBounds(b, !IsBuy(side), id);
      }
    }
    TotalZero(b.orders, Offer(side, price));
  }

  lemma LiquidityIsNatural(b: Book, side: u8, price: i64)
    ensures Liquidity(b, side, price) >= 0
  {
    TotalAtLeast(b.orders, Offer(side, price));
  }

  /** A fill takes its quantity off the liquidity. */
  lemma FillTakesLiquidity(b: Book, id: u64, qty: u32, side: u8, price: i64)
    requires Shaped(b) && id in b.orders && qty <= b.orders[id].qty
    requires IsBuy(b.orders[id].side) != IsBuy(side) && Acceptable(side, price, b.orders[id].price)
    ensures Liquidity(FillOrder(b, id, qty), side, price) == Liquidity(b, side, price) - qty
  {
    var w := Offer(side, price);
    if qty == b.orders[id].qty {
      TotalMinus(b.orders, id, w);
    } else {
      TotalPut(b.orders, id, b.orders[id].(qty := b.orders[id].qty - qty), w);
    }
  }

  lemma NoRound(b: Book, side: u8, price: i64, qty: u32)
    requires Valid(b) && (qty == 0 || !Crosses(b, side, price))
    ensures Match(b, side, price, qty) == Matched(b, [], qty)
  {}

  /** One round of matching, taken apart. */
  lemma Round(b: Book, side: u8, price: i64, qty: u32) returns (f: Fill, next: Book, m: Matched)
    requires Valid(b) && qty > 0 && Crosses(b, side, price)
    ensures f.id == Head(b, !IsBuy(side)) && f.id in b.orders && f.e == b.orders[f.id] && f.qty == Min(f.e.qty, qty)
    ensures 0 < f.qty && IsBuy(f.e.side) != IsBuy(side) && Acceptable(side, price, f.e.price)
    ensures Best(b, !IsBuy(side)).Some? && b.LevelOf(f.e.price) == Best(b, !IsBuy(side)).value
    ensures next == FillOrder(b, f.id, f.qty) && Valid(next)
    ensures next == if f.qty == f.e.qty then Drop(b, f.id) else SetQty(b, f.id, f.e.qty - f.qty)
    ensures m == Match(next, side, price, qty - f.qty)
    ensures Match(b, side, price, qty) == Matched(m.book, [f] + m.fills, m.remaining)
  {
    hide Shaped, Match, Drop, Best;
    MatchRound(b, side, price, qty, []);
    HeadRests(b, !IsBuy(side));
    var id := Head(b, !IsBuy(side));
    f := Fill(id, b.orders[id], Min(b.orders[id].qty, qty));
    next := FillOrder(b, id, f.qty);
    m := Match(next, side, price, qty - f.qty);
    assert [] + Match(b, side, price, qty).fills == Match(b, side, price, qty).fills;
    assert [] + [f] == [f];
  }

  /** Matching trades exactly as much as the limit and the liquidity allow. */
  lemma {:induction false} MatchIsExact(b: Book, side: u8, price: i64, qty: u32)
    requires Valid(b)
    ensures var m := Match(b, side, price, qty);
      && FilledQty(m.fills) + m.remaining == qty
      && FilledQty(m.fills) == Min(qty, Liquidity(b, side, price))
    decreases qty
  {
    hide Match, Shaped, FillOrder, Liquidity, Crosses;
    if qty == 0 || !Crosses(b, side, price) {
      NoRound(b, side, price, qty);
      if qty > 0 { NoCrossNoLiquidity(b, side, price); }
      LiquidityIsNatural(b, side, price);
    } else {
      var f, next, m := Round(b, side, price, qty);
      MatchIsExact(next, side, price, qty - f.qty);
      FillTakesLiquidity(b, f.id, f.qty, side, price);
      assert ([f] + m.fills)[1..] == m.fills;
    }
  }

  // ---- which orders are filled ----

  /** How many of the fills exhausted their order: all of them, or all but the last. */
  function FullFills(fills: seq<Fill>): nat {
    if fills != [] && fills[|fills| - 1].qty < fills[|fills| - 1].e.qty then |fills| - 1 else |fills|
  }

  /** `fills` take the orders of `p` one after the other, each whole, the last one perhaps
      in part when nothing is left to trade; `rest` is what remains of `p`. */
  ghost predicate TakesPrefix(p: seq<u64>, orders: map<u64, Entry>, fills: seq<Fill>, left: u32, rest: seq<u64>) {
    && |fills| <= |p|
    && (forall i :: 0 <= i < |fills| ==>
          fills[i].id == p[i] && p[i] in orders && fills[i].e == orders[p[i]] && 0 < fills[i].qty <= fills[i].e.qty)
    && (forall i :: 0 <= i < |fills| - 1 ==> fills[i].qty == fills[i].e.qty)
    && (left > 0 ==> FullFills(fills) == |fills|)
    && rest == p[FullFills(fills)..]
  }

  lemma PrefixStep(p: seq<u64>, orders: map<u64, Entry>, f: Fill, fills: seq<Fill>, left: u32, rest: seq<u64>)
    requires p != [] && f.id == p[0] && p[0] in orders && f.e == orders[p[0]] && 0 < f.qty == f.e.qty
    requires TakesPrefix(p[1..], orders - {p[0]}, fills, left, rest)
    ensures TakesPrefix(p, orders, [f] + fills, left, rest)
  {
    var all := [f] + fills;
    forall i | 0 <= i < |all|
      ensures all[i].id == p[i] && p[i] in orders && all[i].e == orders[p[i]] && 0 < all[i].qty <= all[i].e.qty
    {
      if i > 0 { assert all[i] == fills[i - 1] && p[i] == p[1..][i - 1]; }
    }
    assert FullFills(all) == 1 + FullFills(fills);
  }

  /** Matching consumes a prefix of the other side in priority order, only the last order
      possibly in part, and leaves the rest of that side and all of its own side alone. */
  lemma {:induction false} MatchTakesPrefix(b: Book, side: u8, price: i64, qty: u32)
    requires Valid(b)
    ensures var m, opp := Match(b, side, price, qty), !IsBuy(side);
      && TakesPrefix(Priority(b, opp), b.orders, m.fills, m.remaining, Priority(m.book, opp))
      && m.book.Side(IsBuy(side)) == b.Side(IsBuy(side))
    decreases qty
  {
    hide Shaped, Match, Priority, FillOrder, Crosses, TakesPrefix, Drop;
    var opp := !IsBuy(side);
    if qty == 0 || !Crosses(b, side, price) {
      NoRound(b, side, price, qty);
      PrefixOfNothing(Priority(b, opp), b.orders, qty);
    } else {
      var f, next, m := Round(b, side, price, qty);
      HeadIsFirst(b, opp);
      MatchTakesPrefix(next, side, price, qty - f.qty);
      if f.qty == f.e.qty {
        DropKeepsSide(b, f.id, IsBuy(side));
        PrefixStep(Priority(b, opp), b.orders, f, m.fills, m.remaining, Priority(m.book, opp));
      } else {
        NoRound(next, side, price, 0);
        SetQtyPriority(b, f.id, f.e.qty - f.qty, opp);
        PrefixInPart(Priority(b, opp), b.orders, f);
        assert [f] + [] == [f];
      }
    }
  }

  // ---- which order is left in part ----

  /** The quantity of the first `k` orders. */
  function Ahead(orders: map<u64, Entry>, p: seq<u64>, k: nat): nat
    requires k <= |p|
  {
    if k == 0 then 0 else Ahead(orders, p, k - 1) + if p[k - 1] in orders then orders[p[k - 1]].qty else 0
  }

  lemma {:induction false} AheadGrows(orders: map<u64, Entry>, p: seq<u64>, j: nat, k: nat)
    requires j <= k <= |p|
    ensures Ahead(orders, p, j) <= Ahead(orders, p, k)
  {
    if j < k { AheadGrows(orders, p, j, k - 1); }
  }

  lemma {:induction false} FilledQtyLast(fills: seq<Fill>)
    requires fills != []
    ensures FilledQty(fills) == FilledQty(fills[..|fills| - 1]) + fills[|fills| - 1].qty
  {
    var n := |fills| - 1;
    if n > 0 {
      FilledQtyLast(fills[1..]);
      assert fills[1..][..n - 1] == fills[..n][1..];
    }
  }

  /** Orders filled whole take exactly what is ahead. */
  lemma {:induction false} WholeFills(p: seq<u64>, orders: map<u64, Entry>, fills: seq<Fill>)
    requires |fills| <= |p|
    requires forall i :: 0 <= i < |fills| ==>
      p[i] in orders && fills[i].e == orders[p[i]] && fills[i].qty == fills[i].e.qty
    ensures FilledQty(fills) == Ahead(orders, p, |fills|)
  {
    if fills != [] {
      FilledQtyLast(fills);
      WholeFills(p, orders, fills[..|fills| - 1]);
    }
  }

  lemma {:induction false} UpIsOfLevels(qs: seq<seq<u64>>, i: nat, id: u64)
    requires i <= |qs| && id in LevelsUp(qs, i)
    ensures exists j :: 0 <= j < |qs| && id in qs[j]
    decreases |qs| - i
  {
    if id !in qs[i] { UpIsOfLevels(qs, i + 1, id); }
  }

  lemma {:induction false} DownIsOfLevels(qs: seq<seq<u64>>, n: nat, id: u64)
    requires n <= |qs| && id in LevelsDown(qs, n)
    ensures exists j :: 0 <= j < |qs| && id in qs[j]
  {
    if id !in qs[n - 1] { DownIsOfLevels(qs, n - 1, id); }
  }

  lemma PriorityRests(b: Book, buy: bool, id: u64)
    requires Shaped(b) && id in Priority(b, buy)
    ensures id in b.orders && IsBuy(b.orders[id].side) == buy
  {
    if buy { DownIsOfLevels(b.bids, |b.bids|, id); } else { UpIsOfLevels(b.asks, 0, id); }
    var j :| 0 <= j < |b.Side(buy)| && id in b.Side(buy)[j];
    assert QueueOk(b, buy, j, b.Side(buy)[j]);
  }

  /** Whether the `k`th order in priority is the one that is filled in part. */
  predicate EndsInPart(fills: seq<Fill>, k: nat) {
    |fills| == k + 1 && fills[k].qty < fills[k].e.qty
  }

  lemma InPartFrom(p: seq<u64>, orders: map<u64, Entry>, fills: seq<Fill>, left: u32, rest: seq<u64>, k: nat, ok: bool)
    requires TakesPrefix(p, orders, fills, left, rest) && k < |p| && p[k] in orders
    requires (k < |fills| ==> ok) && (ok && p[k] in rest ==> left == 0)
    ensures EndsInPart(fills, k) <==> ok && Ahead(orders, p, k) < FilledQty(fills) + left < Ahead(orders, p, k + 1)
  {
    var n := |fills|;
    if n > 0 {
      FilledQtyLast(fills);
      WholeFills(p, orders, fills[..n - 1]);
      if fills[n - 1].qty == fills[n - 1].e.qty { WholeFills(p, orders, fills); }
    }
    if n <= k {
      AheadGrows(orders, p, n, k);
      assert rest[k - FullFills(fills)] == p[k];
    } else if n > k + 1 {
      AheadGrows(orders, p, k + 1, n - 1);
    }
  }

  /** What is left at an acceptable price means that nothing is left of the aggressor. */
  lemma StopsBefore(b: Book, side: u8, price: i64, qty: u32, id: u64)
    requires Valid(b) && id in Match(b, side, price, qty).book.orders && id in b.orders
    requires IsBuy(b.orders[id].side) != IsBuy(side)
    ensures Acceptable(side, price, b.orders[id].price) ==> Match(b, side, price, qty).remaining == 0
  {
    MatchLeaves(b, side, price, qty);
    BestBounds(Match(b, side, price, qty).book, !IsBuy(side), id);
    hide Match, Shaped;
    assert Match(b, side, price, qty).book.orders[id].(qty := 0) == b.orders[id].(qty := 0);
  }

  /** An order is left in part exactly when its price is acceptable and the aggressor's quantity
      is more than what is ahead of it, and less than that with the order itself. */
  lemma InPartExactly(b: Book, side: u8, price: i64, qty: u32, k: nat)
    requires Valid(b) && k < |Priority(b, !IsBuy(side))|
    ensures var p := Priority(b, !IsBuy(side));
      && p[k] in b.orders
      && (EndsInPart(Match(b, side, price, qty).fills, k) <==>
            && Acceptable(side, price, b.orders[p[k]].price)
            && Ahead(b.orders, p, k) < qty < Ahead(b.orders, p, k + 1))
  {
    hide Match, Shaped, Priority, Liquidity;
    var opp := !IsBuy(side);
    var p, m := Priority(b, opp), Match(b, side, price, qty);
    PriorityRests(b, opp, p[k]);
    MatchTakesPrefix(b, side, price, qty);
    MatchIsExact(b, side, price, qty);
    if k < |m.fills| { MatchPricesMonotone(b, side, price, qty); }
    if p[k] in Priority(m.book, opp) {
      PriorityRests(m.book, opp, p[k]);
      StopsBefore(b, side, price, qty, p[k]);
    }
    InPartFrom(p, b.orders, m.fills, m.remaining, Priority(m.book, opp), k,
               Acceptable(side, price, b.orders[p[k]].price));
  }

  lemma PrefixOfNothing(p: seq<u64>, orders: map<u64, Entry>, left: u32)
    ensures TakesPrefix(p, orders, [], left, p)
  {}

  lemma PrefixInPart(p: seq<u64>, orders: map<u64, Entry>, f: Fill)
    requires p != [] && f.id == p[0] && p[0] in orders && f.e == orders[p[0]] && 0 < f.qty < f.e.qty
    ensures TakesPrefix(p, orders, [f], 0, p)
  {}

  lemma DropKeepsSide(b: Book, id: u64, buy: bool)
    requires Shaped(b) && id in b.orders && IsBuy(b.orders[id].side) != buy
    ensures Drop(b, id).Side(buy) == b.Side(buy) && Drop(b, id).orders == b.orders - {id}
  {}

  lemma SetQtyPriority(b: Book, id: u64, qty: u32, buy: bool)
    requires id in b.orders
    ensures Priority(SetQty(b, id, qty), buy) == Priority(b, buy)
  {}

  // ---- prices ----

  /** Trades never pass the limit, and each is no better for the aggressor than the one
      before. */
  lemma {:induction false} MatchPricesMonotone(b: Book, side: u8, price: i64, qty: u32)
    requires Valid(b)
    ensures var fills := Match(b, side, price, qty).fills;
      && (forall i :: 0 <= i < |fills| ==>
            && Acceptable(side, price, fills[i].e.price) && fills[i].id in b.orders
            && IsBuy(fills[i].e.side) != IsBuy(side) && fills[i].e.(qty := 0) == b.orders[fills[i].id].(qty := 0))
      && (forall i, j :: 0 <= i < j < |fills| ==> Acceptable(side, fills[j].e.price, fills[i].e.price))
    decreases qty
  {
    hide Match, Shaped, Drop, Best, Crosses, FillOrder;
    if qty == 0 || !Crosses(b, side, price) {
      NoRound(b, side, price, qty);
    } else {
      var f, next, m := Round(b, side, price, qty);
      MatchPricesMonotone(next, side, price, qty - f.qty);
      FillLeaves(b, f.id, f.qty);
      forall j | 0 <= j < |m.fills| ensures Acceptable(side, m.fills[j].e.price, f.e.price) {
        BestBounds(b, !IsBuy(side), m.fills[j].id);
      }
      var all := [f] + m.fills;
      assert forall i :: 0 < i < |all| ==> all[i] == m.fills[i - 1];
    }
  }

  /** A fill removes or shrinks one order and touches no other. */
  lemma FillLeaves(b: Book, id: u64, qty: u32)
    requires Shaped(b) && id in b.orders
    ensures forall x <- FillOrder(b, id, qty).orders ::
      x in b.orders && FillOrder(b, id, qty).orders[x].(qty := 0) == b.orders[x].(qty := 0)
      && FillOrder(b, id, qty).orders[x].qty <= b.orders[x].qty
  {}

  // ---- never crossed ----

  /** No resting buy is at or above a resting sell. */
  ghost predicate Uncrossed(b: Book) {
    forall x <- b.orders, y <- b.orders ::
      IsBuy(b.orders[x].side) && !IsBuy(b.orders[y].side) ==> b.orders[x].price < b.orders[y].price
  }

  /** The same, said of the best prices. */
  lemma UncrossedIsBestApart(b: Book)
    requires Shaped(b)
    ensures Uncrossed(b) <==>
      (BestPrice(b, true).Some? && BestPrice(b, false).Some? ==> BestPrice(b, true).value < BestPrice(b, false).value)
  {
    if BestPrice(b, true).Some? && BestPrice(b, false).Some? {
      HeadRests(b, true);
      HeadRests(b, false);
      if Uncrossed(b) {
        assert b.orders[Head(b, true)].price < b.orders[Head(b, false)].price;
      }
    }
    forall x <- b.orders, y <- b.orders | IsBuy(b.orders[x].side) && !IsBuy(b.orders[y].side)
      ensures BestPrice(b, true).Some? && BestPrice(b, false).Some?
      ensures b.orders[x].price <= BestPrice(b, true).value && BestPrice(b, false).value <= b.orders[y].price
    {
      BestBounds(b, true, x);
      BestBounds(b, false, y);
    }
  }

  /** What is left after matching: fewer orders, at unchanged prices, none of them crossing. */
  lemma {:induction false} MatchLeaves(b: Book, side: u8, price: i64, qty: u32)
    requires Valid(b)
    ensures var m := Match(b, side, price, qty);
      && (forall x <- m.book.orders ::
            && x in b.orders && m.book.orders[x].(qty := 0) == b.orders[x].(qty := 0)
            && m.book.orders[x].qty <= b.orders[x].qty)
      && (m.remaining > 0 ==> !Crosses(m.book, side, price))
    decreases qty
  {
    hide Match, Shaped, FillOrder, Crosses;
    if qty == 0 || !Crosses(b, side, price) {
      NoRound(b, side, price, qty);
    } else {
      var f, next, m := Round(b, side, price, qty);
      FillLeaves(b, f.id, f.qty);
      MatchLeaves(next, side, price, qty - f.qty);
    }
  }

  /** No operation of the engine leaves the book crossed. */
  lemma AddKeepsUncrossed(b: Book, sn: u64, id: u64, account: u32, side: u8, price: i64, qty: u32, tif: u8)
    requires Valid(b) && Uncrossed(b)
    ensures Uncrossed(Add(b, sn, id, account, side, price, qty, tif).book)
  {
    var m := Match(b, side, price, qty);
    MatchLeaves(b, side, price, qty);
    assert Uncrossed(m.book);
    if m.remaining > 0 {
      forall x <- m.book.orders | IsBuy(m.book.orders[x].side) != IsBuy(side)
        ensures !Acceptable(side, price, m.book.orders[x].price)
      {
        BestBounds(m.book, !IsBuy(side), x);
      }
    }
    hide Match, Shaped;
  }

  lemma DropKeepsUncrossed(b: Book, id: u64)
    requires Valid(b) && Uncrossed(b) && id in b.orders
    ensures Valid(Drop(b, id)) && Uncrossed(Drop(b, id))
  {
    DropKeeps(b, id);
    hide Shaped, Drop;
  }

  lemma ReplaceKeepsUncrossed(b: Book, sn: u64, oldId: u64, id: u64, account: u32, side: u8, price: i64, qty: u32,
                              tif: u8)
    requires Valid(b) && Uncrossed(b)
    ensures Uncrossed(Replace(b, sn, oldId, id, account, side, price, qty, tif).book)
  {
    if b.ladder.InBand(price) && oldId in b.orders {
      DropKeepsUncrossed(b, oldId);
      AddKeepsUncrossed(Drop(b, oldId), sn, id, account, side, price, qty, tif);
    }
  }

  // ---- conservation ----

  function TradedQty(trades: seq<Trade>): nat {
    if trades == [] then 0 else trades[0].qty + TradedQty(trades[1..])
  }

  lemma {:induction false} TradesCarryFills(sn: u64, symbol: u32, aggressor: u64, fills: seq<Fill>)
    ensures TradedQty(TradesOf(sn, symbol, aggressor, fills)) == FilledQty(fills)
  {
    if fills != [] {
      assert TradesOf(sn, symbol, aggressor, fills)[1..] == TradesOf(sn, symbol, aggressor, fills[1..]);
      TradesCarryFills(sn, symbol, aggressor, fills[1..]);
    }
  }

  /** An accepted order trades all it can; what it does not trade rests under its own id, or
      is dropped when it is not good-till-cancelled. Nothing is lost or made. */
  lemma AddConserves(b: Book, sn: u64, id: u64, account: u32, side: u8, price: i64, qty: u32, tif: u8)
    requires Valid(b) && qty > 0 && b.ladder.InBand(price) && id !in b.orders
    ensures var s := Add(b, sn, id, account, side, price, qty, tif);
      var rested := if id in s.book.orders then s.book.orders[id].qty else 0;
      && s.out.reject == NO_REJECT
      && TradedQty(s.out.trades) == Min(qty, Liquidity(b, side, price))
      && TradedQty(s.out.trades) + rested + s.out.remaining == qty
      && (s.out.remaining > 0 ==> tif != GTC)
      && (rested > 0 ==> tif == GTC && s.book.orders[id] == Entry(account, side, price, rested))
  {
    MatchIsExact(b, side, price, qty);
    TradesCarryFills(sn, b.symbol, id, Match(b, side, price, qty).fills);
    hide Match, Shaped, Liquidity;
  }

  /** A replace does with its new order what a new order would do in the book without the old
      one: all of that order's trades and its remainder are in the output, after the
      cancellation of the old order, whole. */
  lemma ReplaceConserves(b: Book, sn: u64, oldId: u64, id: u64, account: u32, side: u8, price: i64, qty: u32, tif: u8)
    requires Valid(b) && oldId in b.orders && b.ladder.InBand(price) && qty > 0 && (id !in b.orders || id == oldId)
    ensures Valid(Drop(b, oldId))
    ensures var s := Replace(b, sn, oldId, id, account, side, price, qty, tif);
      var rested := if id in s.book.orders then s.book.orders[id].qty else 0;
      && s.out.reject == NO_REJECT
      && TradedQty(s.out.trades) == Min(qty, Liquidity(Drop(b, oldId), side, price))
      && TradedQty(s.out.trades) + rested + s.out.remaining == qty
      && (s.out.remaining > 0 ==> tif != GTC)
      && (rested > 0 ==> tif == GTC && s.book.orders[id] == Entry(account, side, price, rested))
      && s.out.events != [] && s.out.events[0].typ == CANCEL_EVENT && s.out.events[0].orderId == oldId
      && s.out.events[0].qty == b.orders[oldId].qty
  {
    DropKeeps(b, oldId);
    AddConserves(Drop(b, oldId), sn, id, account, side, price, qty, tif);
    hide Add, Drop, Shaped, Liquidity;
  }

  // ---- the best price ----

  /** The best price of a side is that of a resting order, and no order of the side has a better;
      there is none exactly when the side is empty. */
  lemma BestPriceIs(b: Book, buy: bool)
    requires Shaped(b)
    ensures BestPrice(b, buy) == None <==> forall id <- b.orders :: IsBuy(b.orders[id].side) != buy
    ensures BestPrice(b, buy).Some? ==>
      && (exists id <- b.orders :: IsBuy(b.orders[id].side) == buy && b.orders[id].price == BestPrice(b, buy).value)
      && forall id <- b.orders :: IsBuy(b.orders[id].side) == buy ==>
           if buy then b.orders[id].price <= BestPrice(b, buy).value else b.orders[id].price >= BestPrice(b, buy).value
  {
    if Best(b, buy).Some? { HeadRests(b, buy); }
    forall id <- b.orders | IsBuy(b.orders[id].side) == buy
      ensures Best(b, buy).Some?
      ensures var best := BestPrice(b, buy).value; if buy then b.orders[id].price <= best
        else b.orders[id].price >= best
    {
      BestBounds(b, buy, id);
    }
    hide Shaped, Best;
  }
}
