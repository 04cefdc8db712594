/** What the linked representation of a book means: nodes in an arena, a free list, an id
    index, one doubly linked list per price level. Pure facts about these values, used by
    the methods of `OrderBook`. */
module Arena {
  import opened Types
  import opened PriceTimeBook
  import opened Matching
  import opened Bitmap

  const NULL: u32 := 0xFFFF_FFFF

  datatype Node = Node(
    orderId: u64, account: u32, side: u8, price: i64, qty: u32, levelIdx: u32,
    prev: u32, next: u32, active: bool)

  const BLANK := Node(0, 0, BUY, 0, 0, 0, NULL, NULL, false)

  datatype Level = Level(head: u32, tail: u32, totalQty: u32, count: u32)

  const NO_ORDERS := Level(NULL, NULL, 0, 0)

  /** The node of an order; `BLANK` for an id that has none. */
  function NodeOf(nodes: seq<Node>, index: map<u64, u32>, id: u64): Node {
    if id in index && index[id] < |nodes| then nodes[index[id]] else BLANK
  }

  ghost predicate Held(nodes: seq<Node>, index: map<u64, u32>, id: u64) {
    id in index && index[id] < |nodes| && nodes[index[id]].active && nodes[index[id]].orderId == id
  }

  ghost predicate Accounted(nodes: seq<Node>, free: seq<u32>, index: map<u64, u32>, i: int) {
    0 <= i < |nodes| ==>
      if nodes[i].active then nodes[i].orderId in index && index[nodes[i].orderId] == i else i in free
  }

  /** The free list and the nodes of the indexed orders partition the arena. */
  ghost predicate ArenaOk(nodes: seq<Node>, free: seq<u32>, index: map<u64, u32>) {
    && |nodes| <= NULL
    && |index| + |free| == |nodes|
    && NoDup(free)
    && (forall k :: 0 <= k < |free| ==> free[k] < |nodes| && nodes[free[k]] == BLANK)
    && (forall id <- index {:trigger Held(nodes, index, id)} :: Held(nodes, index, id))
    && (forall i {:trigger Accounted(nodes, free, index, i)} :: Accounted(nodes, free, index, i))
  }

  /** The node of a resting order carries the order. */
  ghost predicate Carries(nodes: seq<Node>, index: map<u64, u32>, b: Book, id: u64) {
    && id in index && id in b.orders
    && var n, e := NodeOf(nodes, index, id), b.orders[id];
       && n.account == e.account && n.side == e.side && n.price == e.price && n.qty == e.qty
       && n.levelIdx == b.LevelOf(e.price)
  }

  /** The node index at place `k` of a queue; `NULL` off either end. */
  function Ptr(index: map<u64, u32>, q: seq<u64>, k: int): u32 {
    if 0 <= k < |q| && q[k] in index then index[q[k]] else NULL
  }

  ghost predicate Link(nodes: seq<Node>, index: map<u64, u32>, q: seq<u64>, k: int) {
    0 <= k < |q| ==>
      && NodeOf(nodes, index, q[k]).prev == Ptr(index, q, k - 1)
      && NodeOf(nodes, index, q[k]).next == Ptr(index, q, k + 1)
  }

  /** A level's list runs head to tail along its queue by `next`, mirrored by `prev`. */
  ghost predicate ListOk(nodes: seq<Node>, index: map<u64, u32>, q: seq<u64>, level: Level) {
    && level.count == |q|
    && level.head == Ptr(index, q, 0)
    && level.tail == Ptr(index, q, |q| - 1)
    && forall k {:trigger Link(nodes, index, q, k)} :: Link(nodes, index, q, k)
  }

  ghost predicate ListsOk(nodes: seq<Node>, index: map<u64, u32>, qs: seq<seq<u64>>, levels: seq<Level>) {
    && |levels| == |qs|
    && forall i {:trigger ListOk(nodes, index, qs[i], levels[i])} ::
         0 <= i < |qs| ==> ListOk(nodes, index, qs[i], levels[i])
  }

  /** How many levels hold orders. */
  function Occupied(qs: seq<seq<u64>>): nat {
    if qs == [] then 0
    else Occupied(qs[..|qs| - 1]) + (if qs[|qs| - 1] == [] then 0 else 1)
  }

  lemma {:induction false} OccupiedAfter(qs: seq<seq<u64>>, i: nat, q: seq<u64>)
    requires i < |qs|
    ensures Occupied(qs[i := q]) + (if qs[i] == [] then 0 else 1) == Occupied(qs) + (if q == [] then 0 else 1)
  {
    var n := |qs| - 1;
    if i == n {
      assert qs[i := q][..n] == qs[..n];
    } else {
      assert qs[i := q][..n] == qs[..n][i := q];
      OccupiedAfter(qs[..n], i, q);
    }
  }

  ghost predicate IsBest(qs: seq<seq<u64>>, buy: bool, best: Option<nat>) {
    best == if buy then Highest(qs, |qs|) else Lowest(qs, 0)
  }

  /** No set bit is better than `best`, which is set; `None` when no bit is set. */
  ghost predicate BestBit(bitmap: seq<bv64>, buy: bool, best: Option<nat>) {
    && (best.Some? ==> best.value < 64 * |bitmap| && HasBit(bitmap, best.value))
    && forall j: nat {:trigger HasBit(bitmap, j)} :: j < 64 * |bitmap| && HasBit(bitmap, j) ==>
         best.Some? && if buy then j <= best.value else best.value <= j
  }

  /** The scan of the words and the scan of the levels agree. */
  lemma BestBitIsBest(bitmap: seq<bv64>, qs: seq<seq<u64>>, buy: bool, best: Option<nat>)
    requires Reflects(bitmap, qs) && BestBit(bitmap, buy, best)
    ensures IsBest(qs, buy, best)
  {
    var r := if buy then Highest(qs, |qs|) else Lowest(qs, 0);
    assert r.Some? ==> HasBit(bitmap, r.value);
  }

  /** Everything one side of a book keeps beside its queues. */
  ghost predicate SideOk(
    nodes: seq<Node>, index: map<u64, u32>, qs: seq<seq<u64>>, buy: bool,
    levels: seq<Level>, bitmap: seq<bv64>, count: nat, best: Option<nat>)
  {
    && ListsOk(nodes, index, qs, levels)
    && Reflects(bitmap, qs)
    && count == Occupied(qs)
    && IsBest(qs, buy, best)
  }

  /** The fields of an `OrderBook`, as one value. */
  datatype Fields = Fields(
    nodes: seq<Node>, free: seq<u32>, index: map<u64, u32>,
    bids: seq<Level>, asks: seq<Level>, bidBitmap: seq<bv64>, askBitmap: seq<bv64>,
    bidLevelCount: nat, askLevelCount: nat, bestBidIdx: Option<nat>, bestAskIdx: Option<nat>)
  {
    function Levels(buy: bool): seq<Level> {
      if buy then bids else asks
    }

    function Bitmap(buy: bool): seq<bv64> {
      if buy then bidBitmap else askBitmap
    }

    function Count(buy: bool): nat {
      if buy then bidLevelCount else askLevelCount
    }

    function Best(buy: bool): Option<nat> {
      if buy then bestBidIdx else bestAskIdx
    }

    function Store(buy: bool, i: nat, level: Level): Fields
      requires i < |Levels(buy)|
    {
      if buy then this.(bids := bids[i := level]) else this.(asks := asks[i := level])
    }

    /** The side after a change of which levels are occupied. */
    function Mark(buy: bool, bitmap: seq<bv64>, count: nat, best: Option<nat>): Fields {
      if buy then this.(bidBitmap := bitmap, bidLevelCount := count, bestBidIdx := best)
      else this.(askBitmap := bitmap, askLevelCount := count, bestAskIdx := best)
    }
  }

  ghost predicate SideRep(f: Fields, b: Book, buy: bool) {
    SideOk(f.nodes, f.index, b.Side(buy), buy, f.Levels(buy), f.Bitmap(buy), f.Count(buy), f.Best(buy))
  }

  ghost predicate OrdersOk(f: Fields, b: Book, extra: set<u64>) {
    && f.index.Keys == b.orders.Keys + extra
    && forall id <- b.orders {:trigger Carries(f.nodes, f.index, b, id)} :: Carries(f.nodes, f.index, b, id)
  }

  /** Nodes, lists, bitmaps and cached bests stand for the orders and queues of `b`;
      `extra` are ids that hold a node but are in no queue yet. */
  ghost predicate Represents(f: Fields, b: Book, extra: set<u64>) {
    && Shaped(b)
    && ArenaOk(f.nodes, f.free, f.index)
    && OrdersOk(f, b, extra)
    && SideRep(f, b, true)
    && SideRep(f, b, false)
  }

  lemma EmptySide(qs: seq<seq<u64>>, buy: bool)
    requires forall i :: 0 <= i < |qs| ==> qs[i] == []
    ensures SideOk([], map[], qs, buy, seq(|qs|, _ => NO_ORDERS), seq((|qs| + 63) / 64, _ => 0), 0, None)
  {
    NoneOccupied(qs);
    var bitmap: seq<bv64> := seq((|qs| + 63) / 64, _ => 0);
    forall j {:trigger HasBit(bitmap, j)} | 0 <= j < 64 * |bitmap| ensures !HasBit(bitmap, j) {
      ZeroMisses(OneAt(j % 64));
    }
  }

  lemma {:induction false} NoneOccupied(qs: seq<seq<u64>>)
    requires forall i :: 0 <= i < |qs| ==> qs[i] == []
    ensures Occupied(qs) == 0
  {
    if qs != [] { NoneOccupied(qs[..|qs| - 1]); }
  }

  /** The orders outside `touched` keep their nodes' indices and links. */
  ghost predicate SameLinks(nodes: seq<Node>, index: map<u64, u32>, nodes': seq<Node>, index': map<u64, u32>,
                            touched: seq<u64>)
  {
    forall id {:trigger NodeOf(nodes', index', id)} :: id in index && id !in touched ==>
      && id in index' && index'[id] == index[id]
      && NodeOf(nodes', index', id).prev == NodeOf(nodes, index, id).prev
      && NodeOf(nodes', index', id).next == NodeOf(nodes, index, id).next
  }

  lemma ListFrame(nodes: seq<Node>, nodes': seq<Node>, index: map<u64, u32>, index': map<u64, u32>,
                  touched: seq<u64>, q: seq<u64>, level: Level)
    requires ListOk(nodes, index, q, level)
    requires SameLinks(nodes, index, nodes', index', touched)
    requires forall id :: id in q ==> id in index && id !in touched
    ensures ListOk(nodes', index', q, level)
  {
    forall k | 0 <= k < |q| ensures Ptr(index', q, k) == Ptr(index, q, k) {
      assert q[k] in q && NodeOf(nodes', index', q[k]) == NodeOf(nodes', index', q[k]);
    }
    forall k ensures Link(nodes', index', q, k) {
      assert Link(nodes, index, q, k);
      if 0 <= k < |q| { assert q[k] in q; }
    }
  }

  /** One queue of the book changes, with the links of its own orders (and of orders not
      in the book) only. */
  lemma ListsAfter(b: Book, buy: bool, i: nat, q: seq<u64>, level: Level, side: bool, levels: seq<Level>,
                   touched: seq<u64>,
                   nodes: seq<Node>, index: map<u64, u32>, nodes': seq<Node>, index': map<u64, u32>)
    requires Shaped(b) && i < |b.Side(buy)| && b.orders.Keys <= index.Keys
    requires ListsOk(nodes, index, b.Side(side), levels)
    requires SameLinks(nodes, index, nodes', index', touched)
    requires forall x :: x in touched ==> x in b.Side(buy)[i] || x !in b.orders
    requires ListOk(nodes', index', q, level)
    ensures ListsOk(nodes', index', b.With(buy, i, q).Side(side), if side == buy then levels[i := level] else levels)
  {
    var qs, levels' := b.With(buy, i, q).Side(side), if side == buy then levels[i := level] else levels;
    forall j | 0 <= j < |qs| ensures ListOk(nodes', index', qs[j], levels'[j]) {
      if side != buy || j != i {
        QueuesApart(b, buy, i, side, j);
        assert ListOk(nodes, index, b.Side(side)[j], levels[j]);
        ListFrame(nodes, nodes', index, index', touched, qs[j], levels[j]);
      }
    }
  }

  // ---- allocation and release of nodes ----

  /** The arena after a node for a new order was put at `idx`. */
  lemma AllocKeeps(nodes: seq<Node>, free: seq<u32>, index: map<u64, u32>, n: Node,
                   nodes': seq<Node>, free': seq<u32>, idx: u32)
    requires ArenaOk(nodes, free, index) && n.orderId !in index && n.active
    requires if free != []
      then idx == free[|free| - 1] && free' == free[..|free| - 1] && idx < |nodes| && nodes' == nodes[idx := n]
      else idx == |nodes| < NULL && free' == free && nodes' == nodes + [n]
    ensures ArenaOk(nodes', free', index[n.orderId := idx])
    ensures SameLinks(nodes, index, nodes', index[n.orderId := idx], [])
    ensures forall id <- index :: NodeOf(nodes', index[n.orderId := idx], id) == NodeOf(nodes, index, id)
    ensures |nodes'| == Max(|nodes|, |index| + 1)
  {
    var index' := index[n.orderId := idx];
    forall id <- index ensures Held(nodes', index', id) && NodeOf(nodes', index', id) == NodeOf(nodes, index, id) {
      assert Held(nodes, index, id);
    }
    forall i ensures Accounted(nodes', free', index', i) {
      assert Accounted(nodes, free, index, i);
      if 0 <= i < |nodes| && i != idx && i in free {
        var k :| 0 <= k < |free| && free[k] == i;
        if k < |free| - 1 { assert free'[k] == i; }
      }
    }
    assert |index'| == |index| + 1;
  }

  lemma FreeKeeps(nodes: seq<Node>, free: seq<u32>, index: map<u64, u32>, id: u64)
    requires ArenaOk(nodes, free, index) && id in index && index[id] < |nodes|
    ensures ArenaOk(nodes[index[id] := BLANK], free + [index[id]], index - {id})
  {
    var idx := index[id];
    var nodes', free', index' := nodes[idx := BLANK], free + [idx], index - {id};
    assert Held(nodes, index, id) && Accounted(nodes, free, index, idx);
    forall x <- index' ensures Held(nodes', index', x) {
      assert Held(nodes, index, x);
    }
    forall i ensures Accounted(nodes', free', index', i) {
      assert Accounted(nodes, free, index, i);
      if i == idx { assert free'[|free|] == i; }
      if 0 <= i < |nodes| && i in free {
        var k :| 0 <= k < |free| && free[k] == i;
        assert free'[k] == i;
      }
    }
    assert |index'| == |index| - 1 by { assert index == index'[id := idx]; }
  }

  /** Where `alloc_node` puts the next node: the last freed place, else a new one. */
  function AllocAt(f: Fields): int {
    if f.free != [] then f.free[|f.free| - 1] else |f.nodes|
  }

  function Allocated(f: Fields, n: Node): Fields
    requires |f.nodes| < NULL && (f.free != [] ==> AllocAt(f) < |f.nodes|)
  {
    var idx := AllocAt(f);
    f.(nodes := if f.free != [] then f.nodes[idx := n] else f.nodes + [n],
       free := if f.free != [] then f.free[..|f.free| - 1] else f.free,
       index := f.index[n.orderId := idx])
  }

  /** A node for an order in no queue leaves a side as it was. */
  lemma AllocSide(f: Fields, b: Book, buy: bool, g: Fields)
    requires Shaped(b) && f.index.Keys == b.orders.Keys && SideRep(f, b, buy)
    requires g == f.(nodes := g.nodes, free := g.free, index := g.index)
    requires SameLinks(f.nodes, f.index, g.nodes, g.index, [])
    ensures SideRep(g, b, buy)
  {
    forall j | 0 <= j < |b.Side(buy)| ensures ListOk(g.nodes, g.index, b.Side(buy)[j], g.Levels(buy)[j]) {
      assert QueueOk(b, buy, j, b.Side(buy)[j]) && ListOk(f.nodes, f.index, b.Side(buy)[j], f.Levels(buy)[j]);
      ListFrame(f.nodes, g.nodes, f.index, g.index, [], b.Side(buy)[j], f.Levels(buy)[j]);
    }
  }

  lemma AllocArena(f: Fields, n: Node)
    requires ArenaOk(f.nodes, f.free, f.index) && n.orderId !in f.index && n.active && |f.nodes| < NULL
    ensures f.free != [] ==> AllocAt(f) < |f.nodes|
    ensures var g := Allocated(f, n);
      && ArenaOk(g.nodes, g.free, g.index)
      && SameLinks(f.nodes, f.index, g.nodes, g.index, [])
      && (forall id <- f.index :: NodeOf(g.nodes, g.index, id) == NodeOf(f.nodes, f.index, id))
      && |g.nodes| == Max(|f.nodes|, |f.index| + 1)
  {
    var g := Allocated(f, n);
    AllocKeeps(f.nodes, f.free, f.index, n, g.nodes, g.free, AllocAt(f));
  }

  lemma AllocOrders(f: Fields, b: Book, n: Node, g: Fields)
    requires OrdersOk(f, b, {}) && n.orderId in g.index && g.index.Keys == f.index.Keys + {n.orderId}
    requires forall id <- f.index :: NodeOf(g.nodes, g.index, id) == NodeOf(f.nodes, f.index, id)
    ensures OrdersOk(g, b, {n.orderId}) && |f.index| == |b.orders|
  {
    forall x <- b.orders ensures Carries(g.nodes, g.index, b, x) {
      assert Carries(f.nodes, f.index, b, x);
    }
    assert |f.index.Keys| == |b.orders.Keys|;
  }

  lemma AllocRepresents(f: Fields, b: Book, n: Node)
    requires Represents(f, b, {}) && n.orderId !in f.index && n.active && |f.nodes| < NULL
    ensures f.free != [] ==> AllocAt(f) < |f.nodes|
    ensures Represents(Allocated(f, n), b, {n.orderId})
    ensures |Allocated(f, n).nodes| == Max(|f.nodes|, |b.orders| + 1)
  {
    assert f.index.Keys == b.orders.Keys;
    hide ArenaOk, Shaped, OrdersOk, SideRep;
    AllocArena(f, n);
    var g := Allocated(f, n);
    AllocOrders(f, b, n, g);
    AllocSide(f, b, true, g);
    AllocSide(f, b, false, g);
  }

  // ---- linking and unlinking ----

  ghost predicate SameOrder(n: Node, n': Node) {
    n' == n.(prev := n'.prev, next := n'.next)
  }

  /** The arena depends only on which order, if any, each node holds. */
  lemma SameHolders(nodes: seq<Node>, nodes': seq<Node>, free: seq<u32>, index: map<u64, u32>)
    requires ArenaOk(nodes, free, index) && |nodes'| == |nodes|
    requires forall i :: 0 <= i < |nodes| ==>
      nodes'[i].active == nodes[i].active && nodes'[i].orderId == nodes[i].orderId
    requires forall i :: 0 <= i < |nodes| && !nodes[i].active ==> nodes'[i] == nodes[i]
    ensures ArenaOk(nodes', free, index)
  {
    forall id <- index ensures Held(nodes', index, id) {
      assert Held(nodes, index, id);
    }
    forall i ensures Accounted(nodes', free, index, i) {
      assert Accounted(nodes, free, index, i);
    }
  }

  /** Changing links of live nodes disturbs neither the arena nor the orders. */
  lemma LinksOnly(nodes: seq<Node>, nodes': seq<Node>, free: seq<u32>, index: map<u64, u32>, b: Book)
    requires ArenaOk(nodes, free, index) && |nodes'| == |nodes|
    requires forall i :: 0 <= i < |nodes| ==> SameOrder(nodes[i], nodes'[i])
    requires forall i :: 0 <= i < |nodes| && !nodes[i].active ==> nodes'[i] == nodes[i]
    ensures ArenaOk(nodes', free, index)
    ensures forall id <- b.orders {:trigger Carries(nodes', index, b, id)} ::
      Carries(nodes, index, b, id) ==> Carries(nodes', index, b, id)
  {
    SameHolders(nodes, nodes', free, index);
  }

  function Appended(nodes: seq<Node>, idx: u32, tail: u32): seq<Node>
    requires idx < |nodes| && (tail == NULL || tail < |nodes|)
  {
    var linked := nodes[idx := nodes[idx].(prev := tail, next := NULL)];
    if tail != NULL then linked[tail := linked[tail].(next := idx)] else linked
  }

  function Relinked(nodes: seq<Node>, prev: u32, next: u32): seq<Node>
    requires (prev == NULL || prev < |nodes|) && (next == NULL || next < |nodes|)
  {
    var a := if prev != NULL then nodes[prev := nodes[prev].(next := next)] else nodes;
    if next != NULL then a[next := a[next].(prev := prev)] else a
  }

  /** Every indexed order holds a node of its own. */
  ghost predicate AllHeld(nodes: seq<Node>, index: map<u64, u32>) {
    |nodes| <= NULL && forall id <- index {:trigger Held(nodes, index, id)} :: Held(nodes, index, id)
  }

  lemma PtrInRange(nodes: seq<Node>, index: map<u64, u32>, q: seq<u64>, k: int)
    requires AllHeld(nodes, index) && forall id :: id in q ==> id in index
    ensures 0 <= k < |q| ==> Ptr(index, q, k) < |nodes| && nodes[Ptr(index, q, k)].orderId == q[k]
    ensures k < 0 || k >= |q| ==> Ptr(index, q, k) == NULL
  {
    if 0 <= k < |q| {
      assert q[k] in q && Held(nodes, index, q[k]);
    }
  }

  lemma AppendList(nodes: seq<Node>, index: map<u64, u32>, q: seq<u64>, level: Level, id: u64)
    requires ListOk(nodes, index, q, level) && AllHeld(nodes, index) && NoDup(q) && |q| < NULL
    requires id in index && id !in q && forall x :: x in q ==> x in index
    ensures level.tail == NULL <==> q == []
    ensures index[id] < |nodes| && (level.tail == NULL || level.tail < |nodes|)
    ensures ListOk(Appended(nodes, index[id], level.tail), index, q + [id],
                   Level(if q == [] then index[id] else level.head, index[id], level.totalQty, |q| + 1))
    ensures SameLinks(nodes, index, Appended(nodes, index[id], level.tail), index, q + [id])
    ensures nodes[index[id]].active && (level.tail == NULL || nodes[level.tail].active)
  {
    var q' := q + [id];
    assert Held(nodes, index, id);
    PtrInRange(nodes, index, q, |q| - 1);
    if q != [] { assert q[|q| - 1] in q && Held(nodes, index, q[|q| - 1]); }
    var nodes' := Appended(nodes, index[id], level.tail);
    forall k ensures Link(nodes', index, q', k) {
      assert Link(nodes, index, q, k);
      if 0 <= k < |q| { PtrInRange(nodes, index, q, k); }
    }
    forall x | x in index && x !in q'
      ensures NodeOf(nodes', index, x) == NodeOf(nodes, index, x)
    {
      assert Held(nodes, index, x) && q'[|q|] == id;
      if q != [] { assert q'[|q| - 1] == q[|q| - 1]; }
    }
  }

  /** The neighbours of place `k`, as its node names them. */
  lemma Neighbours(nodes: seq<Node>, index: map<u64, u32>, q: seq<u64>, level: Level, k: nat)
    requires ListOk(nodes, index, q, level) && AllHeld(nodes, index) && NoDup(q)
    requires k < |q| && forall x :: x in q ==> x in index
    ensures q[k] in index && index[q[k]] < |nodes|
    ensures var n := nodes[index[q[k]]];
      && n.prev == Ptr(index, q, k - 1) && n.next == Ptr(index, q, k + 1)
      && (n.prev == NULL <==> k == 0) && (n.next == NULL <==> k == |q| - 1)
      && (n.prev == NULL || (n.prev < |nodes| && n.prev != index[q[k]] && nodes[n.prev].active))
      && (n.next == NULL || (n.next < |nodes| && n.next != index[q[k]] && nodes[n.next].active))
  {
    assert q[k] in q && Held(nodes, index, q[k]) && Link(nodes, index, q, k);
    PtrInRange(nodes, index, q, k - 1);
    PtrInRange(nodes, index, q, k + 1);
    if k > 0 { assert q[k - 1] in q && Held(nodes, index, q[k - 1]); }
    if k < |q| - 1 { assert q[k + 1] in q && Held(nodes, index, q[k + 1]); }
  }

  lemma UnlinkList(nodes: seq<Node>, index: map<u64, u32>, q: seq<u64>, level: Level, k: nat)
    requires ListOk(nodes, index, q, level) && AllHeld(nodes, index) && NoDup(q)
    requires k < |q| && forall x :: x in q ==> x in index
    requires q[k] in index && index[q[k]] < |nodes|
    requires var n := nodes[index[q[k]]]; (n.prev == NULL || n.prev < |nodes|) && (n.next == NULL || n.next < |nodes|)
    ensures var n := nodes[index[q[k]]];
      ListOk(Relinked(nodes, n.prev, n.next), index, q[..k] + q[k + 1..],
             Level(if k == 0 then n.next else level.head, if k == |q| - 1 then n.prev else level.tail,
                   level.totalQty, level.count - 1))
  {
    Neighbours(nodes, index, q, level, k);
    var n := nodes[index[q[k]]];
    PtrInRange(nodes, index, q, |q| - 1);
    PtrInRange(nodes, index, q, k - 1);
    PtrInRange(nodes, index, q, k + 1);
    var nodes', q' := Relinked(nodes, n.prev, n.next), q[..k] + q[k + 1..];
    forall j | 0 <= j < |q'| ensures Link(nodes', index, q', j) {
      var i := if j < k then j else j + 1;
      assert Link(nodes, index, q, i);
      PtrInRange(nodes, index, q, i);
    }
    forall j ensures Link(nodes', index, q', j) {}
  }

  lemma UnlinkSame(nodes: seq<Node>, index: map<u64, u32>, q: seq<u64>, level: Level, k: nat)
    requires ListOk(nodes, index, q, level) && AllHeld(nodes, index) && NoDup(q)
    requires k < |q| && forall x :: x in q ==> x in index
    requires q[k] in index && index[q[k]] < |nodes|
    requires var n := nodes[index[q[k]]]; (n.prev == NULL || n.prev < |nodes|) && (n.next == NULL || n.next < |nodes|)
    ensures var n := nodes[index[q[k]]];
      && SameLinks(nodes, index, Relinked(nodes, n.prev, n.next), index, q)
      && Relinked(nodes, n.prev, n.next)[index[q[k]]] == n
  {
    Neighbours(nodes, index, q, level, k);
    PtrInRange(nodes, index, q, k - 1);
    PtrInRange(nodes, index, q, k + 1);
    forall x | x in index && x !in q
      ensures var n := nodes[index[q[k]]];
        NodeOf(Relinked(nodes, n.prev, n.next), index, x) == NodeOf(nodes, index, x)
    {
      assert Held(nodes, index, x);
    }
  }

  // ---- the two list operations on all fields ----

  function BestWith(best: Option<nat>, buy: bool, i: nat): Option<nat> {
    if best.None? || (if buy then i > best.value else i < best.value) then Some(i) else best
  }

  /** Everything `append_to_level` indexes is there. */
  predicate Appendable(f: Fields, idx: u32) {
    && idx < |f.nodes|
    && var n := f.nodes[idx]; var buy := IsBuy(n.side);
       && n.levelIdx < |f.Levels(buy)| && n.levelIdx / 64 < |f.Bitmap(buy)|
       && (f.Levels(buy)[n.levelIdx].tail == NULL || f.Levels(buy)[n.levelIdx].tail < |f.nodes|)
  }

  function LinkedAtTail(f: Fields, idx: u32): Fields
    requires Appendable(f, idx)
  {
    var n := f.nodes[idx];
    f.(nodes := Appended(f.nodes, idx, f.Levels(IsBuy(n.side))[n.levelIdx].tail))
  }

  function LevelWith(f: Fields, idx: u32): Level
    requires Appendable(f, idx)
  {
    var n := f.nodes[idx];
    var level := f.Levels(IsBuy(n.side))[n.levelIdx];
    Level(if level.tail == NULL then idx else level.head, idx, Wrap32(level.totalQty + n.qty), Wrap32(level.count + 1))
  }

  /** `append_to_level`. */
  function AppendedTo(f: Fields, idx: u32): Fields
    requires Appendable(f, idx)
  {
    var n := f.nodes[idx];
    var buy, i := IsBuy(n.side), n.levelIdx;
    var g := LinkedAtTail(f, idx).Store(buy, i, LevelWith(f, idx));
    if f.Levels(buy)[i].count == 0
    then g.Mark(buy, SetBit(f.Bitmap(buy), i), f.Count(buy) + 1, BestWith(f.Best(buy), buy, i))
    else g
  }

  lemma BestWithIs(qs: seq<seq<u64>>, buy: bool, best: Option<nat>, i: nat, q: seq<u64>)
    requires IsBest(qs, buy, best) && i < |qs| && q != []
    ensures IsBest(qs[i := q], buy, BestWith(best, buy, i))
  {
    var r := if buy then Highest(qs[i := q], |qs|) else Lowest(qs[i := q], 0);
    assert qs[i := q][i] != [] && (best.Some? ==> qs[i := q][best.value] != []);
    assert r.Some? && r.value != i ==> qs[r.value] != [];
  }

  /** A level that stays occupied, or was not the best, leaves the best where it is. */
  lemma BestSame(qs: seq<seq<u64>>, buy: bool, best: Option<nat>, i: nat, q: seq<u64>)
    requires IsBest(qs, buy, best) && i < |qs| && (if q == [] then best != Some(i) else qs[i] != [])
    ensures IsBest(qs[i := q], buy, best)
  {
    var r := if buy then Highest(qs[i := q], |qs|) else Lowest(qs[i := q], 0);
    assert best.Some? ==> qs[i := q][best.value] != [];
    assert r.Some? ==> qs[r.value] != [];
  }

  /** The order `id`, whose node is ready, is about to join queue `i` of its side. */
  ghost predicate Joins(f: Fields, b: Book, id: u64, e: Entry, i: nat) {
    var buy := IsBuy(e.side);
    && b.LevelOf(e.price) == i < |b.Side(buy)| == |f.Levels(buy)| && i / 64 < |f.Bitmap(buy)|
    && id !in b.orders && id in f.index && f.index[id] < |f.nodes| && i < NULL
    && f.nodes[f.index[id]] == Node(id, e.account, e.side, e.price, e.qty, i,
                                    f.nodes[f.index[id]].prev, f.nodes[f.index[id]].next, true)
    && var q := b.Side(buy)[i];
       && NoDup(q) && ListOk(f.nodes, f.index, q, f.Levels(buy)[i]) && |q| < NULL && id !in q
       && AllHeld(f.nodes, f.index) && forall x :: x in q ==> x in f.index
  }

  lemma JoinLevel(f: Fields, b: Book, id: u64, e: Entry)
    requires Represents(f, b, {id}) && id !in b.orders && b.ladder.InBand(e.price) && f.index[id] < |f.nodes|
    requires f.nodes[f.index[id]] == Node(id, e.account, e.side, e.price, e.qty, b.LevelOf(e.price), NULL, NULL, true)
    ensures Joins(f, b, id, e, b.LevelOf(e.price))
  {
    var buy, i := IsBuy(e.side), b.LevelOf(e.price);
    var q, level := b.Side(buy)[i], f.Levels(buy)[i];
    assert QueueOk(b, buy, i, q) && ListOk(f.nodes, f.index, q, level);
    NoDupFits(q, b.orders);
    assert |f.index.Keys| == |b.orders.Keys| + 1;
  }

  lemma AppendedList(f: Fields, b: Book, id: u64, e: Entry, i: nat)
    requires Joins(f, b, id, e, i)
    ensures Appendable(f, f.index[id])
    ensures var g, buy := AppendedTo(f, f.index[id]), IsBuy(e.side);
      var q, tail := b.Side(buy)[i] + [id], f.Levels(buy)[i].tail;
      && ListOk(g.nodes, g.index, q, g.Levels(buy)[i])
      && SameLinks(f.nodes, f.index, g.nodes, g.index, q)
      && g.nodes == Appended(f.nodes, f.index[id], tail) && (tail == NULL || f.nodes[tail].active)
  {
    var buy := IsBuy(e.side);
    var q, level := b.Side(buy)[i], f.Levels(buy)[i];
    AppendList(f.nodes, f.index, q, level, id);
    hide ListOk, SameLinks, Appended, AllHeld;
    ListIgnoresTotal(AppendedTo(f, f.index[id]).nodes, f.index, q + [id],
                     Level(if q == [] then f.index[id] else level.head, f.index[id], level.totalQty, |q| + 1),
                     AppendedTo(f, f.index[id]).Levels(buy)[i]);
  }

  lemma ListIgnoresTotal(nodes: seq<Node>, index: map<u64, u32>, q: seq<u64>, level: Level, level': Level)
    requires ListOk(nodes, index, q, level) && level' == level.(totalQty := level'.totalQty)
    ensures ListOk(nodes, index, q, level')
  {}

  lemma AppendedSide(f: Fields, b: Book, id: u64, e: Entry, i: nat, side: bool)
    requires Shaped(b) && b.orders.Keys <= f.index.Keys && b.ladder.InBand(e.price)
    requires SideRep(f, b, side) && Joins(f, b, id, e, i)
    requires Appendable(f, f.index[id])
    ensures SideRep(AppendedTo(f, f.index[id]), Rest(b, id, e), side)
  {
    AppendedList(f, b, id, e, i);
    var buy := IsBuy(e.side);
    var g, qs, q := AppendedTo(f, f.index[id]), b.Side(buy), b.Side(buy)[i];
    hide Shaped, ListOk, SameLinks, Appended;
    ListsAfter(b, buy, i, q + [id], g.Levels(buy)[i], side, f.Levels(side), q + [id], f.nodes, f.index, g.nodes,
               g.index);
    if side == buy {
      OccupiedAfter(qs, i, q + [id]);
      assert f.Levels(buy)[i].count == 0 <==> q == [] by { CountIsLength(f.nodes, f.index, q, f.Levels(buy)[i]); }
      if q == [] {
        SetReflects(f.Bitmap(buy), qs, i, q + [id]);
        BestWithIs(qs, buy, f.Best(buy), i, q + [id]);
      } else {
        SameReflects(f.Bitmap(buy), qs, i, q + [id]);
        BestSame(qs, buy, f.Best(buy), i, q + [id]);
      }
    }
  }

  lemma CountIsLength(nodes: seq<Node>, index: map<u64, u32>, q: seq<u64>, level: Level)
    requires ListOk(nodes, index, q, level)
    ensures level.count == |q|
  {}

  lemma AppendedOrders(f: Fields, b: Book, id: u64, e: Entry, i: nat)
    requires ArenaOk(f.nodes, f.free, f.index) && OrdersOk(f, b, {id}) && Shaped(b) && b.ladder.InBand(e.price)
    requires Joins(f, b, id, e, i)
    requires Appendable(f, f.index[id])
    ensures var g := AppendedTo(f, f.index[id]);
      ArenaOk(g.nodes, g.free, g.index) && OrdersOk(g, Rest(b, id, e), {})
  {
    AppendedList(f, b, id, e, i);
    var g, r, tail := AppendedTo(f, f.index[id]), Rest(b, id, e), f.Levels(IsBuy(e.side))[i].tail;
    hide ArenaOk, SameLinks, ListOk, QueuesOk, AllHeld, LevelWith, SetBit, BestWith;
    AppendedArena(f.nodes, f.free, f.index, b, f.index[id], tail);
    RestedOrders(f, b, id, e, g);
  }

  lemma AppendedArena(nodes: seq<Node>, free: seq<u32>, index: map<u64, u32>, b: Book, idx: u32, tail: u32)
    requires ArenaOk(nodes, free, index) && idx < |nodes| && nodes[idx].active
    requires tail == NULL || (tail < |nodes| && nodes[tail].active)
    ensures ArenaOk(Appended(nodes, idx, tail), free, index)
    ensures forall id <- b.orders {:trigger Carries(Appended(nodes, idx, tail), index, b, id)} ::
      Carries(nodes, index, b, id) ==> Carries(Appended(nodes, idx, tail), index, b, id)
  {
    LinksOnly(nodes, Appended(nodes, idx, tail), free, index, b);
  }

  lemma RestedOrders(f: Fields, b: Book, id: u64, e: Entry, g: Fields)
    requires OrdersOk(f, b, {id}) && Shaped(b) && b.ladder.InBand(e.price) && id !in b.orders && g.index == f.index
    requires forall x <- b.orders {:trigger Carries(g.nodes, g.index, b, x)} ::
      Carries(f.nodes, f.index, b, x) ==> Carries(g.nodes, g.index, b, x)
    requires Carries(g.nodes, g.index, Rest(b, id, e), id)
    ensures OrdersOk(g, Rest(b, id, e), {})
  {
    hide Shaped;
    var r := Rest(b, id, e);
    forall x <- r.orders ensures Carries(g.nodes, g.index, r, x) {
      if x != id { assert Carries(f.nodes, f.index, b, x) && Carries(g.nodes, g.index, b, x); }
    }
  }

  /** Listing a ready node is resting its order at the tail of its level. */
  lemma AppendedRepresents(f: Fields, b: Book, id: u64, e: Entry)
    requires Represents(f, b, {id}) && id !in b.orders && b.ladder.InBand(e.price) && f.index[id] < |f.nodes|
    requires f.nodes[f.index[id]] == Node(id, e.account, e.side, e.price, e.qty, b.LevelOf(e.price), NULL, NULL, true)
    ensures Appendable(f, f.index[id])
    ensures Represents(AppendedTo(f, f.index[id]), Rest(b, id, e), {})
  {
    var i := b.LevelOf(e.price);
    JoinLevel(f, b, id, e);
    AppendedList(f, b, id, e, i);
    assert b.orders.Keys <= f.index.Keys;
    hide ArenaOk, Shaped, OrdersOk, SideRep, Joins, ListOk, SameLinks;
    RestKeeps(b, id, e);
    AppendedOrders(f, b, id, e, i);
    AppendedSide(f, b, id, e, i, true);
    AppendedSide(f, b, id, e, i, false);
  }

  /** Everything `remove_node` indexes is there. */
  predicate Removable(f: Fields, idx: u32) {
    && idx < |f.nodes|
    && var n := f.nodes[idx]; var buy := IsBuy(n.side);
       && n.levelIdx < |f.Levels(buy)| && n.levelIdx / 64 < |f.Bitmap(buy)| && f.Count(buy) > 0
       && (n.prev == NULL || n.prev < |f.nodes|) && (n.next == NULL || n.next < |f.nodes|)
  }

  function Unlinked(f: Fields, idx: u32): Fields
    requires Removable(f, idx)
  {
    f.(nodes := Relinked(f.nodes, f.nodes[idx].prev, f.nodes[idx].next))
  }

  function LevelWithout(f: Fields, idx: u32, removedQty: u32): Level
    requires Removable(f, idx)
  {
    var n := f.nodes[idx];
    var level := f.Levels(IsBuy(n.side))[n.levelIdx];
    Level(if n.prev == NULL then n.next else level.head, if n.next == NULL then n.prev else level.tail,
          level.totalQty - Min(level.totalQty, removedQty), if level.count > 0 then level.count - 1 else 0)
  }

  /** `remove_node`; `best` is the side's best level afterwards. */
  function RemovedFrom(f: Fields, idx: u32, removedQty: u32, best: Option<nat>): Fields
    requires Removable(f, idx)
  {
    var n := f.nodes[idx];
    var buy, i := IsBuy(n.side), n.levelIdx;
    var g, level := Unlinked(f, idx), LevelWithout(f, idx, removedQty);
    Freed(if level.count == 0
          then g.Store(buy, i, NO_ORDERS).Mark(buy, ClearBit(f.Bitmap(buy), i), f.Count(buy) - 1, best)
          else g.Store(buy, i, level),
          idx)
  }

  /** `free_node`. */
  function Freed(f: Fields, idx: u32): Fields
    requires idx < |f.nodes|
  {
    f.(nodes := f.nodes[idx := BLANK], free := f.free + [idx], index := f.index - {f.nodes[idx].orderId})
  }

  /** `recompute_best_after_clear`. */
  ghost predicate Recomputed(f: Fields, buy: bool, i: nat, best: Option<nat>)
    requires i / 64 < |f.Bitmap(buy)|
  {
    if f.Best(buy) == Some(i) then BestBit(ClearBit(f.Bitmap(buy), i), buy, best) else best == f.Best(buy)
  }

  ghost predicate NoStray(bitmap: seq<bv64>, levels: nat) {
    forall j: nat {:trigger HasBit(bitmap, j)} :: levels <= j < 64 * |bitmap| ==> !HasBit(bitmap, j)
  }

  /** The resting order `id` is about to leave queue `i` of its side, at place `k`. */
  ghost predicate Leaves(f: Fields, b: Book, id: u64, i: nat, k: nat) {
    && id in b.orders && id in f.index && f.index[id] < |f.nodes| && i < NULL
    && var e, n := b.orders[id], f.nodes[f.index[id]];
       var buy := IsBuy(e.side);
       && n == Node(id, e.account, e.side, e.price, e.qty, i, n.prev, n.next, true)
       && b.LevelOf(e.price) == i < |b.Side(buy)| == |f.Levels(buy)| && i / 64 < |f.Bitmap(buy)| && f.Count(buy) > 0
       && var q := b.Side(buy)[i];
          && k < |q| && q[k] == id && Without(q, id) == q[..k] + q[k + 1..]
          && NoDup(q) && ListOk(f.nodes, f.index, q, f.Levels(buy)[i])
          && AllHeld(f.nodes, f.index) && forall x :: x in q ==> x in f.index
  }

  lemma LeaveLevel(f: Fields, b: Book, id: u64) returns (i: nat, k: nat)
    requires Represents(f, b, {}) && id in b.orders
    ensures Leaves(f, b, id, i, k)
    ensures var buy := IsBuy(b.orders[id].side);
      Reflects(f.Bitmap(buy), b.Side(buy)) && Reflects(ClearBit(f.Bitmap(buy), i), b.Side(buy)[i := []])
  {
    var e := b.orders[id];
    var buy := IsBuy(e.side);
    assert Placed(b, id, e) && Carries(f.nodes, f.index, b, id) && Held(f.nodes, f.index, id);
    i := b.LevelOf(e.price);
    var q := b.Side(buy)[i];
    k := IndexOf(q, id);
    assert QueueOk(b, buy, i, q) && ListOk(f.nodes, f.index, q, f.Levels(buy)[i]);
    OccupiedAfter(b.Side(buy), i, []);
    ClearReflects(f.Bitmap(buy), b.Side(buy), i);
  }

  lemma RemovedList(f: Fields, b: Book, id: u64, i: nat, k: nat, removedQty: u32, best: Option<nat>)
    requires Leaves(f, b, id, i, k)
    ensures Removable(f, f.index[id])
    ensures var g, buy := RemovedFrom(f, f.index[id], removedQty, best), IsBuy(b.orders[id].side);
      var q, n := b.Side(buy)[i], f.nodes[f.index[id]];
      && ListOk(g.nodes, g.index, q[..k] + q[k + 1..], g.Levels(buy)[i])
      && SameLinks(f.nodes, f.index, g.nodes, g.index, q)
  {
    var buy, n := IsBuy(b.orders[id].side), f.nodes[f.index[id]];
    var q, level := b.Side(buy)[i], f.Levels(buy)[i];
    Neighbours(f.nodes, f.index, q, level, k);
    UnlinkList(f.nodes, f.index, q, level, k);
    UnlinkSame(f.nodes, f.index, q, level, k);
    FreedList(f.nodes, f.index, q, k, Relinked(f.nodes, n.prev, n.next),
              RemovedFrom(f, f.index[id], removedQty, best).Levels(buy)[i]);
  }

  /** Blanking the unlinked node and forgetting its id touches no list. */
  lemma FreedList(nodes: seq<Node>, index: map<u64, u32>, q: seq<u64>, k: nat, nodes': seq<Node>, level: Level)
    requires AllHeld(nodes, index) && NoDup(q) && k < |q| && q[k] in index && index[q[k]] < |nodes| == |nodes'|
    requires SameLinks(nodes, index, nodes', index, q) && forall x :: x in q ==> x in index
    requires ListOk(nodes', index, q[..k] + q[k + 1..], level)
    ensures SameLinks(nodes, index, nodes'[index[q[k]] := BLANK], index - {q[k]}, q)
    ensures ListOk(nodes'[index[q[k]] := BLANK], index - {q[k]}, q[..k] + q[k + 1..], level)
  {
    var nodes2, index2, q' := nodes'[index[q[k]] := BLANK], index - {q[k]}, q[..k] + q[k + 1..];
    assert Held(nodes, index, q[k]);
    forall x | x in index && x != q[k] ensures NodeOf(nodes2, index2, x) == NodeOf(nodes', index, x) {
      assert Held(nodes, index, x);
    }
    assert SameLinks(nodes', index, nodes2, index2, [q[k]]);
    assert SameLinks(nodes, index, nodes2, index2, q) by {
      forall x | x in index && x !in q
        ensures NodeOf(nodes2, index2, x) == NodeOf(nodes', index, x)
      { assert q[k] in q; }
    }
    forall x | x in q' ensures x in index && x !in [q[k]] {
      var j :| 0 <= j < |q'| && q'[j] == x;
      assert q'[j] == q[if j < k then j else j + 1];
    }
    ListFrame(nodes', nodes2, index, index2, [q[k]], q', level);
  }

  lemma RemovedSide(f: Fields, b: Book, id: u64, i: nat, k: nat, removedQty: u32, best: Option<nat>, side: bool)
    requires Shaped(b) && b.orders.Keys <= f.index.Keys
    requires SideRep(f, b, side) && Leaves(f, b, id, i, k)
    requires Removable(f, f.index[id])
    requires |b.Side(IsBuy(b.orders[id].side))[i]| == 1 ==> Recomputed(f, IsBuy(b.orders[id].side), i, best)
    ensures SideRep(RemovedFrom(f, f.index[id], removedQty, best), Drop(b, id), side)
  {
    RemovedList(f, b, id, i, k, removedQty, best);
    var buy := IsBuy(b.orders[id].side);
    var g, qs, q := RemovedFrom(f, f.index[id], removedQty, best), b.Side(buy), b.Side(buy)[i];
    var q' := q[..k] + q[k + 1..];
    assert f.Levels(buy)[i].count == |q| by { CountIsLength(f.nodes, f.index, q, f.Levels(buy)[i]); }
    hide Shaped, ListOk, SameLinks, Relinked;
    ListsAfter(b, buy, i, q', g.Levels(buy)[i], side, f.Levels(side), q, f.nodes, f.index, g.nodes, g.index);
    if side == buy {
      OccupiedAfter(qs, i, q');
      if q' == [] {
        ClearReflects(f.Bitmap(buy), qs, i);
        if f.Best(buy) == Some(i) {
          BestBitIsBest(g.Bitmap(buy), qs[i := []], buy, best);
        } else {
          BestSame(qs, buy, f.Best(buy), i, q');
        }
      } else {
        SameReflects(f.Bitmap(buy), qs, i, q');
        BestSame(qs, buy, f.Best(buy), i, q');
      }
    }
  }

  lemma RemovedOrders(f: Fields, b: Book, id: u64, i: nat, k: nat, removedQty: u32, best: Option<nat>)
    requires ArenaOk(f.nodes, f.free, f.index) && OrdersOk(f, b, {}) && Shaped(b)
    requires Leaves(f, b, id, i, k)
    requires Removable(f, f.index[id])
    ensures var g := RemovedFrom(f, f.index[id], removedQty, best);
      ArenaOk(g.nodes, g.free, g.index) && OrdersOk(g, Drop(b, id), {})
  {
    var n := f.nodes[f.index[id]];
    Neighbours(f.nodes, f.index, b.Side(IsBuy(b.orders[id].side))[i], f.Levels(IsBuy(b.orders[id].side))[i], k);
    hide ArenaOk, ListOk, Shaped;
    hide AllHeld, Removable;
    RelinkedArena(f.nodes, f.free, f.index, b, n.prev, n.next);
    FreeKeeps(Relinked(f.nodes, n.prev, n.next), f.free, f.index, id);
    DroppedOrders(f, b, id, Relinked(f.nodes, n.prev, n.next), RemovedFrom(f, f.index[id], removedQty, best));
  }

  lemma RelinkedArena(nodes: seq<Node>, free: seq<u32>, index: map<u64, u32>, b: Book, prev: u32, next: u32)
    requires ArenaOk(nodes, free, index)
    requires prev == NULL || (prev < |nodes| && nodes[prev].active)
    requires next == NULL || (next < |nodes| && nodes[next].active)
    ensures ArenaOk(Relinked(nodes, prev, next), free, index) && AllHeld(Relinked(nodes, prev, next), index)
    ensures forall id <- b.orders {:trigger Carries(Relinked(nodes, prev, next), index, b, id)} ::
      Carries(nodes, index, b, id) ==> Carries(Relinked(nodes, prev, next), index, b, id)
  {
    LinksOnly(nodes, Relinked(nodes, prev, next), free, index, b);
  }

  lemma DroppedOrders(f: Fields, b: Book, id: u64, nodes: seq<Node>, g: Fields)
    requires OrdersOk(f, b, {}) && Shaped(b) && id in b.orders && AllHeld(nodes, f.index) && f.index[id] < |nodes|
    requires forall x <- b.orders {:trigger Carries(nodes, f.index, b, x)} ::
      Carries(f.nodes, f.index, b, x) ==> Carries(nodes, f.index, b, x)
    requires g.nodes == nodes[f.index[id] := BLANK] && g.index == f.index - {id}
    ensures OrdersOk(g, Drop(b, id), {})
  {
    var r := Drop(b, id);
    assert r.orders == b.orders - {id} && r.ladder == b.ladder;
    hide Shaped, Drop;
    forall x <- r.orders ensures Carries(g.nodes, g.index, r, x) {
      assert Carries(f.nodes, f.index, b, x) && Carries(nodes, f.index, b, x);
      assert Held(nodes, f.index, x) && Held(nodes, f.index, id);
    }
  }

  /** Removing a node is dropping its order. */
  lemma RemovedRepresents(f: Fields, b: Book, id: u64, i: nat, k: nat, removedQty: u32, best: Option<nat>)
    requires Represents(f, b, {}) && Leaves(f, b, id, i, k)
    requires |b.Side(IsBuy(b.orders[id].side))[i]| == 1 ==> Recomputed(f, IsBuy(b.orders[id].side), i, best)
    ensures Removable(f, f.index[id])
    ensures Represents(RemovedFrom(f, f.index[id], removedQty, best), Drop(b, id), {})
  {
    RemovedList(f, b, id, i, k, removedQty, best);
    assert b.orders.Keys <= f.index.Keys;
    hide ArenaOk, Shaped, OrdersOk, SideRep, Leaves, ListOk, SameLinks, Recomputed;
    DropKeeps(b, id);
    RemovedOrders(f, b, id, i, k, removedQty, best);
    RemovedSide(f, b, id, i, k, removedQty, best, true);
    RemovedSide(f, b, id, i, k, removedQty, best, false);
  }

  /** A change of one order's quantity, in its node and in the book. */
  lemma QtyRepresents(f: Fields, b: Book, id: u64, qty: u32)
    requires Represents(f, b, {}) && id in b.orders
    ensures id in f.index && f.index[id] < |f.nodes|
    ensures Represents(f.(nodes := f.nodes[f.index[id] := f.nodes[f.index[id]].(qty := qty)]), SetQty(b, id, qty), {})
  {
    assert Carries(f.nodes, f.index, b, id) && Held(f.nodes, f.index, id);
    var idx := f.index[id];
    var g := f.(nodes := f.nodes[idx := f.nodes[idx].(qty := qty)]);
    var r := SetQty(b, id, qty);
    SetQtyKeeps(b, id, qty);
    SameHolders(f.nodes, g.nodes, f.free, f.index);
    assert f.index.Keys == b.orders.Keys;
    forall x <- b.orders ensures Carries(g.nodes, g.index, r, x) {
      assert Carries(f.nodes, f.index, b, x) && Held(f.nodes, f.index, x);
    }
    assert OrdersOk(g, r, {});
    hide ArenaOk, Shaped, OrdersOk, Carries;
    AllocSide(f, b, true, g);
    AllocSide(f, b, false, g);
    hide SideOk;
  }
}
