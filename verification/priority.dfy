/** Price-time priority along any run of faithful events of one book. */
module PriceTimePriority {
  import opened Types
  import opened PriceTimeBook
  import opened Matching
  import opened Feeds

  /** `x` stands before `y` in the same queue. */
  ghost predicate Ahead(b: Book, x: u64, y: u64)
    requires Shaped(b)
  {
    && x in b.orders && y in b.orders
    && IsBuy(b.orders[x].side) == IsBuy(b.orders[y].side) && b.orders[x].price == b.orders[y].price
    && exists i, j :: 0 <= i < j < |Queue(b, x)| && Queue(b, x)[i] == x && Queue(b, x)[j] == y
  }

  /** Arriving is standing behind everyone at the price. */
  lemma ArrivesLast(b: Book, id: u64, e: Entry, x: u64)
    requires Valid(b) && FeedAdd(b, id, e).Some? && x in b.orders
    requires IsBuy(b.orders[x].side) == IsBuy(e.side) && b.orders[x].price == e.price
    ensures Shaped(Rest(b, id, e)) && Ahead(Rest(b, id, e), x, id)
  {
    RestKeeps(b, id, e);
    var q := Queue(b, x);
    assert Placed(b, x, b.orders[x]);
    var i := IndexOf(q, x);
    var r := Rest(b, id, e);
    assert Queue(r, x) == q + [id];
    assert Queue(r, x)[i] == x && Queue(r, x)[|q|] == id;
  }

  lemma DropKeepsAhead(b: Book, id: u64, x: u64, y: u64)
    requires Shaped(b) && id in b.orders && Ahead(b, x, y) && id != x && id != y
    ensures Shaped(Drop(b, id)) && Ahead(Drop(b, id), x, y)
  {
    DropKeeps(b, id);
    var q, r := Queue(b, x), Drop(b, id);
    var i, j :| 0 <= i < j < |q| && q[i] == x && q[j] == y;
    assert Placed(b, x, b.orders[x]) && Placed(b, id, b.orders[id]);
    if IsBuy(b.orders[id].side) == IsBuy(b.orders[x].side) && b.orders[id].price == b.orders[x].price {
      var k, q' := IndexOf(q, id), Without(q, id);
      hide Shaped;
      assert Queue(r, x) == q';
      assert q'[if i < k then i else i - 1] == x && q'[if j < k then j else j - 1] == y;
    } else {
      hide Shaped;
      assert Queue(r, x) == q;
    }
  }

  lemma SetQtyKeepsAhead(b: Book, id: u64, qty: u32, x: u64, y: u64)
    requires Shaped(b) && id in b.orders && Ahead(b, x, y)
    ensures Shaped(SetQty(b, id, qty)) && Ahead(SetQty(b, id, qty), x, y)
  {
    SetQtyKeeps(b, id, qty);
    var q := Queue(b, x);
    var i, j :| 0 <= i < j < |q| && q[i] == x && q[j] == y;
    assert Queue(SetQty(b, id, qty), x) == q;
  }

  lemma RestKeepsAhead(b: Book, id: u64, e: Entry, x: u64, y: u64)
    requires Shaped(b) && b.ladder.InBand(e.price) && id !in b.orders && Ahead(b, x, y)
    ensures Shaped(Rest(b, id, e)) && Ahead(Rest(b, id, e), x, y)
  {
    RestKeeps(b, id, e);
    var q, r := Queue(b, x), Rest(b, id, e);
    var i, j :| 0 <= i < j < |q| && q[i] == x && q[j] == y;
    assert Placed(b, x, b.orders[x]);
    assert Queue(r, x) == q || Queue(r, x) == q + [id];
    assert Queue(r, x)[i] == x && Queue(r, x)[j] == y;
  }

  /** Whatever happens to others, and whatever is partially filled, places are kept. */
  lemma EventKeepsAhead(b: Book, ev: MdEvent, x: u64, y: u64)
    requires Valid(b) && Faithful(b, ev) && Feed(b, ev).Some? && Ahead(b, x, y)
    requires x in Feed(b, ev).value.orders && y in Feed(b, ev).value.orders
    ensures Valid(Feed(b, ev).value) && Ahead(Feed(b, ev).value, x, y)
  {
    FeedKeeps(b, ev);
    hide Shaped, Drop, Rest, Ahead;
    var id := ev.orderId;
    if ev.typ == ADD_EVENT {
      RestKeepsAhead(b, id, Entry(ev.account, ev.side, ev.price, ev.qty), x, y);
    } else {
      DropKeeps(b, id);
      if ev.typ == CANCEL_EVENT || ev.qty >= b.orders[id].qty {
        DropKeepsAhead(b, id, x, y);
      } else {
        SetQtyKeepsAhead(b, id, b.orders[id].qty - ev.qty, x, y);
      }
    }
  }

  /** An order with another one ahead of it does not trade. */
  lemma NoExecutionBehind(b: Book, ev: MdEvent, x: u64, y: u64)
    requires Valid(b) && Faithful(b, ev) && ev.typ == EXECUTE_EVENT && Ahead(b, x, y)
    ensures ev.orderId != y
  {
    var buy := IsBuy(ev.side);
    HeadRests(b, buy);
    var q := Queue(b, x);
    assert Placed(b, x, b.orders[x]);
    assert QueueOk(b, IsBuy(b.orders[x].side), b.LevelOf(b.orders[x].price), q);
  }

  /** The book after the first `n` of the events. */
  ghost function BookAfter(b: Book, evs: seq<MdEvent>, n: nat): Book
    requires Valid(b) && n <= |evs|
    decreases n
  {
    if n == 0 then b
    else
      var r := Feed(b, evs[0]);
      FeedKeeps(b, evs[0]);
      if r.None? then b else BookAfter(r.value, evs[1..], n - 1)
  }

  /** Event `j` took `x` out of the book. */
  ghost predicate LeavesAt(b: Book, evs: seq<MdEvent>, x: u64, j: nat)
    requires Valid(b) && j < |evs|
  {
    evs[j].orderId == x && x in BookAfter(b, evs, j).orders && x !in BookAfter(b, evs, j + 1).orders
  }

  lemma AfterNext(b: Book, evs: seq<MdEvent>, x: u64, n: nat)
    requires Valid(b) && evs != [] && Feed(b, evs[0]).Some? && n < |evs|
    ensures Valid(Feed(b, evs[0]).value)
    ensures BookAfter(b, evs, n + 1) == BookAfter(Feed(b, evs[0]).value, evs[1..], n)
    ensures n + 1 < |evs| ==> LeavesAt(b, evs, x, n + 1) == LeavesAt(Feed(b, evs[0]).value, evs[1..], x, n)
  {
    FeedKeeps(b, evs[0]);
  }

  /** Over any run of a book: once `x` is ahead of `y`, an execution of `y`, as long as `y`
      has been there, comes only after an event that took `x` out of the book. */
  lemma {:induction false} PriceTimeOverRuns(b: Book, evs: seq<MdEvent>, r: Book, x: u64, y: u64, k: nat)
    returns (j: nat)
    requires Valid(b) && Leads(b, evs, r) && Ahead(b, x, y)
    requires k < |evs| && evs[k].typ == EXECUTE_EVENT && evs[k].orderId == y
    requires forall i {:trigger BookAfter(b, evs, i)} :: 0 <= i <= k ==> y in BookAfter(b, evs, i).orders
    ensures j < k && LeavesAt(b, evs, x, j)
    decreases |evs|
  {
    FeedKeeps(b, evs[0]);
    if k == 0 {
      NoExecutionBehind(b, evs[0], x, y);
      assert false;
    } else {
      var next := Feed(b, evs[0]).value;
      AfterNext(b, evs, x, 0);
      if x !in next.orders {
        LeaverIsNamed(b, evs[0], x);
        j := 0;
      } else {
        assert y in BookAfter(b, evs, 1).orders;
        EventKeepsAhead(b, evs[0], x, y);
        forall i {:trigger BookAfter(next, evs[1..], i)} | 0 <= i <= k - 1
          ensures y in BookAfter(next, evs[1..], i).orders
        {
          AfterNext(b, evs, x, i);
          assert y in BookAfter(b, evs, i + 1).orders;
        }
        j := PriceTimeOverRuns(next, evs[1..], r, x, y, k - 1);
        AfterNext(b, evs, x, j);
        j := j + 1;
      }
    }
  }

  /** What is left of a run after its first `m` events. */
  lemma {:induction false} AfterShift(b: Book, evs: seq<MdEvent>, r: Book, m: nat, i: nat)
    requires Valid(b) && Leads(b, evs, r) && m + i <= |evs|
    ensures Valid(BookAfter(b, evs, m)) && Leads(BookAfter(b, evs, m), evs[m..], r)
    ensures BookAfter(BookAfter(b, evs, m), evs[m..], i) == BookAfter(b, evs, m + i)
    decreases m
  {
    hide Feed, Faithful, Shaped;
    if m == 0 {
      assert evs[0..] == evs;
    } else {
      FeedKeeps(b, evs[0]);
      AfterShift(Feed(b, evs[0]).value, evs[1..], r, m - 1, i);
      assert evs[1..][m - 1..] == evs[m..];
    }
  }

  /** Event `j` adds `y` while `x` rests at its side and price; `y` rests from then on, and
      event `k` executes it. */
  ghost predicate ArrivesBehind(b: Book, evs: seq<MdEvent>, x: u64, y: u64, j: nat, k: nat)
    requires Valid(b)
  {
    && j < k < |evs|
    && evs[j].typ == ADD_EVENT && evs[j].orderId == y && x in BookAfter(b, evs, j).orders
    && (var e := BookAfter(b, evs, j).orders[x]; IsBuy(e.side) == IsBuy(evs[j].side) && e.price == evs[j].price)
    && evs[k].typ == EXECUTE_EVENT && evs[k].orderId == y
    && forall i {:trigger BookAfter(b, evs, i)} :: j < i <= k ==> y in BookAfter(b, evs, i).orders
  }

  /** Price-time priority: an order that arrived behind `x` is executed only after an event has
      taken `x` out of the book. */
  lemma LaterArrivalWaits(b: Book, evs: seq<MdEvent>, r: Book, x: u64, y: u64, j: nat, k: nat) returns (l: nat)
    requires Valid(b) && Leads(b, evs, r) && ArrivesBehind(b, evs, x, y, j, k)
    ensures j < l < k && LeavesAt(b, evs, x, l)
  {
    hide Feed, Faithful, Shaped, Leads, Ahead, BookAfter;
    AfterShift(b, evs, r, j, 1);
    AfterShift(b, evs, r, j + 1, 0);
    var before, next, more := BookAfter(b, evs, j), BookAfter(b, evs, j + 1), evs[j + 1..];
    AddedBehind(before, evs[j..], r, x);
    forall i: nat {:trigger BookAfter(next, more, i)} | i <= k - j - 1 ensures y in BookAfter(next, more, i).orders {
      AfterShift(b, evs, r, j + 1, i);
      assert y in BookAfter(b, evs, j + 1 + i).orders;
    }
    l := PriceTimeOverRuns(next, more, r, x, y, k - j - 1);
    AfterShift(b, evs, r, j + 1, l);
    AfterShift(b, evs, r, j + 1, l + 1);
    l := j + 1 + l;
  }

  lemma AddedBehind(b: Book, evs: seq<MdEvent>, r: Book, x: u64)
    requires Valid(b) && evs != [] && Leads(b, evs, r) && evs[0].typ == ADD_EVENT && x in b.orders
    requires IsBuy(b.orders[x].side) == IsBuy(evs[0].side) && b.orders[x].price == evs[0].price
    ensures Valid(BookAfter(b, evs, 1)) && Ahead(BookAfter(b, evs, 1), x, evs[0].orderId)
  {
    var ev := evs[0];
    FeedKeeps(b, ev);
    hide Shaped, Faithful, Rest, Ahead;
    ArrivesLast(b, ev.orderId, Entry(ev.account, ev.side, ev.price, ev.qty), x);
    assert BookAfter(b, evs, 1) == BookAfter(Feed(b, ev).value, evs[1..], 0) == Feed(b, ev).value;
  }

  lemma LeaverIsNamed(b: Book, ev: MdEvent, x: u64)
    requires Valid(b) && Feed(b, ev).Some? && x in b.orders && x !in Feed(b, ev).value.orders
    ensures ev.orderId == x
  {}
}
