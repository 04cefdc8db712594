/** What one command can bring to rest: the exact entry, and so the exact condition under which
    all resting orders stay within a limit. */
module OrderSize {
  import opened Types
  import opened PriceTimeBook
  import opened Matching
  import opened MatchTheorems
  import opened Feeds
  import opened Books
  import opened IndexAgreement
  import opened Commands
  import opened Risk

  function Sized(limits: Limits): Entry -> bool {
    (e: Entry) => e.qty <= limits.maxOrderQty
  }

  function Valued(limits: Limits): Entry -> bool {
    (e: Entry) => e.price * e.qty <= limits.maxOrderNotional
  }

  /** What holds of an order holds of what is left of it. */
  ghost predicate Downward(ok: Entry -> bool) {
    forall e: Entry, q: u32 {:trigger ok(e.(qty := q))} :: 0 < e.price && q <= e.qty && ok(e) ==> ok(e.(qty := q))
  }

  lemma LimitsAreDownward(limits: Limits)
    ensures Downward(Sized(limits)) && Downward(Valued(limits))
  {
    forall e: Entry, q: u32 | 0 < e.price && q <= e.qty && Valued(limits)(e) ensures Valued(limits)(e.(qty := q)) {
      LessIsSmaller(e.price, e.qty, q);
    }
  }

  lemma LessIsSmaller(price: int, qty: int, less: int)
    requires 0 <= price && less <= qty
    ensures price * less <= price * qty
  {}

  ghost predicate BookOf(ok: Entry -> bool, m: Books, s: int) {
    0 <= s < |m.books| ==> forall id <- m.books[s].orders :: ok(m.books[s].orders[id])
  }

  /** Every resting order of every book is fine. */
  ghost predicate AllOf(ok: Entry -> bool, m: Books) {
    forall s {:trigger BookOf(ok, m, s)} :: BookOf(ok, m, s)
  }

  // ---- the entry that comes to rest ----

  /** What comes to rest: the order less all it trades. */
  ghost function RestOf(b: Book, cmd: ClientCommand): Option<Entry> {
    LiquidityIsNatural(b, cmd.side, cmd.price);
    if WouldRest(b, cmd.orderId, cmd.side, cmd.price, cmd.qty, cmd.tif)
    then Some(Entry(cmd.account, cmd.side, cmd.price, cmd.qty - Liquidity(b, cmd.side, cmd.price)))
    else None
  }

  ghost function RestingEntry(m: Books, cmd: ClientCommand): Option<Entry>
    requires ValidBooks(m) && SymbolExists(m, cmd)
  {
    var b := TargetBook(m, cmd);
    if b.Some? then RestOf(b.value, cmd) else None
  }

  lemma AddRests(b: Book, sn: u64, cmd: ClientCommand)
    requires Valid(b)
    ensures var s := Add(b, sn, cmd.orderId, cmd.account, cmd.side, cmd.price, cmd.qty, cmd.tif);
      && (RestOf(b, cmd).Some? ==>
            cmd.orderId in s.book.orders && s.book.orders[cmd.orderId] == RestOf(b, cmd).value)
      && forall ev :: ev in s.out.events && ev.typ == ADD_EVENT ==>
           RestOf(b, cmd) == Some(Entry(ev.account, ev.side, ev.price, ev.qty))
  {
    LiquidityIsNatural(b, cmd.side, cmd.price);
    if cmd.qty > 0 && b.ladder.InBand(cmd.price) && cmd.orderId !in b.orders {
      MatchIsExact(b, cmd.side, cmd.price, cmd.qty);
      AllExecutions(sn, b.symbol, Match(b, cmd.side, cmd.price, cmd.qty).fills);
    }
    hide Match, Shaped, Liquidity, Executions, TradesOf, Placed, QueueOk;
  }

  lemma AllExecutions(sn: u64, symbol: u32, fills: seq<Fill>)
    ensures forall ev <- Executions(sn, symbol, fills) :: ev.typ == EXECUTE_EVENT
  {}

  lemma CommandRests(m: Books, sn: u64, cmd: ClientCommand, s: u32)
    requires ValidBooks(m) && SymbolExists(m, cmd) && Moves(m, s, Execute(m, sn, cmd))
    requires cmd.typ == NEW ==> s == cmd.symbol
    requires cmd.typ == REPLACE && cmd.cancelOrderId in m.index ==> Targets(m, cmd, s)
    ensures var step, e := Execute(m, sn, cmd), RestingEntry(m, cmd);
      && (e.Some? ==>
            cmd.orderId in step.books.books[s].orders && step.books.books[s].orders[cmd.orderId] == e.value)
      && forall ev :: ev in step.out.events && ev.typ == ADD_EVENT ==>
           e == Some(Entry(ev.account, ev.side, ev.price, ev.qty))
  {
    if cmd.typ == NEW {
      AddRests(m.books[s], sn, cmd);
      hide Shaped, Leads, Add, RestOf;
    } else if cmd.typ == REPLACE && cmd.cancelOrderId in m.index && cmd.cancelOrderId in m.books[s].orders {
      DropKeeps(m.books[s], cmd.cancelOrderId);
      var d := Drop(m.books[s], cmd.cancelOrderId);
      AddRests(d, sn, cmd);
      hide Shaped, Leads, Add, Drop, Liquidity;
    }
  }

  // ---- limits ----

  lemma EventKeeps(ok: Entry -> bool, b: Book, ev: MdEvent)
    requires Downward(ok) && Valid(b) && forall id <- b.orders :: ok(b.orders[id])
    requires Faithful(b, ev) && Feed(b, ev).Some?
    requires ev.typ == ADD_EVENT ==> ok(Entry(ev.account, ev.side, ev.price, ev.qty))
    ensures var r := Feed(b, ev).value; forall id <- r.orders :: ok(r.orders[id])
  {
    var id := ev.orderId;
    if ev.typ == ADD_EVENT {
      RestKeeps(b, id, Entry(ev.account, ev.side, ev.price, ev.qty));
    } else {
      DropKeeps(b, id);
      assert Placed(b, id, b.orders[id]);
      var left: u32 := b.orders[id].qty - ev.qty;
      assert ok(b.orders[id].(qty := left));
      hide Shaped, Drop, Downward;
    }
  }

  lemma {:induction false} EventsKeep(ok: Entry -> bool, b: Book, evs: seq<MdEvent>, r: Book)
    requires Downward(ok) && Valid(b) && Leads(b, evs, r) && forall id <- b.orders :: ok(b.orders[id])
    requires forall ev <- evs :: ev.typ == ADD_EVENT ==> ok(Entry(ev.account, ev.side, ev.price, ev.qty))
    ensures forall id <- r.orders :: ok(r.orders[id])
    decreases |evs|
  {
    hide Shaped, Faithful, Feed, Downward;
    if evs != [] {
      assert evs[0] in evs && forall ev <- evs[1..] :: ev in evs;
      FeedKeeps(b, evs[0]);
      EventKeeps(ok, b, evs[0]);
      EventsKeep(ok, Feed(b, evs[0]).value, evs[1..], r);
    }
  }

  /** All resting orders stay fine exactly when what the command brings to rest is. */
  lemma CommandKeepsExactly(ok: Entry -> bool, m: Books, sn: u64, cmd: ClientCommand)
    requires Downward(ok) && ValidBooks(m) && SymbolExists(m, cmd) && AllOf(ok, m)
    ensures AllOf(ok, Execute(m, sn, cmd).books) <==> (RestingEntry(m, cmd).Some? ==> ok(RestingEntry(m, cmd).value))
  {
    hide Execute, Shaped, Leads, Valid, ValidBooks, RestingEntry, Downward;
    var step := Execute(m, sn, cmd);
    var s := ExecuteMoves(m, sn, cmd);
    if step.books == m && step.out.events == [] && !Moves(m, s, step) {
      NothingMoved(m, sn, cmd, s);
    } else {
      CommandRests(m, sn, cmd, s);
      var e, r := RestingEntry(m, cmd), step.books.books[s];
      assert BookOf(ok, m, s);
      if e.Some? && !ok(e.value) {
        assert !BookOf(ok, step.books, s);
      } else {
        EventsKeep(ok, m.books[s], step.out.events, r);
        forall t ensures BookOf(ok, step.books, t) {
          assert BookOf(ok, m, t);
        }
      }
    }
  }

  lemma NothingMoved(m: Books, sn: u64, cmd: ClientCommand, s: u32)
    requires ValidBooks(m) && SymbolExists(m, cmd) && !Moves(m, s, Execute(m, sn, cmd))
    requires cmd.typ == NEW ==> Moves(m, s, Execute(m, sn, cmd))
    requires cmd.typ == REPLACE && cmd.cancelOrderId in m.index ==> Moves(m, s, Execute(m, sn, cmd))
    ensures RestingEntry(m, cmd) == None
  {
    hide Moves, Execute;
  }

  // ---- the limit on value ----

  /** Part of the command's order comes to rest whose value is over the limit. */
  ghost predicate Oversteps(limits: Limits, m: Books, cmd: ClientCommand)
    requires ValidBooks(m) && SymbolExists(m, cmd)
  {
    RestingEntry(m, cmd).Some? && !Valued(limits)(RestingEntry(m, cmd).value)
  }

  /** What the gate lets through and yet oversteps has a value that wraps around. */
  lemma OversteppingWraps(limits: Limits, m: Books, cmd: ClientCommand)
    requires ValidBooks(m) && SymbolExists(m, cmd) && Oversteps(limits, m, cmd)
    requires Notional(cmd.price, cmd.qty) <= limits.maxOrderNotional
    ensures cmd.price * cmd.qty >= W64
  {
    var b := TargetBook(m, cmd).value;
    LiquidityIsNatural(b, cmd.side, cmd.price);
    TargetIsValid(m, cmd);
    hide Liquidity, TargetBook, ValidBooks, Shaped;
    LessIsSmaller(cmd.price, cmd.qty, cmd.qty - Liquidity(b, cmd.side, cmd.price));
    assert 0 <= cmd.price * cmd.qty by { LessIsSmaller(cmd.price, cmd.qty, 0); }
  }

  lemma TargetIsValid(m: Books, cmd: ClientCommand)
    requires ValidBooks(m) && SymbolExists(m, cmd) && TargetBook(m, cmd).Some?
    ensures TargetBook(m, cmd).value.ladder.Valid()
    ensures exists b <- m.books :: TargetBook(m, cmd).value.ladder == b.ladder
  {
    var s := if cmd.typ == NEW then cmd.symbol else m.index[cmd.cancelOrderId];
    assert BookOk(m, s);
    if cmd.typ == REPLACE { DropKeeps(m.books[s], cmd.cancelOrderId); }
    assert m.books[s] in m.books;
  }
}
