/** When the global index keeps agreeing with the books: an exact condition for every
    operation of the book manager. */
module IndexAgreement {
  import opened Types
  import opened PriceTimeBook
  import opened Matching
  import opened MatchTheorems
  import opened Feeds
  import opened Books
  import opened Replica

  /** Index entries only ever point at the right book. */
  lemma StepSound(m: Books, s: u32, step: BookStep, dropped: set<u64>, id: u64)
    requires ValidBooks(m) && Sound(m) && KnownSymbol(m, s) && Valid(m.books[s]) && m.books[s].symbol == s
    requires Leads(m.books[s], step.out.events, step.book)
    ensures ValidBooks(StepBook(m, s, step, dropped, id).books) && Sound(StepBook(m, s, step, dropped, id).books)
  {
    var b, m' := m.books[s], StepBook(m, s, step, dropped, id).books;
    LeadsSame(b, step.out.events, step.book);
    hide Shaped;
    PutBook(m, s, step.book, m'.index);
    forall x <- m'.index ensures x in m'.books[m'.index[x]].orders {
      if x !in step.book.orders {
        assert x in m.index && m'.index[x] == m.index[x];
        if m.index[x] == s { LeaversAreNamed(b, step.out.events, step.book, x); }
      }
    }
  }

  /** Additions come last among the events of a command. */
  ghost predicate AddsLast(evs: seq<MdEvent>) {
    forall i :: 0 <= i < |evs| - 1 ==> evs[i].typ != ADD_EVENT
  }

  lemma {:induction false} NamedWereResting(b: Book, evs: seq<MdEvent>, r: Book)
    requires Valid(b) && Leads(b, evs, r) && AddsLast(evs)
    ensures forall ev :: ev in evs && ev.typ != ADD_EVENT ==> ev.orderId in b.orders
    ensures forall x <- r.orders :: x in b.orders || exists ev :: ev in evs && ev.typ == ADD_EVENT && ev.orderId == x
    decreases |evs|
  {
    if evs != [] {
      FeedKeeps(b, evs[0]);
      EventOrders(b, evs[0]);
      hide Shaped, Faithful, Feed;
      NamedWereResting(Feed(b, evs[0]).value, evs[1..], r);
      assert evs[0] in evs && forall ev :: ev in evs[1..] ==> ev in evs;
    }
  }

  /** The two ways a step leaves the index wrong: its order rests while the same id rests
      under another symbol, or an order is forgotten that still rests. */
  ghost predicate Misindexes(m: Books, s: u32, step: BookStep, dropped: set<u64>, id: u64) {
    || (id in step.book.orders && !FreeElsewhere(m, s, id))
    || (exists x :: x in dropped && x in step.book.orders && x != id)
  }

  lemma StepAgrees(m: Books, s: u32, step: BookStep, dropped: set<u64>, id: u64)
    requires ValidBooks(m) && IndexAgrees(m) && KnownSymbol(m, s) && Valid(m.books[s]) && m.books[s].symbol == s
    requires Leads(m.books[s], step.out.events, step.book) && AddsLast(step.out.events)
    requires forall ev :: ev in step.out.events && ev.typ == ADD_EVENT ==> ev.orderId == id
    requires dropped <= m.books[s].orders.Keys
    ensures ValidBooks(StepBook(m, s, step, dropped, id).books)
    ensures IndexAgrees(StepBook(m, s, step, dropped, id).books) <==> !Misindexes(m, s, step, dropped, id)
  {
    var b, evs, m' := m.books[s], step.out.events, StepBook(m, s, step, dropped, id).books;
    StepSound(m, s, step, dropped, id);
    NamedWereResting(b, evs, step.book);
    hide Shaped, Leads, Valid;
    assert m'.books == m.books[s := step.book];
    if Misindexes(m, s, step, dropped, id) {
      if id in step.book.orders && !FreeElsewhere(m, s, id) {
        var t: int :| KnownSymbol(m, t) && t != s && id in m.books[t].orders;
        assert m'.books[t] == m.books[t] && id in m'.books[t].orders && m'.index[id] == s;
      } else {
        var x :| x in dropped && x in step.book.orders && x != id;
        assert x in m'.books[s].orders && x !in m'.index;
      }
    } else {
      forall t: int, x: u64 {:trigger x in m'.books[t].orders} | KnownSymbol(m', t) && x in m'.books[t].orders
        ensures x in m'.index && m'.index[x] == t
      {
        if t != s {
          assert x in m.books[t].orders;
          assert x !in Gone(evs, step.book) && x !in dropped;
        } else if x != id {
          assert x in m.books[s].orders;
        }
      }
    }
  }

  lemma AddEvents(b: Book, sn: u64, id: u64, account: u32, side: u8, price: i64, qty: u32, tif: u8)
    requires Valid(b)
    ensures var evs := Add(b, sn, id, account, side, price, qty, tif).out.events;
      AddsLast(evs) && forall ev :: ev in evs && ev.typ == ADD_EVENT ==> ev.orderId == id
  {}

  lemma ReplaceEvents(b: Book, sn: u64, oldId: u64, id: u64, account: u32, side: u8, price: i64, qty: u32, tif: u8)
    requires Valid(b)
    ensures var evs := Replace(b, sn, oldId, id, account, side, price, qty, tif).out.events;
      AddsLast(evs) && forall ev :: ev in evs && ev.typ == ADD_EVENT ==> ev.orderId == id
  {
    if b.ladder.InBand(price) && oldId in b.orders {
      DropKeeps(b, oldId);
      AddEvents(Drop(b, oldId), sn, id, account, side, price, qty, tif);
    }
  }

  /** Part of the order would come to rest in this book. */
  ghost predicate WouldRest(b: Book, id: u64, side: u8, price: i64, qty: u32, tif: u8) {
    b.ladder.InBand(price) && id !in b.orders && tif == GTC && Liquidity(b, side, price) < qty
  }

  lemma WouldRestIsResting(b: Book, sn: u64, id: u64, account: u32, side: u8, price: i64, qty: u32, tif: u8)
    requires Valid(b)
    ensures id in Add(b, sn, id, account, side, price, qty, tif).book.orders
      <==> id in b.orders || WouldRest(b, id, side, price, qty, tif)
  {
    LiquidityIsNatural(b, side, price);
    if qty > 0 && b.ladder.InBand(price) && id !in b.orders {
      MatchIsExact(b, side, price, qty);
    }
    hide Match, Shaped, Liquidity;
  }

  /** A new order breaks the agreement exactly when it would rest while its id rests under
      another symbol: the duplicate check looks at one book, the index is of all. */
  lemma AddNewAgreesExactly(m: Books, sn: u64, cmd: ClientCommand)
    requires ValidBooks(m) && IndexAgrees(m) && KnownSymbol(m, cmd.symbol)
    ensures ValidBooks(AddNew(m, sn, cmd).books)
    ensures IndexAgrees(AddNew(m, sn, cmd).books) <==>
      !(WouldRest(m.books[cmd.symbol], cmd.orderId, cmd.side, cmd.price, cmd.qty, cmd.tif)
        && !FreeElsewhere(m, cmd.symbol, cmd.orderId))
  {
    assert BookOk(m, cmd.symbol);
    var b := m.books[cmd.symbol];
    var step := Add(b, sn, cmd.orderId, cmd.account, cmd.side, cmd.price, cmd.qty, cmd.tif);
    AddLeads(b, sn, cmd.orderId, cmd.account, cmd.side, cmd.price, cmd.qty, cmd.tif);
    AddEvents(b, sn, cmd.orderId, cmd.account, cmd.side, cmd.price, cmd.qty, cmd.tif);
    WouldRestIsResting(b, sn, cmd.orderId, cmd.account, cmd.side, cmd.price, cmd.qty, cmd.tif);
    hide Shaped, Leads, Add, WouldRest, AddsLast;
    StepAgrees(m, cmd.symbol, step, {}, cmd.orderId);
    if cmd.orderId in b.orders {
      OnlyHere(m, cmd.symbol, cmd.orderId);
      NotTwice(b, cmd);
    }
  }

  lemma NotTwice(b: Book, cmd: ClientCommand)
    requires cmd.orderId in b.orders
    ensures !WouldRest(b, cmd.orderId, cmd.side, cmd.price, cmd.qty, cmd.tif)
  {}

  lemma OnlyHere(m: Books, s: u32, id: u64)
    requires ValidBooks(m) && IndexAgrees(m) && KnownSymbol(m, s) && id in m.books[s].orders
    ensures FreeElsewhere(m, s, id)
  {}

  lemma CancelAgrees(m: Books, sn: u64, id: u64)
    requires ValidBooks(m) && IndexAgrees(m)
    ensures ValidBooks(CancelOne(m, sn, id).books) && IndexAgrees(CancelOne(m, sn, id).books)
  {
    CancelOneKeeps(m, sn, id);
    if id in m.index {
      var s := m.index[id];
      assert BookOk(m, s);
      CancelLeads(m.books[s], sn, id);
      CancelRoutes(m, s, sn, id);
    }
  }

  lemma CancelRoutes(m: Books, s: u32, sn: u64, id: u64)
    requires ValidBooks(m) && IndexAgrees(m) && id in m.index && m.index[id] == s && Valid(m.books[s])
    requires m.books[s].symbol == s
    ensures ValidBooks(CancelOne(m, sn, id).books) && IndexAgrees(CancelOne(m, sn, id).books)
  {
    var ev := Cancellation(m.books[s], sn, id);
    FeedRoutes(m, s, ev);
    hide Shaped, Drop, Sound, Complete;
  }

  /** The order a replace names, and the book it is in. */
  ghost predicate Targets(m: Books, cmd: ClientCommand, s: int) {
    cmd.cancelOrderId in m.index && m.index[cmd.cancelOrderId] == s
  }

  /** A replace of a known order breaks the agreement exactly when its price is out of band
      under a new id (the old order stays, its entry goes), or its new order would rest while
      that id rests under another symbol. */
  lemma ReplaceAgreesExactly(m: Books, sn: u64, cmd: ClientCommand, s: u32)
    requires ValidBooks(m) && IndexAgrees(m) && Targets(m, cmd, s)
    ensures KnownSymbol(m, s) && Valid(m.books[s]) && cmd.cancelOrderId in m.books[s].orders
    ensures ValidBooks(ReplaceOne(m, sn, cmd).books)
    ensures IndexAgrees(ReplaceOne(m, sn, cmd).books) <==>
      if m.books[s].ladder.InBand(cmd.price)
      then !(WouldRest(Drop(m.books[s], cmd.cancelOrderId), cmd.orderId, cmd.side, cmd.price, cmd.qty, cmd.tif)
             && !FreeElsewhere(m, s, cmd.orderId))
      else cmd.orderId == cmd.cancelOrderId
  {
    assert BookOk(m, s);
    var b, oldId := m.books[s], cmd.cancelOrderId;
    var step := Replace(b, sn, oldId, cmd.orderId, cmd.account, cmd.side, cmd.price, cmd.qty, cmd.tif);
    ReplaceLeads(b, sn, oldId, cmd.orderId, cmd.account, cmd.side, cmd.price, cmd.qty, cmd.tif);
    ReplaceEvents(b, sn, oldId, cmd.orderId, cmd.account, cmd.side, cmd.price, cmd.qty, cmd.tif);
    DropKeeps(b, oldId);
    hide Shaped, Leads, WouldRest, AddsLast, Drop, Add;
    StepAgrees(m, s, step, {oldId}, cmd.orderId);
    if b.ladder.InBand(cmd.price) {
      var d := Drop(b, oldId);
      WouldRestIsResting(d, sn, cmd.orderId, cmd.account, cmd.side, cmd.price, cmd.qty, cmd.tif);
      AddEvents(d, sn, cmd.orderId, cmd.account, cmd.side, cmd.price, cmd.qty, cmd.tif);
      AddLeads(d, sn, cmd.orderId, cmd.account, cmd.side, cmd.price, cmd.qty, cmd.tif);
      NamedWereResting(d, Add(d, sn, cmd.orderId, cmd.account, cmd.side, cmd.price, cmd.qty, cmd.tif).out.events,
                       step.book);
      if cmd.orderId in d.orders { OnlyHere(m, s, cmd.orderId); NotTwice(d, cmd); }
    } else {
      assert step.book == b;
      assert oldId in {oldId};
      if cmd.orderId in b.orders { OnlyHere(m, s, cmd.orderId); }
    }
  }
}
