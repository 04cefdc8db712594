/** All books behind one interface, with the index from order id to symbol: refines `Books`. */
module BookManagers {
  import opened Types
  import opened PriceTimeBook
  import opened Matching
  import opened LevelTotals
  import opened Arena
  import opened OrderBooks
  import opened Checksum
  import opened BookChecksum
  import opened Books
  import opened ExchangeSpec

  ghost function Views(books: seq<OrderBook>): (r: seq<Book>)
    reads books
    ensures |r| == |books| && forall i :: 0 <= i < |books| ==> r[i] == books[i].view
  {
    if books == [] then [] else Views(books[..|books| - 1]) + [books[|books| - 1].view]
  }

  /** The sizes of the node arenas. */
  ghost function Arenas(books: seq<OrderBook>): (r: seq<nat>)
    reads books
    ensures |r| == |books| && forall i :: 0 <= i < |books| ==> r[i] == |books[i].nodes|
  {
    if books == [] then [] else Arenas(books[..|books| - 1]) + [|books[|books| - 1].nodes|]
  }

  function Zeros(n: nat): seq<nat> {
    seq(n, _ => 0)
  }

  /** Arenas as large as the most orders their books have held, these books included. */
  function Grown(sizes: seq<nat>, books: seq<Book>): seq<nat>
    requires |sizes| == |books|
  {
    seq(|books|, i requires 0 <= i < |books| => Max(sizes[i], |books[i].orders|))
  }

  /** What a book manager stands for: its books, the sizes of their arenas, and whether every
      level total is exact. */
  datatype Market = Market(model: Books, sizes: seq<nat>, exact: bool)

  /** What an operation keeps beside the content of the books: arenas are as large as the most
      orders held so far, and totals stay exact while the quantities at each level fit. */
  ghost predicate Follows(before: Market, after: Market) {
    && |before.sizes| == |after.model.books| && after.sizes == Grown(before.sizes, after.model.books)
    && (before.exact && (forall b <- after.model.books :: LevelsFit(b)) ==> after.exact)
  }

  ghost predicate BookExact(b: OrderBook)
    reads b
  {
    Exact(b.Snapshot(), b.view)
  }

  /** A book as constructed for symbol `s`. */
  ghost predicate New(b: OrderBook, s: u32, cfg: LadderConfig)
    requires cfg.Fits(s)
    reads b
  {
    b.Valid() && b.symbolId == s && BookExact(b) && b.nodes == [] && b.view == EmptyBook(s, cfg.For(s))
  }

  const MANAGER_SEED: bv64 := 0x424f4f4b4d475231

  /** The hashes of the books of symbols 1 to `n`, folded. */
  function BooksHash(books: seq<Book>, n: nat): bv64
    requires n < |books|
  {
    if n == 0 then MANAGER_SEED else HashCombine(BooksHash(books, n - 1), BookHash(books[n]))
  }

  /** The resting orders of symbols 1 to `n`. */
  function LiveOrders(books: seq<Book>, n: nat): nat
    requires n < |books|
  {
    if n == 0 then 0 else LiveOrders(books, n - 1) + |books[n].orders|
  }

  class BookManager {
    const maxSymbol: u32
    const cfg: LadderConfig
    var books: seq<OrderBook>
    var index: map<u64, u32>

    ghost predicate BookAt(s: int)
      reads this, books
    {
      0 <= s < |books| ==> books[s].Valid() && books[s].symbolId == s
    }

    ghost predicate Valid()
      reads this, books
    {
      && 1 <= |books| == maxSymbol + 1 < W32
      && (forall i, j :: 0 <= i < j < |books| ==> books[i] != books[j])
      && (forall s {:trigger BookAt(s)} :: BookAt(s))
      && (forall id <- index :: 1 <= index[id] <= maxSymbol)
    }

    lemma AreBooks()
      requires Valid()
      ensures ValidBooks(Books(Views(books), index))
    {
      hide Represents, Shaped;
      forall s ensures BookOk(Books(Views(books), index), s) {
        assert BookAt(s);
        if 0 <= s < |books| { OrdersFit(books[s].Snapshot(), books[s].view); }
      }
    }

    /** No level total of any book has wrapped. */
    ghost predicate AllExact()
      reads this, books
    {
      forall b <- books :: BookExact(b)
    }

    /** What this object stands for. */
    ghost function Now(): (m: Market)
      requires Valid()
      reads this, books
      ensures ValidBooks(m.model) && |m.model.books| == |m.sizes| == |books| && m.model.index == index
      ensures forall s :: 0 <= s < |books| ==> m.model.books[s] == books[s].view && m.sizes[s] == |books[s].nodes|
    {
      AreBooks();
      Market(Books(Views(books), index), Arenas(books), AllExact())
    }

    /** No arena is at the end of its 32-bit indices. */
    ghost predicate Roomy()
      requires Valid()
      reads this, books
    {
      forall n <- Now().sizes :: n < NULL
    }

    constructor (maxSymbol: u32, cfg: LadderConfig)
      requires Constructible(maxSymbol, cfg)
      ensures Valid() && Now() == Market(EmptyBooks(maxSymbol, cfg), Zeros(maxSymbol + 1), true)
      ensures this.maxSymbol == maxSymbol && forall i :: 0 <= i < |books| ==> fresh(books[i])
    {
      hide Represents, Exact, EmptyBook, EmptyBooks, Now;
      this.maxSymbol, this.cfg := maxSymbol, cfg;
      index := map[];
      books := [];
      new;
      var s := 0;
      while s <= maxSymbol
        invariant s == |books| <= maxSymbol + 1
        invariant index == map[]
        invariant forall i, j :: 0 <= i < j < |books| ==> books[i] != books[j]
        invariant forall i :: 0 <= i < |books| ==> fresh(books[i])
        invariant forall i: nat {:trigger books[i]} :: i < |books| ==> New(books[i], i, cfg)
      {
        var b := new OrderBook(s, cfg.For(s));
        books := books + [b];
        s := s + 1;
      }
      StandsForNothing();
    }

    /** Books as constructed stand for no orders at all. */
    lemma StandsForNothing()
      requires Constructible(maxSymbol, cfg) && |books| == maxSymbol + 1 && index == map[]
      requires forall i, j :: 0 <= i < j < |books| ==> books[i] != books[j]
      requires forall i: nat {:trigger books[i]} :: i < |books| ==> New(books[i], i, cfg)
      ensures Valid() && Now() == Market(EmptyBooks(maxSymbol, cfg), Zeros(maxSymbol + 1), true)
    {
      hide Represents, Exact, EmptyBook;
      forall s ensures BookAt(s) {
        if 0 <= s < |books| { assert New(books[s], s, cfg); }
      }
      var m := EmptyBooks(maxSymbol, cfg);
      forall i: nat | i < |books| ensures books[i].view == m.books[i] && |books[i].nodes| == 0 {
        assert New(books[i], i, cfg);
      }
    }

    /** Totals stay exact when they do in the one book that changed. */
    twostate lemma OneBookExact(s: int)
      requires old(Valid()) && Valid() && 0 <= s < |books| && books == old(books)
      requires forall i :: 0 <= i < |books| && i != s ==> unchanged(books[i])
      requires old(BookExact(books[s])) && LevelsFit(books[s].view) ==> BookExact(books[s])
      ensures old(AllExact()) && (forall b <- Now().model.books :: LevelsFit(b)) ==> AllExact()
    {
      hide Represents, Exact, Shaped, BookOk, LevelsFit;
      if old(AllExact()) && forall b <- Now().model.books :: LevelsFit(b) {
        assert books[s].view in Now().model.books;
        forall b <- books ensures BookExact(b) {
          var i :| 0 <= i < |books| && books[i] == b;
          assert old(BookExact(books[i]));
        }
      }
    }

    /** What changing one book leaves as it was. */
    twostate lemma OneBookChanged(s: int)
      requires old(Valid()) && 0 <= s < |books| && books == old(books)
      requires forall id <- index :: 1 <= index[id] <= maxSymbol
      requires forall i :: 0 <= i < |books| && i != s ==> unchanged(books[i])
      requires books[s].Valid()
      requires |books[s].nodes| in {old(|books[s].nodes|), Max(old(|books[s].nodes|), |books[s].view.orders|)}
      requires old(BookExact(books[s])) && LevelsFit(books[s].view) ==> BookExact(books[s])
      ensures Valid() && Now().model == Books(old(Now()).model.books[s := books[s].view], index)
      ensures Follows(old(Now()), Now())
    {
      hide Represents, Exact, Shaped, BookOk, LevelsFit, BookExact;
      forall t ensures BookAt(t) {
        assert old(BookAt(t)) && old(BookAt(s));
      }
      forall i | 0 <= i < |books| ensures |books[i].nodes| == Max(old(|books[i].nodes|), |books[i].view.orders|) {
        ArenaHolds(i);
      }
      OneBookExact(s);
    }

    lemma ArenaHolds(s: int)
      requires Valid() && 0 <= s < |books|
      ensures |books[s].view.orders| <= |books[s].nodes|
    {
      hide Represents, Shaped;
      assert BookAt(s);
      OrdersFit(books[s].Snapshot(), books[s].view);
    }

    lemma HasRoom(s: int)
      requires Valid() && Roomy() && 0 <= s < |books|
      ensures |books[s].nodes| < NULL
    {
      assert Now().sizes[s] in Now().sizes;
    }

    lemma NothingFollows()
      requires Valid()
      ensures Follows(Now(), Now())
    {
      hide ValidBooks;
      forall i | 0 <= i < |books| ensures |books[i].view.orders| <= |books[i].nodes| {
        ArenaHolds(i);
      }
    }

    lemma BookIs(s: int)
      requires Valid() && 0 <= s < |books|
      ensures books[s].Valid() && books[s].symbolId == s == books[s].view.symbol && PriceTimeBook.Valid(books[s].view)
      ensures books[s].index.Keys == books[s].view.orders.Keys
    {
      assert BookAt(s);
      OrdersFit(books[s].Snapshot(), books[s].view);
    }

    /** Whether `book` would return rather than throw. */
    predicate HasSymbol(s: u32) {
      s != 0 && s <= maxSymbol
    }

    predicate ContainsOrder(id: u64)
      reads `index
    {
      id in index
    }

    /** `order_symbol`: zero when the order is unknown. */
    function OrderSymbol(id: u64): u32
      reads `index
    {
      if id in index then index[id] else 0
    }

    method FindOrder(id: u64) returns (r: Option<Entry>)
      requires Valid()
      ensures var m := Now().model;
        r == if id in index && id in m.books[index[id]].orders then Some(m.books[index[id]].orders[id]) else None
    {
      var s := OrderSymbol(id);
      if s == 0 { return None; }
      BookIs(s);
      r := books[s].Find(id);
    }

    /** The index loses the orders that the events name and the book no longer holds. */
    method ForgetGone(events: seq<MdEvent>, s: u32)
      requires s < |books| && books[s].Valid()
      modifies `index
      ensures index == old(index) - Gone(events, books[s].view)
    {
      hide Represents, Shaped, Positive, Gone;
      var book := books[s];
      ghost var b := book.view;
      OrdersFit(book.Snapshot(), b);
      GoneEnds(events, b, index);
      var i := 0;
      while i < |events|
        invariant i <= |events|
        invariant book.index.Keys == b.orders.Keys
        invariant index == old(index) - Gone(events[..i], b)
      {
        ForgetNext(old(index), events, i, b);
        Forget(book, events[i], b);
        i := i + 1;
      }
    }

    method Forget(book: OrderBook, ev: MdEvent, ghost b: Book)
      requires book.index.Keys == b.orders.Keys
      modifies `index
      ensures index ==
        if (ev.typ == EXECUTE_EVENT || ev.typ == CANCEL_EVENT) && ev.orderId !in b.orders
        then old(index) - {ev.orderId} else old(index)
    {
      if ev.typ == EXECUTE_EVENT || ev.typ == CANCEL_EVENT {
        if !book.Contains(ev.orderId) { index := index - {ev.orderId}; }
      }
    }

    /** `refresh_index_after_add`. */
    method RefreshIndex(s: u32, id: u64)
      requires s < |books| && books[s].Valid()
      modifies `index
      ensures index == Refreshed(old(index), books[s].view, s, id)
    {
      OrdersFit(books[s].Snapshot(), books[s].view);
      if books[s].Contains(id) { index := index[id := s]; }
    }

    method AddOrder(sn: u64, cmd: ClientCommand) returns (out: MatchOutput)
      requires Valid() && KnownSymbol(Now().model, cmd.symbol) && Now().sizes[cmd.symbol] < NULL
      modifies this, books
      ensures Valid() && books == old(books)
      ensures BooksStep(Now().model, out) == AddNew(old(Now()).model, sn, cmd)
      ensures Follows(old(Now()), Now())
    {
      hide Represents, Shaped, Exact, Add, Gone, Refreshed, LevelsFit, BookOk, ValidBooks, Now, Follows;
      var s := cmd.symbol;
      BookIs(s);
      out := books[s].AddOrder(sn, cmd.orderId, cmd.account, cmd.side, cmd.price, cmd.qty, cmd.tif);
      ForgetGone(out.events, s);
      RefreshIndex(s, cmd.orderId);
      RefreshKeeps(old(index) - Gone(out.events, books[s].view), books[s].view, s, cmd.orderId);
      OneBookChanged(s);
      assert old(index) - {} == old(index);
    }

    method CancelOrder(sn: u64, id: u64) returns (ev: Option<MdEvent>)
      requires Valid()
      modifies this, books
      ensures Valid() && books == old(books)
      ensures CancelStep(Now().model, ev) == CancelOne(old(Now()).model, sn, id)
      ensures Follows(old(Now()), Now())
    {
      hide Represents, Shaped, Exact, Drop, LevelsFit, BookOk, ValidBooks, Now, Follows;
      var s := OrderSymbol(id);
      NothingFollows();
      if s == 0 { return None; }
      BookIs(s);
      ev := books[s].CancelOrder(sn, id);
      if ev.Some? { index := index - {id}; }
      OneBookChanged(s);
    }

    method ReplaceOrder(sn: u64, cmd: ClientCommand) returns (out: MatchOutput)
      requires Valid()
      requires Roomy()
      modifies this, books
      ensures Valid() && books == old(books)
      ensures BooksStep(Now().model, out) == ReplaceOne(old(Now()).model, sn, cmd)
      ensures Follows(old(Now()), Now())
    {
      hide Represents, Shaped, Exact, Replace, Gone, Refreshed, LevelsFit, BookOk, ValidBooks, Now, Follows;
      var s := OrderSymbol(cmd.cancelOrderId);
      NothingFollows();
      if s == 0 { return MatchOutput([], [], 0, UNKNOWN_ORDER); }
      BookIs(s);
      HasRoom(s);
      out := books[s].ReplaceOrder(sn, cmd.cancelOrderId, cmd.orderId, cmd.account, cmd.side, cmd.price, cmd.qty,
                                   cmd.tif);
      index := index - {cmd.cancelOrderId};
      ForgetGone(out.events, s);
      RefreshIndex(s, cmd.orderId);
      RefreshKeeps(old(index) - {cmd.cancelOrderId} - Gone(out.events, books[s].view), books[s].view, s, cmd.orderId);
      OneBookChanged(s);
    }

    method FeedAdd(ev: MdEvent) returns (ok: bool)
      requires Valid() && Roomy()
      modifies this, books
      ensures Valid() && books == old(books)
      ensures var r := FeedAddTo(old(Now()).model, ev); ok == r.Some? && Now().model == r.GetOr(old(Now()).model)
      ensures Follows(old(Now()), Now())
    {
      hide Represents, Shaped, Exact, Positive, LevelsFit, BookOk, ValidBooks, Now, Follows, Matching.FeedAdd;
      NothingFollows();
      if ev.symbol == 0 || ev.symbol > maxSymbol { return false; }
      BookIs(ev.symbol);
      HasRoom(ev.symbol);
      ok := books[ev.symbol].FeedAddOrder(ev.orderId, ev.account, ev.side, ev.price, ev.qty);
      if !ok {
        OneBookChanged(ev.symbol);
        return false;
      }
      index := index[ev.orderId := ev.symbol];
      OneBookChanged(ev.symbol);
    }

    method FeedExecute(ev: MdEvent) returns (ok: bool)
      requires Valid()
      modifies this, books
      ensures Valid() && books == old(books)
      ensures var r := FeedExecuteIn(old(Now()).model, ev); ok == r.Some? && Now().model == r.GetOr(old(Now()).model)
      ensures Follows(old(Now()), Now())
    {
      hide Represents, Shaped, Exact, FillOrder, Matching.FeedExecute, LevelsFit, BookOk, ValidBooks, Now, Follows;
      var s := OrderSymbol(ev.orderId);
      NothingFollows();
      if s == 0 { return false; }
      BookIs(s);
      ok := books[s].FeedExecuteOrder(ev.orderId, ev.qty);
      OrdersFit(books[s].Snapshot(), books[s].view);
      if ok && !books[s].Contains(ev.orderId) { index := index - {ev.orderId}; }
      OneBookChanged(s);
    }

    method ManagerChecksum() returns (h: bv64)
      requires Valid()
      ensures Now().exact ==> h == BooksHash(Now().model.books, maxSymbol)
    {
      hide Represents, Shaped, Exact, BookHash, HashCombine, BookOk;
      h := MANAGER_SEED;
      var s := 1;
      while s <= maxSymbol
        invariant 1 <= s <= maxSymbol + 1
        invariant AllExact() ==> h == BooksHash(Now().model.books, s - 1)
      {
        BookIs(s);
        assert books[s] in books;
        var one := books[s].BookChecksum();
        h := HashCombine(h, one);
        s := s + 1;
      }
    }

    method CountLiveOrders() returns (n: nat)
      requires Valid()
      ensures n == LiveOrders(Now().model.books, maxSymbol)
    {
      hide Represents, Shaped, BookOk, Occupied, BestPrice, Exact, LevelsFit, ValidBooks;
      n := 0;
      var s := 1;
      while s <= maxSymbol
        invariant 1 <= s <= maxSymbol + 1
        invariant n == LiveOrders(Now().model.books, s - 1)
      {
        BookIs(s);
        var live, _, _, _, _ := books[s].Stats();
        n := n + live;
        s := s + 1;
      }
    }
  }

  /** The most orders the book of symbol `s` held in any of these states. */
  function Peak(markets: seq<Market>, s: nat): nat
    requires forall m <- markets :: s < |m.model.books|
  {
    if markets == [] then 0
    else
      var last := markets[|markets| - 1];
      assert last in markets && forall m <- markets[..|markets| - 1] :: m in markets;
      Max(Peak(markets[..|markets| - 1], s), |last.model.books[s].orders|)
  }

  /** Through any sequence of operations on a new book manager, the size of an arena is the
      largest number of orders its book held at once. */
  lemma {:induction false} ArenasArePeaks(markets: seq<Market>, n: nat, s: nat)
    requires markets != [] && s < n && forall m <- markets :: |m.model.books| == |m.sizes| == n
    requires markets[0].sizes == Zeros(n) && markets[0].model.books[s].orders == map[]
    requires forall i :: 0 < i < |markets| ==> Follows(markets[i - 1], markets[i])
    ensures markets[|markets| - 1].sizes[s] == Peak(markets, s)
  {
    var k := |markets| - 1;
    assert markets[k] in markets && forall m <- markets[..k] :: m in markets;
    if k == 0 {
      assert Peak(markets[..0], s) == 0;
    } else {
      ArenasArePeaks(markets[..k], n, s);
      assert Follows(markets[k - 1], markets[k]);
    }
  }

  lemma GoneEnds(events: seq<MdEvent>, b: Book, index: map<u64, u32>)
    ensures index - Gone(events[..0], b) == index && events[..|events|] == events
  {}

  lemma GoneNext(events: seq<MdEvent>, i: nat, b: Book)
    requires i < |events|
    ensures var ev := events[i];
      Gone(events[..i + 1], b) == Gone(events[..i], b) +
        if (ev.typ == EXECUTE_EVENT || ev.typ == CANCEL_EVENT) && ev.orderId !in b.orders then {ev.orderId} else {}
  {
    assert events[..i + 1] == events[..i] + [events[i]];
  }

  lemma ForgetNext(index: map<u64, u32>, events: seq<MdEvent>, i: nat, b: Book)
    requires i < |events|
    ensures var ev, done := events[i], index - Gone(events[..i], b);
      index - Gone(events[..i + 1], b) ==
        if (ev.typ == EXECUTE_EVENT || ev.typ == CANCEL_EVENT) && ev.orderId !in b.orders
        then done - {ev.orderId} else done
  {
    hide Gone;
    GoneNext(events, i, b);
  }

  lemma RefreshKeeps(index: map<u64, u32>, b: Book, s: u32, id: u64)
    ensures forall x <- Refreshed(index, b, s, id) ::
      Refreshed(index, b, s, id)[x] == s || (x in index && Refreshed(index, b, s, id)[x] == index[x])
  {}
}
