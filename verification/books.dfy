/** All books and the index from order id to symbol: the specification of `BookManager`. */
module Books {
  import opened Types
  import opened PriceTimeBook
  import opened Matching
  import opened Feeds

  /** Books by symbol, slot zero unused, and the symbol of each known order. */
  datatype Books = Books(books: seq<Book>, index: map<u64, u32>)

  ghost predicate BookOk(m: Books, s: int) {
    0 <= s < |m.books| ==> Valid(m.books[s]) && m.books[s].symbol == s
  }

  ghost predicate ValidBooks(m: Books) {
    && 1 <= |m.books| < W32
    && (forall s {:trigger BookOk(m, s)} :: BookOk(m, s))
    && (forall id <- m.index :: 1 <= m.index[id] < |m.books|)
  }

  predicate KnownSymbol(m: Books, s: int) {
    1 <= s < |m.books|
  }

  /** The index entries of orders that an event named and the book no longer holds. */
  function Gone(events: seq<MdEvent>, b: Book): set<u64> {
    set ev | ev in events && (ev.typ == EXECUTE_EVENT || ev.typ == CANCEL_EVENT) && ev.orderId !in b.orders ::
      ev.orderId
  }

  function Refreshed(index: map<u64, u32>, b: Book, s: u32, id: u64): map<u64, u32> {
    if id in b.orders then index[id := s] else index
  }

  datatype BooksStep = BooksStep(books: Books, out: MatchOutput)

  function StepBook(m: Books, s: u32, step: BookStep, dropped: set<u64>, id: u64): BooksStep
    requires s < |m.books|
  {
    var index := m.index - dropped - Gone(step.out.events, step.book);
    BooksStep(Books(m.books[s := step.book], Refreshed(index, step.book, s, id)), step.out)
  }

  function AddNew(m: Books, sn: u64, cmd: ClientCommand): BooksStep
    requires ValidBooks(m) && KnownSymbol(m, cmd.symbol)
  {
    assert BookOk(m, cmd.symbol);
    var step := Add(m.books[cmd.symbol], sn, cmd.orderId, cmd.account, cmd.side, cmd.price, cmd.qty, cmd.tif);
    StepBook(m, cmd.symbol, step, {}, cmd.orderId)
  }

  datatype CancelStep = CancelStep(books: Books, event: Option<MdEvent>)

  function CancelOne(m: Books, sn: u64, id: u64): CancelStep
    requires ValidBooks(m)
  {
    if id !in m.index then CancelStep(m, None)
    else
      var s := m.index[id];
      assert BookOk(m, s);
      var b := m.books[s];
      if id !in b.orders then CancelStep(m, None)
      else CancelStep(Books(m.books[s := Drop(b, id)], m.index - {id}), Some(Cancellation(b, sn, id)))
  }

  function ReplaceOne(m: Books, sn: u64, cmd: ClientCommand): BooksStep
    requires ValidBooks(m)
  {
    if cmd.cancelOrderId !in m.index then BooksStep(m, MatchOutput([], [], 0, UNKNOWN_ORDER))
    else
      var s := m.index[cmd.cancelOrderId];
      assert BookOk(m, s);
      var step := Replace(m.books[s], sn, cmd.cancelOrderId, cmd.orderId, cmd.account, cmd.side, cmd.price, cmd.qty,
                          cmd.tif);
      StepBook(m, s, step, {cmd.cancelOrderId}, cmd.orderId)
  }

  // ---- a replica's step ----

  function FeedAddTo(m: Books, ev: MdEvent): Option<Books>
    requires ValidBooks(m)
  {
    if !KnownSymbol(m, ev.symbol) then None
    else
      assert BookOk(m, ev.symbol);
      var r := FeedAdd(m.books[ev.symbol], ev.orderId, Entry(ev.account, ev.side, ev.price, ev.qty));
      if r.None? then None
      else Some(Books(m.books[ev.symbol := r.value], m.index[ev.orderId := ev.symbol]))
  }

  function FeedExecuteIn(m: Books, ev: MdEvent): Option<Books>
    requires ValidBooks(m)
  {
    if ev.orderId !in m.index then None
    else
      var s := m.index[ev.orderId];
      assert BookOk(m, s);
      var r := FeedExecute(m.books[s], ev.orderId, ev.qty);
      if r.None? then None
      else Some(Books(m.books[s := r.value],
                      if ev.orderId in r.value.orders then m.index else m.index - {ev.orderId}))
  }

  /** `apply_event`: `None` is an error reported, with nothing changed. */
  function FeedBooks(m: Books, ev: MdEvent): Option<Books>
    requires ValidBooks(m)
  {
    if ev.typ == ADD_EVENT then FeedAddTo(m, ev)
    else if ev.typ == CANCEL_EVENT then
      var c := CancelOne(m, ev.seqNo, ev.orderId);
      if c.event.None? then None else Some(c.books)
    else if ev.typ == EXECUTE_EVENT then FeedExecuteIn(m, ev)
    else if ev.typ == REPLACE_EVENT || ev.typ == REJECT_EVENT then Some(m)
    else None
  }

  // ---- validity is kept ----

  lemma PutBook(m: Books, s: nat, b: Book, index: map<u64, u32>)
    requires ValidBooks(m) && s < |m.books| && Valid(b) && b.symbol == s
    requires forall id <- index :: 1 <= index[id] < |m.books|
    ensures ValidBooks(Books(m.books[s := b], index))
  {
    var r := Books(m.books[s := b], index);
    forall t ensures BookOk(r, t) {
      assert BookOk(m, t);
    }
  }

  lemma AddNewKeeps(m: Books, sn: u64, cmd: ClientCommand)
    requires ValidBooks(m) && KnownSymbol(m, cmd.symbol)
    ensures ValidBooks(AddNew(m, sn, cmd).books)
  {
    assert BookOk(m, cmd.symbol);
    var b := m.books[cmd.symbol];
    AddKeeps(b, sn, cmd.orderId, cmd.account, cmd.side, cmd.price, cmd.qty, cmd.tif);
    AddLeads(b, sn, cmd.orderId, cmd.account, cmd.side, cmd.price, cmd.qty, cmd.tif);
    hide Add, Valid, Leads;
    var step := Add(b, sn, cmd.orderId, cmd.account, cmd.side, cmd.price, cmd.qty, cmd.tif);
    LeadsSame(b, step.out.events, step.book);
    PutBook(m, cmd.symbol, step.book, AddNew(m, sn, cmd).books.index);
  }

  lemma LeadsSame(b: Book, evs: seq<MdEvent>, r: Book)
    requires Valid(b) && Leads(b, evs, r)
    ensures Valid(r) && r.symbol == b.symbol && r.ladder == b.ladder
  {
    LeadsOn(b, evs, r, MdEvent(0, 0, 0, 0, 0, 0, 0, 0, 0, 0));
  }

  lemma CancelOneKeeps(m: Books, sn: u64, id: u64)
    requires ValidBooks(m)
    ensures ValidBooks(CancelOne(m, sn, id).books)
  {
    if CancelOne(m, sn, id).event.Some? {
      var s := m.index[id];
      assert BookOk(m, s);
      DropKeeps(m.books[s], id);
      PutBook(m, s, Drop(m.books[s], id), m.index - {id});
    }
  }

  lemma NotCancelled(m: Books, sn: u64, id: u64)
    requires ValidBooks(m)
    ensures CancelOne(m, sn, id).event.None? ==> CancelOne(m, sn, id).books == m
  {}

  lemma ReplaceOneKeeps(m: Books, sn: u64, cmd: ClientCommand)
    requires ValidBooks(m)
    ensures ValidBooks(ReplaceOne(m, sn, cmd).books)
  {
    if cmd.cancelOrderId in m.index {
      var s := m.index[cmd.cancelOrderId];
      assert BookOk(m, s);
      var b := m.books[s];
      ReplaceLeads(b, sn, cmd.cancelOrderId, cmd.orderId, cmd.account, cmd.side, cmd.price, cmd.qty, cmd.tif);
      hide Replace, Valid, Leads;
      var step := Replace(b, sn, cmd.cancelOrderId, cmd.orderId, cmd.account, cmd.side, cmd.price, cmd.qty, cmd.tif);
      LeadsSame(b, step.out.events, step.book);
      PutBook(m, s, step.book, ReplaceOne(m, sn, cmd).books.index);
    }
  }

  lemma FeedBooksKeeps(m: Books, ev: MdEvent)
    requires ValidBooks(m)
    ensures FeedBooks(m, ev).Some? ==> ValidBooks(FeedBooks(m, ev).value) && |FeedBooks(m, ev).value.books| == |m.books|
  {
    if FeedBooks(m, ev).Some? {
      if ev.typ == ADD_EVENT {
        assert BookOk(m, ev.symbol);
        var e := Entry(ev.account, ev.side, ev.price, ev.qty);
        RestKeeps(m.books[ev.symbol], ev.orderId, e);
        PutBook(m, ev.symbol, Rest(m.books[ev.symbol], ev.orderId, e), m.index[ev.orderId := ev.symbol]);
      } else if ev.typ == CANCEL_EVENT {
        CancelOneKeeps(m, ev.seqNo, ev.orderId);
      } else if ev.typ == EXECUTE_EVENT {
        var s := m.index[ev.orderId];
        assert BookOk(m, s);
        FillKeeps(m.books[s], ev.orderId, ev.qty);
        FillSame(m.books[s], ev.orderId, ev.qty);
        PutBook(m, s, FillOrder(m.books[s], ev.orderId, ev.qty), FeedBooks(m, ev).value.index);
      }
    }
  }

  lemma FillSame(b: Book, id: u64, qty: u32)
    requires Shaped(b) && id in b.orders
    ensures FillOrder(b, id, qty).symbol == b.symbol && FillOrder(b, id, qty).ladder == b.ladder
  {
    DropKeeps(b, id);
  }
}
