/** The subscriber: its own books, driven by the market-data frames it receives in order. */
module Subscribers {
  import opened Types
  import opened Books
  import opened BookManagers
  import opened ExchangeSpec
  import opened MarketData
  import opened FeedDelivery

  class SubscriberBook {
    const books: BookManager
    const decoder: FeedDecoder

    ghost predicate Valid()
      reads this, books, books.books
    {
      books.Valid()
    }

    /** What this object stands for. */
    ghost function State(): (s: Subscriber)
      requires Valid()
      reads this, books, books.books, decoder
      ensures ValidBooks(s.books)
    {
      Subscriber(books.Now().model, decoder.expected)
    }

    constructor (maxSymbol: u32, cfg: LadderConfig)
      requires Constructible(maxSymbol, cfg)
      ensures Valid() && State() == Subscriber(EmptyBooks(maxSymbol, cfg), 1)
      ensures books.Now() == Market(EmptyBooks(maxSymbol, cfg), Zeros(maxSymbol + 1), true)
      ensures fresh(books) && fresh(decoder) && forall i :: 0 <= i < |books.books| ==> fresh(books.books[i])
    {
      hide EmptyBooks, ValidBooks, BookManager.Now, BookManager.BookAt;
      books := new BookManager(maxSymbol, cfg);
      decoder := new FeedDecoder(1);
    }

    /** `apply_event`: whether it was applied without an error. */
    method ApplyEvent(ev: MdEvent) returns (ok: bool)
      requires Valid() && books.Roomy()
      modifies books, books.books
      ensures Valid() && books.books == old(books.books)
      ensures var m := old(books.Now()).model;
        ok == FeedBooks(m, ev).Some? && books.Now().model == FeedBooks(m, ev).GetOr(m)
      ensures Follows(old(books.Now()), books.Now())
    {
      hide FeedAddTo, FeedExecuteIn, CancelOne, ValidBooks, Follows, BookManager.Now;
      books.NothingFollows();
      if ev.typ == ADD_EVENT {
        ok := books.FeedAdd(ev);
      } else if ev.typ == CANCEL_EVENT {
        var cancelled := books.CancelOrder(ev.seqNo, ev.orderId);
        NotCancelled(old(books.Now()).model, ev.seqNo, ev.orderId);
        ok := cancelled.Some?;
      } else if ev.typ == EXECUTE_EVENT {
        ok := books.FeedExecute(ev);
      } else {
        ok := ev.typ == REPLACE_EVENT || ev.typ == REJECT_EVENT;
      }
    }

    /** `apply_frame`: true exactly when the frame decodes in turn and its event is applied
        without an error. */
    method ApplyFrame(frame: Bytes) returns (ok: bool)
      requires Valid() && books.Roomy()
      modifies books, books.books, decoder
      ensures Valid() && books.books == old(books.books)
      ensures State() == Receive(old(State()), frame) && Follows(old(books.Now()), books.Now())
      ensures ok <==>
        var d := DecodeEvent(frame, Some(old(decoder.expected)));
        d.Event? && FeedBooks(old(books.Now()).model, d.ev).Some?
    {
      hide FeedBooks, ParseEvent, ValidBooks, Follows, BookManager.Now, BookManager.Valid;
      books.NothingFollows();
      var d := Decode(frame);
      if !d.Event? { return false; }
      ok := ApplyEvent(d.ev);
    }

    method Decode(frame: Bytes) returns (d: MarketData.Decoded)
      requires Valid()
      modifies decoder
      ensures Valid() && books.Now() == old(books.Now()) && books.Roomy() == old(books.Roomy())
      ensures d == DecodeEvent(frame, Some(old(decoder.expected)))
      ensures decoder.expected == if d.Event? then Inc64(old(decoder.expected)) else old(decoder.expected)
    {
      hide ParseEvent, ValidBooks, BookManager.Now, BookManager.Valid;
      d := decoder.Decode(frame);
    }
  }
}
