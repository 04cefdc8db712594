/** The exact condition under which a replica still tracks the engine after one command. */
module Tracking {
  import opened Types
  import opened PriceTimeBook
  import opened Matching
  import opened MatchTheorems
  import opened Feeds
  import opened Books
  import opened Replica
  import opened IndexAgreement
  import opened Commands
  import opened Runs

  /** All but the last of a run of events. */
  lemma {:induction false} LeadsBeforeLast(b: Book, evs: seq<MdEvent>, r: Book) returns (mid: Book)
    requires Valid(b) && evs != [] && Leads(b, evs, r)
    ensures Valid(mid) && mid.symbol == b.symbol && mid.ladder == b.ladder && Leads(b, evs[..|evs| - 1], mid)
    ensures Faithful(mid, evs[|evs| - 1]) && Feed(mid, evs[|evs| - 1]) == Some(r)
    decreases |evs|
  {
    hide Feed, Faithful, Shaped;
    FeedKeeps(b, evs[0]);
    if |evs| == 1 {
      mid := b;
      assert evs[1..] == [] && evs[..0] == [];
    } else {
      FeedSame(b, evs[0]);
      mid := LeadsBeforeLast(Feed(b, evs[0]).value, evs[1..], r);
      var before := evs[..|evs| - 1];
      assert before[0] == evs[0] && before[1..] == evs[1..][..|evs| - 2];
    }
  }

  /** An order that would rest is accepted, and its addition is the last event. */
  lemma RestingIsAdded(b: Book, sn: u64, cmd: ClientCommand)
    requires Valid(b) && WouldRest(b, cmd.orderId, cmd.side, cmd.price, cmd.qty, cmd.tif)
    ensures var out := Add(b, sn, cmd.orderId, cmd.account, cmd.side, cmd.price, cmd.qty, cmd.tif).out;
      && out.reject == NO_REJECT && out.events != []
      && var last := out.events[|out.events| - 1];
         last.typ == ADD_EVENT && last.orderId == cmd.orderId
  {
    LiquidityIsNatural(b, cmd.side, cmd.price);
    MatchIsExact(b, cmd.side, cmd.price, cmd.qty);
    hide Match, Shaped, Liquidity;
  }

  /** A command that clashes is accepted, and adds its order last. */
  lemma ClashAdds(m: Books, sn: u64, cmd: ClientCommand) returns (s: u32)
    requires ValidBooks(m) && SymbolExists(m, cmd) && Clashes(m, cmd)
    ensures var step := Execute(m, sn, cmd);
      && step.out.reject == NO_REJECT && Moves(m, s, step) && AddsLast(step.out.events) && step.out.events != []
      && var last := step.out.events[|step.out.events| - 1];
         last.typ == ADD_EVENT && !FreeElsewhere(m, s, last.orderId)
  {
    s := ExecuteMoves(m, sn, cmd);
    var b := m.books[s];
    if cmd.typ == NEW {
      AddEvents(b, sn, cmd.orderId, cmd.account, cmd.side, cmd.price, cmd.qty, cmd.tif);
      hide Shaped, Leads, WouldRest, AddsLast, Add, FreeElsewhere;
      RestingIsAdded(b, sn, cmd);
    } else {
      ReplaceEvents(b, sn, cmd.cancelOrderId, cmd.orderId, cmd.account, cmd.side, cmd.price, cmd.qty, cmd.tif);
      DropKeeps(b, cmd.cancelOrderId);
      var d := Drop(b, cmd.cancelOrderId);
      hide Shaped, Leads, AddsLast, Add, Drop, FreeElsewhere, Liquidity;
      assert WouldRest(d, cmd.orderId, cmd.side, cmd.price, cmd.qty, cmd.tif);
      RestingIsAdded(d, sn, cmd);
      var more := Add(d, sn, cmd.orderId, cmd.account, cmd.side, cmd.price, cmd.qty, cmd.tif).out.events;
      assert Execute(m, sn, cmd).out.events == [Cancellation(b, sn, cmd.cancelOrderId)] + more;
    }
  }

  /** The addition of a taken id goes to its book and leaves the index wrong. */
  lemma TakenIdMisindexes(r: Books, s: u32, ev: MdEvent)
    requires ValidBooks(r) && KnownSymbol(r, s) && Valid(r.books[s]) && r.books[s].symbol == s
    requires ev.typ == ADD_EVENT && Faithful(r.books[s], ev) && Feed(r.books[s], ev).Some?
    requires !FreeElsewhere(r, s, ev.orderId)
    ensures FeedBooks(r, ev).Some? && FeedBooks(r, ev).value.books == r.books[s := Feed(r.books[s], ev).value]
    ensures ValidBooks(FeedBooks(r, ev).value) && !IndexAgrees(FeedBooks(r, ev).value)
  {
    FeedBooksKeeps(r, ev);
    hide Shaped, Rest, Faithful;
    var m' := FeedBooks(r, ev).value;
    var t: int :| KnownSymbol(r, t) && t != s && ev.orderId in r.books[t].orders;
    assert m'.books[t] == r.books[t] && ev.orderId in m'.books[t].orders && m'.index[ev.orderId] == s;
  }

  /** A clash is applied without an error and leaves the replica's index wrong. */
  lemma ClashBreaksIndex(m: Books, r: Books, sn: u64, cmd: ClientCommand, evs: seq<MdEvent>)
    requires Tracks(m, r) && SymbolExists(m, cmd) && Clashes(m, cmd) && Publishes(Execute(m, sn, cmd), evs)
    ensures FeedAll(r, evs).Some? && ValidBooks(FeedAll(r, evs).value)
    ensures FeedAll(r, evs).value.books == Execute(m, sn, cmd).books.books && !IndexAgrees(FeedAll(r, evs).value)
  {
    hide Execute, Clashes, Shaped, Feed, Faithful, IndexAgrees, Sound, FreeElsewhere, FeedAll, FeedBooks;
    SameElsewhere(m, r);
    var step := Execute(m, sn, cmd);
    var s := ClashAdds(m, sn, cmd);
    NumbersDoNotMatter(m.books[s], step.out.events, evs, step.books.books[s]);
    var n := |evs| - 1;
    var before, last := evs[..n], evs[n];
    assert last.typ == ADD_EVENT && last.orderId == step.out.events[n].orderId;
    var mid := LeadsBeforeLast(m.books[s], evs, step.books.books[s]);
    assert Fresh(r, s, before) by {
      forall ev | ev in before ensures ev.typ != ADD_EVENT {
        var i :| 0 <= i < n && before[i] == ev;
        assert step.out.events[i].typ != ADD_EVENT;
      }
    }
    FeedAllRoutes(r, s, before, mid);
    var r' := FeedAll(r, before).value;
    StillTaken(r, s, r', last.orderId);
    TakenIdMisindexes(r', s, last);
    assert evs == before + [last];
    FeedAllJoins(r, before, [last]);
    FeedAllOne(r', last);
    assert r.books[s := mid][s := step.books.books[s]] == m.books[s := step.books.books[s]];
  }

  lemma SameElsewhere(m: Books, r: Books)
    requires r.books == m.books
    ensures forall s: u32, id: u64 :: FreeElsewhere(r, s, id) == FreeElsewhere(m, s, id)
  {}

  lemma StillTaken(r: Books, s: u32, r': Books, id: u64)
    requires KnownSymbol(r, s) && |r'.books| == |r.books| && r'.books == r.books[s := r'.books[s]]
    requires !FreeElsewhere(r, s, id)
    ensures !FreeElsewhere(r', s, id)
  {
    var t: int :| KnownSymbol(r, t) && t != s && id in r.books[t].orders;
    assert r'.books[t] == r.books[t] && id in r'.books[t].orders;
  }

  /** After any command a replica that tracked the engine has applied its events without an
      error, and tracks it still if and only if the command neither lost an order nor clashed. */
  lemma TracksExactly(m: Books, r: Books, sn: u64, cmd: ClientCommand, evs: seq<MdEvent>)
    requires Tracks(m, r) && SymbolExists(m, cmd) && Publishes(Execute(m, sn, cmd), evs)
    ensures FeedAll(r, evs).Some?
    ensures Tracks(Execute(m, sn, cmd).books, FeedAll(r, evs).value) <==> !LosesOrder(m, cmd) && !Clashes(m, cmd)
  {
    hide Execute, Clashes, LosesOrder, FeedAll, Publishes, IndexAgrees, ValidBooks;
    if Clashes(m, cmd) {
      ClashBreaksIndex(m, r, sn, cmd, evs);
    } else {
      TrackCommand(m, r, sn, cmd, evs);
    }
  }
}
