/** When a replica's books are the engine's, whatever its index: exactly while every published
    cancellation and execution finds its order through that index. */
module Mirrors {
  import opened Types
  import opened PriceTimeBook
  import opened Matching
  import opened MatchTheorems
  import opened Feeds
  import opened Books
  import opened Replica
  import opened IndexAgreement
  import opened Commands
  import opened Risk
  import opened RiskAgreement
  import opened RiskCommands
  import opened ExchangeSpec
  import opened Runs

  /** The index leads from the id to the book of symbol `s`. */
  predicate Routed(index: map<u64, u32>, s: int, id: u64) {
    id in index && index[id] == s
  }

  // ---- one event ----

  lemma EventRouted(r: Books, s: u32, ev: MdEvent)
    requires ValidBooks(r) && KnownSymbol(r, s) && Valid(r.books[s]) && r.books[s].symbol == s
    requires Faithful(r.books[s], ev) && Feed(r.books[s], ev).Some?
    requires ev.typ != ADD_EVENT ==> Routed(r.index, s, ev.orderId)
    ensures FeedBooks(r, ev).Some? && ValidBooks(FeedBooks(r, ev).value)
    ensures FeedBooks(r, ev).value.books == r.books[s := Feed(r.books[s], ev).value]
    ensures forall id: u64 :: id != ev.orderId ==> Routed(FeedBooks(r, ev).value.index, s, id) == Routed(r.index, s, id)
  {
    FeedBooksKeeps(r, ev);
    hide Shaped, Drop, Rest, Crosses, Best;
  }

  /** A replica's book of another symbol has less of an order than it should. */
  ghost predicate Short(r: Books, books: seq<Book>, t: int, id: u64) {
    && 0 <= t < |books| == |r.books| && id in books[t].orders
    && (id in r.books[t].orders ==> r.books[t].orders[id].qty < books[t].orders[id].qty)
  }

  /** An event that the index leads elsewhere is an error, or takes from an order there. */
  lemma EventMisrouted(r: Books, s: u32, ev: MdEvent) returns (t: int)
    requires ValidBooks(r) && KnownSymbol(r, s) && Valid(r.books[s])
    requires Faithful(r.books[s], ev) && ev.typ != ADD_EVENT && !Routed(r.index, s, ev.orderId)
    ensures FeedBooks(r, ev).Some? ==>
      ValidBooks(FeedBooks(r, ev).value) && t != s && Short(FeedBooks(r, ev).value, r.books, t, ev.orderId)
  {
    t := 0;
    FeedBooksKeeps(r, ev);
    if FeedBooks(r, ev).Some? {
      t := r.index[ev.orderId];
      assert BookOk(r, t);
      DropKeeps(r.books[t], ev.orderId);
      hide Shaped, Drop;
    }
  }

  /** Once short, a book stays so: only additions to it could mend it. */
  lemma {:induction false} StaysShort(r: Books, books: seq<Book>, s: int, evs: seq<MdEvent>, t: int, id: u64)
    requires ValidBooks(r) && Short(r, books, t, id) && t != s && FeedAll(r, evs).Some?
    requires forall ev <- evs :: ev.typ == ADD_EVENT ==> ev.symbol == s
    ensures Short(FeedAll(r, evs).value, books, t, id)
    decreases |evs|
  {
    hide FeedBooks, Short;
    if evs != [] {
      FeedBooksKeeps(r, evs[0]);
      assert evs[0] in evs && forall ev <- evs[1..] :: ev in evs;
      ShortOn(r, books, s, evs[0], t, id);
      StaysShort(FeedBooks(r, evs[0]).value, books, s, evs[1..], t, id);
    }
  }

  lemma ShortOn(r: Books, books: seq<Book>, s: int, ev: MdEvent, t: int, id: u64)
    requires ValidBooks(r) && Short(r, books, t, id) && t != s && FeedBooks(r, ev).Some?
    requires ev.typ == ADD_EVENT ==> ev.symbol == s
    ensures Short(FeedBooks(r, ev).value, books, t, id)
  {
    if (ev.typ == CANCEL_EVENT || ev.typ == EXECUTE_EVENT) && ev.orderId in r.index {
      var u := r.index[ev.orderId];
      assert BookOk(r, u);
      if ev.orderId in r.books[u].orders { DropKeeps(r.books[u], ev.orderId); }
    }
    hide Shaped, Drop, Rest;
  }

  // ---- the events of one book ----

  /** No cancellation or execution names an order that an earlier event named. */
  ghost predicate NamesOnce(evs: seq<MdEvent>) {
    forall i, j :: 0 <= i < j < |evs| && evs[j].typ != ADD_EVENT ==> evs[i].orderId != evs[j].orderId
  }

  ghost predicate AllRouted(index: map<u64, u32>, s: int, evs: seq<MdEvent>) {
    forall ev <- evs :: ev.typ != ADD_EVENT ==> Routed(index, s, ev.orderId)
  }

  lemma {:induction false} LeadsSymbol(b: Book, evs: seq<MdEvent>, b': Book)
    requires Valid(b) && Leads(b, evs, b')
    ensures forall ev <- evs :: ev.symbol == b.symbol
    decreases |evs|
  {
    if evs != [] {
      FeedKeeps(b, evs[0]);
      FeedSame(b, evs[0]);
      LeadsSymbol(Feed(b, evs[0]).value, evs[1..], b');
    }
  }

  /** Events that lead a book somewhere lead a replica's there, and no other book anywhere,
      exactly when its index finds every order they take from. */
  lemma {:induction false} FeedAllMirrors(r: Books, s: u32, evs: seq<MdEvent>, b': Book)
    requires ValidBooks(r) && KnownSymbol(r, s) && Valid(r.books[s]) && r.books[s].symbol == s
    requires Leads(r.books[s], evs, b') && NamesOnce(evs)
    ensures FeedAll(r, evs).Some? && FeedAll(r, evs).value.books == r.books[s := b'] <==> AllRouted(r.index, s, evs)
    decreases |evs|
  {
    if evs == [] {
      assert r.books[s := b'] == r.books;
    } else {
      var ev, more := evs[0], evs[1..];
      LeadsSymbol(r.books[s], evs, b');
      FeedKeeps(r.books[s], ev);
      FeedSame(r.books[s], ev);
      FeedBooksKeeps(r, ev);
      hide Shaped, Faithful, Feed, FeedBooks, Short, Routed;
      assert forall i :: 0 <= i < |more| ==> more[i] == evs[i + 1];
      if ev.typ != ADD_EVENT && !Routed(r.index, s, ev.orderId) {
        var t := EventMisrouted(r, s, ev);
        if FeedAll(r, evs).Some? {
          StaysShort(FeedBooks(r, ev).value, r.books, s, more, t, ev.orderId);
          ShortIsOther(FeedAll(r, evs).value, r.books, t, ev.orderId);
        }
      } else {
        EventRouted(r, s, ev);
        var r' := FeedBooks(r, ev).value;
        FeedAllMirrors(r', s, more, b');
        assert r'.books[s := b'] == r.books[s := b'];
        assert AllRouted(r'.index, s, more) <==> AllRouted(r.index, s, more) by { RoutedOn(r'.index, r.index, s, evs); }
        assert AllRouted(r.index, s, evs) <==> AllRouted(r.index, s, more);
      }
    }
  }

  lemma ShortIsOther(r: Books, books: seq<Book>, t: int, id: u64)
    requires Short(r, books, t, id)
    ensures r.books[t] != books[t]
  {}

  lemma RoutedOn(index': map<u64, u32>, index: map<u64, u32>, s: int, evs: seq<MdEvent>)
    requires evs != [] && NamesOnce(evs)
    requires forall id: u64 :: id != evs[0].orderId ==> Routed(index', s, id) == Routed(index, s, id)
    ensures AllRouted(index', s, evs[1..]) <==> AllRouted(index, s, evs[1..])
  {
    hide Routed;
    forall ev | ev in evs[1..] && ev.typ != ADD_EVENT ensures ev.orderId != evs[0].orderId {
      var i :| 0 <= i < |evs| - 1 && evs[1..][i] == ev;
      assert evs[i + 1] == ev;
    }
  }

  // ---- the orders a command takes from ----

  /** A match fills no order twice. */
  lemma {:induction false} FillsDistinct(b: Book, side: u8, price: i64, qty: u32)
    requires Valid(b)
    ensures var fills := Match(b, side, price, qty).fills;
      forall i, j :: 0 <= i < j < |fills| ==> fills[i].id != fills[j].id
    decreases qty
  {
    hide Match, Shaped, Crosses, Drop, Best, FillOrder, Positive;
    if qty == 0 || !Crosses(b, side, price) {
      NoRound(b, side, price, qty);
    } else {
      var f, next, m := Round(b, side, price, qty);
      NextHolds(b, f, next);
      FillsDistinct(next, side, price, qty - f.qty);
      FilledStays(next, side, price, qty - f.qty);
      if f.qty < f.e.qty { NoRound(next, side, price, 0); }
    }
  }

  /** The book takes the command's order. */
  predicate Taken(b: Book, cmd: ClientCommand) {
    cmd.qty > 0 && b.ladder.InBand(cmd.price) && cmd.orderId !in b.orders
  }

  ghost predicate Fills(fills: seq<Fill>, id: u64) {
    exists f <- fills :: f.id == id
  }

  /** An event cancels or executes the order. */
  ghost predicate Names(evs: seq<MdEvent>, id: u64) {
    exists ev <- evs :: ev.typ != ADD_EVENT && ev.orderId == id
  }

  /** The command, not refused, takes this order out or fills it. */
  ghost predicate TakesFrom(m: Books, cmd: ClientCommand, id: u64)
    requires ValidBooks(m) && SymbolExists(m, cmd)
  {
    var t := TargetBook(m, cmd);
    || (cmd.typ == CANCEL && id == cmd.cancelOrderId && id in m.index && id in m.books[m.index[id]].orders)
    || (t.Some? && Taken(t.value, cmd)
        && ((cmd.typ == REPLACE && id == cmd.cancelOrderId) || Fills(FillsIn(t.value, cmd), id)))
  }

  /** The symbol of the book a command works on. */
  function Where(m: Books, cmd: ClientCommand): int {
    if cmd.typ == NEW then cmd.symbol
    else if cmd.cancelOrderId in m.index then m.index[cmd.cancelOrderId]
    else 0
  }

  /** A replica's index does not lead from an order that the command takes from to its book. */
  ghost predicate Misroutes(m: Books, index: map<u64, u32>, cmd: ClientCommand)
    requires ValidBooks(m) && SymbolExists(m, cmd)
  {
    exists id: u64 :: TakesFrom(m, cmd, id) && !Routed(index, Where(m, cmd), id)
  }

  /** The events name the filled orders and no other. */
  ghost predicate NamesFills(fills: seq<Fill>, evs: seq<MdEvent>) {
    forall id: u64 :: Names(evs, id) <==> Fills(fills, id)
  }

  lemma ExecutionsName(fills: seq<Fill>, sn: u64, symbol: u32, last: seq<MdEvent>)
    requires forall i, j :: 0 <= i < j < |fills| ==> fills[i].id != fills[j].id
    requires |last| <= 1 && forall ev <- last :: ev.typ == ADD_EVENT
    ensures var evs := Executions(sn, symbol, fills) + last; NamesOnce(evs) && NamesFills(fills, evs)
  {
    var evs := Executions(sn, symbol, fills) + last;
    AfterFills(fills, sn, symbol, last);
    hide Executions;
    forall id: u64 ensures Names(evs, id) <==> Fills(fills, id) {
      if Names(evs, id) {
        var i :| 0 <= i < |evs| && evs[i].typ != ADD_EVENT && evs[i].orderId == id;
        assert fills[i] in fills;
      }
      if Fills(fills, id) {
        var i :| 0 <= i < |fills| && fills[i].id == id;
        assert evs[i] in evs;
      }
    }
  }

  lemma AfterFills(fills: seq<Fill>, sn: u64, symbol: u32, last: seq<MdEvent>)
    requires forall ev <- last :: ev.typ == ADD_EVENT
    ensures var evs := Executions(sn, symbol, fills) + last;
      && |evs| == |fills| + |last|
      && (forall i :: 0 <= i < |fills| ==> evs[i].orderId == fills[i].id && evs[i].typ == EXECUTE_EVENT)
      && (forall i :: |fills| <= i < |evs| ==> evs[i].typ == ADD_EVENT)
  {
    forall i | |fills| <= i < |fills| + |last|
      ensures (Executions(sn, symbol, fills) + last)[i].typ == ADD_EVENT
    {
      assert last[i - |fills|] in last;
    }
  }

  lemma AddNames(b: Book, sn: u64, cmd: ClientCommand)
    requires Valid(b) && Taken(b, cmd)
    ensures var evs := Add(b, sn, cmd.orderId, cmd.account, cmd.side, cmd.price, cmd.qty, cmd.tif).out.events;
      && NamesOnce(evs) && NamesFills(FillsIn(b, cmd), evs)
      && forall f <- FillsIn(b, cmd) :: f.id in b.orders
  {
    FillsDistinct(b, cmd.side, cmd.price, cmd.qty);
    FilledStays(b, cmd.side, cmd.price, cmd.qty);
    var m := Match(b, cmd.side, cmd.price, cmd.qty);
    var evs := Add(b, sn, cmd.orderId, cmd.account, cmd.side, cmd.price, cmd.qty, cmd.tif).out.events;
    hide Match, Shaped, Rest, NamesFills, NamesOnce, Executions;
    var execs := Executions(sn, b.symbol, m.fills);
    if m.remaining > 0 && cmd.tif == GTC {
      ExecutionsName(m.fills, sn, b.symbol, [evs[|execs|]]);
    } else {
      ExecutionsName(m.fills, sn, b.symbol, []);
      assert execs + [] == execs;
    }
  }

  /** What an accepted command publishes names, once each, the orders it takes from. */
  lemma CommandNames(m: Books, sn: u64, cmd: ClientCommand)
    requires ValidBooks(m) && SymbolExists(m, cmd) && Execute(m, sn, cmd).out.reject == NO_REJECT
    ensures var evs := Execute(m, sn, cmd).out.events;
      && NamesOnce(evs)
      && forall id: u64 {:trigger TakesFrom(m, cmd, id)} {:trigger Names(evs, id)} ::
           TakesFrom(m, cmd, id) <==> Names(evs, id)
  {
    if cmd.typ == NEW {
      assert BookOk(m, cmd.symbol);
      AddNames(m.books[cmd.symbol], sn, cmd);
      hide Add, FillsIn, Shaped;
    } else if cmd.typ == REPLACE {
      var s := m.index[cmd.cancelOrderId];
      assert BookOk(m, s);
      var b := m.books[s];
      DropKeeps(b, cmd.cancelOrderId);
      var d := Drop(b, cmd.cancelOrderId);
      AddNames(d, sn, cmd);
      hide Add, Drop, FillsIn, Shaped;
      var more := Add(d, sn, cmd.orderId, cmd.account, cmd.side, cmd.price, cmd.qty, cmd.tif).out.events;
      CancelNames(FillsIn(d, cmd), Cancellation(b, sn, cmd.cancelOrderId), more);
    }
  }

  lemma CancelNames(fills: seq<Fill>, first: MdEvent, more: seq<MdEvent>)
    requires NamesOnce(more) && NamesFills(fills, more) && first.typ == CANCEL_EVENT
    requires !Fills(fills, first.orderId)
    ensures NamesOnce([first] + more)
    ensures forall id: u64 :: Names([first] + more, id) <==> id == first.orderId || Fills(fills, id)
  {
    var evs := [first] + more;
    assert !Names(more, first.orderId);
    forall id: u64 ensures Names(evs, id) <==> id == first.orderId || Names(more, id) {
      assert first in evs && forall ev <- more :: ev in evs;
      assert forall ev <- evs :: ev == first || ev in more;
    }
    forall i, j | 0 <= i < j < |evs| && evs[j].typ != ADD_EVENT ensures evs[i].orderId != evs[j].orderId {
      assert evs[j] == more[j - 1] && more[j - 1] in more;
      if i > 0 { assert evs[i] == more[i - 1]; }
    }
  }

  /** A refused command takes from no order. */
  lemma RefusedTakesNothing(m: Books, sn: u64, cmd: ClientCommand, id: u64)
    requires ValidBooks(m) && SymbolExists(m, cmd) && Execute(m, sn, cmd).out.reject != NO_REJECT
    ensures !TakesFrom(m, cmd, id)
  {
    hide Match, Shaped, Rest, FillsIn;
    if cmd.typ == REPLACE && TargetBook(m, cmd).Some? {
      var s := m.index[cmd.cancelOrderId];
      assert BookOk(m, s);
      DropKeeps(m.books[s], cmd.cancelOrderId);
    }
  }

  // ---- one command ----

  /** The same orders are named whatever the numbers of the events. */
  lemma RenumberedNames(evs: seq<MdEvent>, evs': seq<MdEvent>, index: map<u64, u32>, s: int)
    requires |evs'| == |evs| && forall i :: 0 <= i < |evs| ==> evs'[i] == evs[i].(seqNo := evs'[i].seqNo)
    requires NamesOnce(evs)
    ensures NamesOnce(evs')
    ensures AllRouted(index, s, evs') <==> forall id: u64 :: Names(evs, id) ==> Routed(index, s, id)
  {
    hide Routed;
    assert forall i :: 0 <= i < |evs| ==> evs'[i].typ == evs[i].typ && evs'[i].orderId == evs[i].orderId;
    if forall id: u64 :: Names(evs, id) ==> Routed(index, s, id) {
      forall ev <- evs' | ev.typ != ADD_EVENT ensures Routed(index, s, ev.orderId) {
        var i :| 0 <= i < |evs'| && evs'[i] == ev;
        assert evs[i] in evs && Names(evs, ev.orderId);
      }
    }
    if AllRouted(index, s, evs') {
      forall id: u64 | Names(evs, id) ensures Routed(index, s, id) {
        var i :| 0 <= i < |evs| && evs[i].typ != ADD_EVENT && evs[i].orderId == id;
        assert evs'[i] in evs';
      }
    }
  }

  /** A replica with the engine's books, and any index, applies what a command publishes and has
      its books again exactly when the command loses no order and takes from none that the
      replica's index misses. */
  lemma MirrorsExactly(m: Books, r: Books, sn: u64, cmd: ClientCommand, evs: seq<MdEvent>)
    requires ValidBooks(m) && ValidBooks(r) && r.books == m.books && SymbolExists(m, cmd)
    requires Publishes(Execute(m, sn, cmd), evs)
    ensures FeedAll(r, evs).Some? && FeedAll(r, evs).value.books == Execute(m, sn, cmd).books.books <==>
      !LosesOrder(m, cmd) && !Misroutes(m, r.index, cmd)
  {
    hide Execute, LosesOrder, TakesFrom, Shaped, Leads, NamesOnce, AllRouted, Routed, ValidBooks, Names;
    var step := Execute(m, sn, cmd);
    RejectedChangesNothing(m, sn, cmd);
    if step.out.reject != NO_REJECT {
      SilentChangesNothing(r, evs);
      forall id: u64 ensures !TakesFrom(m, cmd, id) { RefusedTakesNothing(m, sn, cmd, id); }
    } else {
      CommandNames(m, sn, cmd);
      var s := ExecuteMoves(m, sn, cmd);
      if step.books == m && step.out.events == [] {
        assert evs == [] && FeedAll(r, []) == Some(r);
        forall id: u64 ensures !TakesFrom(m, cmd, id) { NoneNamed(id); }
      } else {
        WorksThere(m, sn, cmd, s);
        RenumberedNames(step.out.events, evs, r.index, s);
        NumbersDoNotMatter(m.books[s], step.out.events, evs, step.books.books[s]);
        FeedAllMirrors(r, s, evs, step.books.books[s]);
      }
    }
  }

  lemma NoneNamed(id: u64)
    ensures !Names([], id)
  {}

  lemma WorksThere(m: Books, sn: u64, cmd: ClientCommand, s: u32)
    requires ValidBooks(m) && SymbolExists(m, cmd) && Execute(m, sn, cmd).out.reject == NO_REJECT
    requires Execute(m, sn, cmd).books != m || Execute(m, sn, cmd).out.events != []
    requires cmd.typ == NEW ==> s == cmd.symbol
    requires (cmd.typ == CANCEL || cmd.typ == REPLACE) && cmd.cancelOrderId in m.index ==> Targets(m, cmd, s)
    ensures Where(m, cmd) == s
  {
    hide Add, Replace, Shaped;
  }

  /** A replica that tracks the engine misses no order. */
  lemma TrackedRoutes(m: Books, r: Books, cmd: ClientCommand)
    requires ValidBooks(m) && Tracks(m, r) && SymbolExists(m, cmd)
    ensures !Misroutes(m, r.index, cmd)
  {
    var t, s := TargetBook(m, cmd), Where(m, cmd);
    if t.Some? {
      assert BookOk(m, s);
      if cmd.typ == REPLACE { DropKeeps(m.books[s], cmd.cancelOrderId); }
      FilledStays(t.value, cmd.side, cmd.price, cmd.qty);
    }
    hide Match, Shaped, Drop;
    forall id: u64 | TakesFrom(m, cmd, id) ensures Routed(r.index, s, id) {
      assert KnownSymbol(r, s) && id in r.books[s].orders;
    }
  }

  // ---- runs ----

  /** One input leaves a replica with the engine's books exactly when it executes no command that
      loses an order or takes from one that the replica's index misses. */
  lemma ProcessMirrorsExactly(limits: Limits, sys: System, r: Books, input: Input)
    requires ValidBooks(sys.books) && ValidBooks(r) && r.books == sys.books.books
    ensures var step := Process(limits, sys, input);
      FeedAll(r, step.Events()).Some? && FeedAll(r, step.Events()).value.books == step.sys.books.books <==>
        (Executed(limits, sys, input) ==>
           var cmd := Sequenced(sys.nextSeq, input).value.cmd;
           !LosesOrder(sys.books, cmd) && !Misroutes(sys.books, r.index, cmd))
  {
    hide Process, Execute, LosesOrder, Misroutes, ValidBooks, FeedAll, Publishes, Silent, SameFigures, AccountsAfter;
    ProcessShape(limits, sys, input);
    var evs := Process(limits, sys, input).Events();
    if Executed(limits, sys, input) {
      var sc := Sequenced(sys.nextSeq, input).value;
      MirrorsExactly(sys.books, r, sc.seqNo, sc.cmd, evs);
    } else {
      SilentChangesNothing(r, evs);
    }
  }

  /** A replica that hears the run reports no error, and has the engine's books after every
      input. */
  ghost predicate MirrorsThroughout(limits: Limits, start: System, r: Books, inputs: seq<Input>)
    requires ValidBooks(start.books) && ValidBooks(r)
  {
    var run := RunOf(limits, start, inputs);
    && FeedAll(r, run.events).Some? && FeedAll(r, run.events).value.books == run.sys.books.books
    && (inputs != [] ==> MirrorsThroughout(limits, start, r, inputs[..|inputs| - 1]))
  }

  /** No executed command of the run lost an order, or took from one that the replica's index
      missed at that point. */
  ghost predicate NeverAstray(limits: Limits, start: System, r: Books, inputs: seq<Input>)
    requires ValidBooks(start.books) && ValidBooks(r)
  {
    inputs == [] ||
    (var before, input := inputs[..|inputs| - 1], inputs[|inputs| - 1];
     && NeverAstray(limits, start, r, before)
     && var run := RunOf(limits, start, before);
        var heard := FeedAll(r, run.events);
        heard.Some? && (Executed(limits, run.sys, input) ==>
          var cmd := Sequenced(run.sys.nextSeq, input).value.cmd;
          !LosesOrder(run.sys.books, cmd) && !Misroutes(run.sys.books, heard.value.index, cmd)))
  }

  /** Over any run the two are the same. */
  lemma {:induction false} MirrorsRunExactly(limits: Limits, start: System, r: Books, inputs: seq<Input>)
    requires ValidBooks(start.books) && ValidBooks(r) && r.books == start.books.books
    ensures MirrorsThroughout(limits, start, r, inputs) <==> NeverAstray(limits, start, r, inputs)
    decreases |inputs|
  {
    hide Process, ValidBooks, FeedAll, LosesOrder, Misroutes, Executed;
    if inputs == [] {
      FeedNothing(r);
    } else {
      var before, input := inputs[..|inputs| - 1], inputs[|inputs| - 1];
      MirrorsRunExactly(limits, start, r, before);
      if MirrorsThroughout(limits, start, r, before) {
        var run := RunOf(limits, start, before);
        FeedAllJoins(r, run.events, []);
        ProcessMirrorsExactly(limits, run.sys, FeedAll(r, run.events).value, input);
        FeedAllJoins(r, run.events, Process(limits, run.sys, input).Events());
      }
    }
  }

  lemma FeedNothing(r: Books)
    requires ValidBooks(r)
    ensures FeedAll(r, []) == Some(r)
  {}
}
