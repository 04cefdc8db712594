/** Risk accounting over whole commands: it agrees with the books afterwards exactly when the
    command loses no order, fills no forgotten one in part, and the sums fit. */
module RiskCommands {
  import opened Types
  import opened PriceTimeBook
  import opened Matching
  import opened MatchTheorems
  import opened Feeds
  import opened Books
  import opened Replica
  import opened IndexAgreement
  import opened Commands
  import opened Risk
  import opened RiskAgreement

  /** The accounts after a command: rejects are not accounted for. */
  function AccountsAfter(accounts: map<u32, Account>, step: BooksStep, evs: seq<MdEvent>): map<u32, Account> {
    if step.out.reject != NO_REJECT then accounts else AccountAll(accounts, evs, step.books.index)
  }

  lemma {:induction false} AccountAllIgnoresNumbers(accounts: map<u32, Account>, evs: seq<MdEvent>, evs': seq<MdEvent>,
                                                    index: map<u64, u32>)
    requires |evs'| == |evs| && forall i :: 0 <= i < |evs| ==> evs'[i] == evs[i].(seqNo := evs'[i].seqNo)
    ensures AccountAll(accounts, evs', index) == AccountAll(accounts, evs, index)
    decreases |evs|
  {
    if evs != [] {
      assert evs'[0] == evs[0].(seqNo := evs'[0].seqNo);
      AccountAllIgnoresNumbers(OnMarketData(accounts, evs[0], evs[0].orderId in index), evs[1..], evs'[1..], index);
    }
  }

  // ---- what an index that is behind the books does to the accounts ----

  /** The fills of a command's order in this book, none when it is refused. */
  function FillsIn(b: Book, cmd: ClientCommand): seq<Fill>
    requires Valid(b)
  {
    if cmd.qty > 0 && b.ladder.InBand(cmd.price) && cmd.orderId !in b.orders
    then Match(b, cmd.side, cmd.price, cmd.qty).fills
    else []
  }

  ghost predicate Forgotten(index: map<u64, u32>, f: Fill) {
    f.qty < f.e.qty && f.id !in index
  }

  /** The command's order fills one in part that the index does not hold: its account is then
      taken to have lost it. */
  ghost predicate FillsForgotten(m: Books, cmd: ClientCommand)
    requires ValidBooks(m) && SymbolExists(m, cmd)
  {
    var t := TargetBook(m, cmd);
    t.Some? && exists f <- FillsIn(t.value, cmd) :: Forgotten(m.index, f)
  }

  /** The `k`th order in priority is at an acceptable price, and the command's quantity ends
      inside it. */
  ghost predicate EndsInside(b: Book, cmd: ClientCommand, k: nat) {
    var p := Priority(b, !IsBuy(cmd.side));
    && k < |p| && p[k] in b.orders && Acceptable(cmd.side, cmd.price, b.orders[p[k]].price)
    && Ahead(b.orders, p, k) < cmd.qty < Ahead(b.orders, p, k + 1)
  }

  lemma PrefixIds(p: seq<u64>, orders: map<u64, Entry>, fills: seq<Fill>, left: u32, rest: seq<u64>)
    requires TakesPrefix(p, orders, fills, left, rest)
    ensures |fills| <= |p| && forall i :: 0 <= i < |fills| ==> fills[i].id == p[i]
  {}

  lemma ForgottenFill(b: Book, cmd: ClientCommand, index: map<u64, u32>)
    requires Valid(b)
    ensures (exists f <- FillsIn(b, cmd) :: Forgotten(index, f)) <==>
      && b.ladder.InBand(cmd.price) && cmd.orderId !in b.orders
      && exists k: nat :: EndsInside(b, cmd, k) && Priority(b, !IsBuy(cmd.side))[k] !in index
  {
    hide Match, Shaped, Ahead, Priority, TakesPrefix;
    var p, matched := Priority(b, !IsBuy(cmd.side)), Match(b, cmd.side, cmd.price, cmd.qty);
    var fills := matched.fills;
    MatchTakesPrefix(b, cmd.side, cmd.price, cmd.qty);
    PrefixIds(p, b.orders, fills, matched.remaining, Priority(matched.book, !IsBuy(cmd.side)));
    FilledStays(b, cmd.side, cmd.price, cmd.qty);
    forall k: nat | k < |p| ensures EndsInPart(fills, k) <==> EndsInside(b, cmd, k) {
      InPartExactly(b, cmd.side, cmd.price, cmd.qty, k);
    }
    if f :| f in fills && Forgotten(index, f) {
      var i :| 0 <= i < |fills| && fills[i] == f;
      assert EndsInPart(fills, i);
    }
    if k: nat :| EndsInside(b, cmd, k) && p[k] !in index {
      assert EndsInPart(fills, k) && fills[k] in fills && Forgotten(index, fills[k]);
    }
  }

  /** The same, told from the book alone, without matching. */
  lemma ForgetsExactly(m: Books, cmd: ClientCommand)
    requires ValidBooks(m) && SymbolExists(m, cmd) && TargetBook(m, cmd).Some?
    ensures var b := TargetBook(m, cmd).value;
      FillsForgotten(m, cmd) <==>
        && b.ladder.InBand(cmd.price) && cmd.orderId !in b.orders
        && exists k: nat :: EndsInside(b, cmd, k) && Priority(b, !IsBuy(cmd.side))[k] !in m.index
  {
    ForgottenFill(TargetBook(m, cmd).value, cmd, m.index);
    hide FillsIn, Shaped, Priority, TargetBook, EndsInside;
  }

  /** An index that agrees with the books forgets nothing. */
  lemma AgreeingForgetsNothing(m: Books, cmd: ClientCommand)
    requires ValidBooks(m) && SymbolExists(m, cmd) && IndexAgrees(m)
    ensures !FillsForgotten(m, cmd)
  {
    var t := TargetBook(m, cmd);
    if t.Some? {
      var s := if cmd.typ == NEW then cmd.symbol else m.index[cmd.cancelOrderId];
      assert BookOk(m, s);
      if cmd.typ == REPLACE { DropKeeps(m.books[s], cmd.cancelOrderId); }
      FilledStays(t.value, cmd.side, cmd.price, cmd.qty);
      hide Match, Shaped, Drop;
      assert forall f <- FillsIn(t.value, cmd) :: f.id in m.books[s].orders;
    }
  }

  /** What the events of a command's order tell of its fills: a fill in part comes last. */
  ghost predicate Tells(fills: seq<Fill>, evs: seq<MdEvent>, r: Book) {
    && (forall ev :: ev in evs && ev.typ == EXECUTE_EVENT ==> exists f <- fills :: f.id == ev.orderId)
    && (forall f <- fills :: f.id in r.orders <==> f.qty < f.e.qty)
    && (forall f <- fills :: f.qty < f.e.qty ==>
          && evs != [] && evs[|evs| - 1].typ == EXECUTE_EVENT && evs[|evs| - 1].orderId == f.id
          && forall i :: 0 <= i < |evs| - 1 && evs[i].typ == EXECUTE_EVENT ==> evs[i].orderId !in r.orders)
  }

  lemma ExecutionsTell(fills: seq<Fill>, sn: u64, symbol: u32, last: seq<MdEvent>, r: Book)
    requires forall f <- fills :: f.id in r.orders <==> f.qty < f.e.qty
    requires forall i :: 0 <= i < |fills| && fills[i].qty < fills[i].e.qty ==> i == |fills| - 1 && last == []
    requires forall ev <- last :: ev.typ != EXECUTE_EVENT
    ensures Tells(fills, Executions(sn, symbol, fills) + last, r)
  {
    var evs := Executions(sn, symbol, fills) + last;
    forall ev | ev in evs && ev.typ == EXECUTE_EVENT ensures exists f <- fills :: f.id == ev.orderId {
      var i :| 0 <= i < |evs| && evs[i] == ev;
      assert fills[i] in fills;
    }
    forall f, i | f in fills && f.qty < f.e.qty && 0 <= i < |evs| - 1 && evs[i].typ == EXECUTE_EVENT
      ensures evs[i].orderId !in r.orders
    {
      assert fills[i] in fills;
    }
  }

  lemma AddTells(b: Book, sn: u64, cmd: ClientCommand)
    requires Valid(b)
    ensures var s := Add(b, sn, cmd.orderId, cmd.account, cmd.side, cmd.price, cmd.qty, cmd.tif);
      && Tells(FillsIn(b, cmd), s.out.events, s.book)
      && forall f <- FillsIn(b, cmd) :: f.id in b.orders && f.id != cmd.orderId
  {
    if cmd.qty > 0 && b.ladder.InBand(cmd.price) && cmd.orderId !in b.orders {
      FilledStays(b, cmd.side, cmd.price, cmd.qty);
      var m := Match(b, cmd.side, cmd.price, cmd.qty);
      var s := Add(b, sn, cmd.orderId, cmd.account, cmd.side, cmd.price, cmd.qty, cmd.tif);
      RestKeeps(m.book, cmd.orderId, Entry(cmd.account, cmd.side, cmd.price, m.remaining));
      hide Match, Shaped, Rest, Tells, Executions;
      var execs := Executions(sn, b.symbol, m.fills);
      if m.remaining > 0 && cmd.tif == GTC {
        ExecutionsTell(m.fills, sn, b.symbol, [s.out.events[|execs|]], s.book);
      } else {
        ExecutionsTell(m.fills, sn, b.symbol, [], s.book);
        assert execs + [] == execs;
      }
    }
  }

  /** The events of a command tell of the fills of its order in its book. */
  lemma CommandTells(m: Books, sn: u64, cmd: ClientCommand, s: u32)
    requires ValidBooks(m) && SymbolExists(m, cmd) && Moves(m, s, Execute(m, sn, cmd))
    requires cmd.typ == NEW ==> s == cmd.symbol
    requires cmd.typ == REPLACE && cmd.cancelOrderId in m.index ==> Targets(m, cmd, s)
    ensures var step, t := Execute(m, sn, cmd), TargetBook(m, cmd);
      if t.Some? then
        && Tells(FillsIn(t.value, cmd), step.out.events, step.books.books[s])
        && forall f <- FillsIn(t.value, cmd) ::
             f.id in m.books[s].orders && f.id != cmd.orderId && (cmd.typ == REPLACE ==> f.id != cmd.cancelOrderId)
      else forall ev <- step.out.events :: ev.typ != EXECUTE_EVENT
  {
    var b := m.books[s];
    if cmd.typ == NEW {
      AddTells(b, sn, cmd);
    } else if cmd.typ == REPLACE && cmd.cancelOrderId in m.index && cmd.cancelOrderId in b.orders {
      DropKeeps(b, cmd.cancelOrderId);
      var d := Drop(b, cmd.cancelOrderId);
      AddTells(d, sn, cmd);
      if b.ladder.InBand(cmd.price) {
        hide Add, Drop, Shaped, FillsIn, Leads;
        var evs := Add(d, sn, cmd.orderId, cmd.account, cmd.side, cmd.price, cmd.qty, cmd.tif).out.events;
        TellsLater(FillsIn(d, cmd), Cancellation(b, sn, cmd.cancelOrderId), evs,
                   Execute(m, sn, cmd).books.books[s]);
      }
    }
  }

  lemma TellsLater(fills: seq<Fill>, first: MdEvent, evs: seq<MdEvent>, r: Book)
    requires Tells(fills, evs, r) && first.typ == CANCEL_EVENT
    ensures Tells(fills, [first] + evs, r)
  {
    assert forall i :: 0 < i <= |evs| ==> ([first] + evs)[i] == evs[i - 1];
  }

  /** What the index holds of an order that was filled: nothing once it is gone, and what it
      held before while it rests. */
  lemma IndexAfterFill(m: Books, sn: u64, cmd: ClientCommand, s: u32, f: Fill)
    requires ValidBooks(m) && SymbolExists(m, cmd) && Moves(m, s, Execute(m, sn, cmd))
    requires cmd.typ == NEW ==> s == cmd.symbol
    requires cmd.typ == REPLACE && cmd.cancelOrderId in m.index ==> Targets(m, cmd, s)
    requires TargetBook(m, cmd).Some? && f.id != cmd.orderId && (cmd.typ == REPLACE ==> f.id != cmd.cancelOrderId)
    ensures var step := Execute(m, sn, cmd);
      if f.id in step.books.books[s].orders then f.id in step.books.index <==> f.id in m.index
      else (exists ev :: ev in step.out.events && ev.typ == EXECUTE_EVENT && ev.orderId == f.id) ==>
             f.id !in step.books.index
  {
    hide Shaped, Leads, Add, Replace, Drop, BookOk;
  }

  /** After a command that fills nothing forgotten, the index holds an executed order exactly
      when the order still rests. */
  lemma IndexTellsExecuted(m: Books, sn: u64, cmd: ClientCommand, s: u32, ev: MdEvent)
    requires ValidBooks(m) && SymbolExists(m, cmd) && Moves(m, s, Execute(m, sn, cmd))
    requires cmd.typ == NEW ==> s == cmd.symbol
    requires cmd.typ == REPLACE && cmd.cancelOrderId in m.index ==> Targets(m, cmd, s)
    requires ev in Execute(m, sn, cmd).out.events && ev.typ == EXECUTE_EVENT && !FillsForgotten(m, cmd)
    ensures var step := Execute(m, sn, cmd);
      ev.orderId in step.books.index <==> ev.orderId in step.books.books[s].orders
  {
    hide FillsIn, Shaped, Leads, Execute, TargetBook, ValidBooks;
    CommandTells(m, sn, cmd, s);
    var f :| f in FillsIn(TargetBook(m, cmd).value, cmd) && f.id == ev.orderId;
    IndexAfterFill(m, sn, cmd, s, f);
    assert !Forgotten(m.index, f);
  }

  lemma AcceptedKeepsRisk(m: Books, accounts: map<u32, Account>, sn: u64, cmd: ClientCommand)
    requires ValidBooks(m) && SymbolExists(m, cmd) && !FillsForgotten(m, cmd) && RiskAgrees(accounts, m.books)
    requires Execute(m, sn, cmd).out.reject == NO_REJECT && SumsFit(Execute(m, sn, cmd).books.books)
    ensures var step := Execute(m, sn, cmd);
      RiskAgrees(AccountAll(accounts, step.out.events, step.books.index), step.books.books)
  {
    var step := Execute(m, sn, cmd);
    var s := ExecuteMoves(m, sn, cmd);
    if step.books != m || step.out.events != [] {
      var b, evs, r := m.books[s], step.out.events, step.books.books[s];
      CommandSettles(m, sn, cmd, s);
      NamedWereResting(b, evs, r);
      ValidEverywhere(m);
      AgreeingFits(accounts, m.books);
      hide Shaped, Leads, Settled, Valid, RiskAgrees, SumsFit, AddsLast, FillsForgotten, Execute;
      forall ev | ev in evs && ev.typ == EXECUTE_EVENT
        ensures ev.orderId in step.books.index <==> ev.orderId in r.orders
      {
        IndexTellsExecuted(m, sn, cmd, s, ev);
      }
      FitsAlong(m.books, s, evs, r);
      EventsKeepRisk(accounts, m.books, s, evs, r, step.books.index);
    }
  }

  /** Accounts that agree with the books show that the sums fit the counters. */
  lemma AgreeingFits(accounts: map<u32, Account>, books: seq<Book>)
    requires RiskAgrees(accounts, books)
    ensures SumsFit(books)
  {
    hide OpenOrders, OpenValue;
    forall a: u32 {:trigger AccountFits(books, a)} ensures AccountFits(books, a) {
      assert AccountAgrees(accounts, books, a);
    }
  }

  lemma ValidEverywhere(m: Books)
    requires ValidBooks(m)
    ensures forall b <- m.books :: Valid(b)
  {
    forall b <- m.books ensures Valid(b) {
      var s :| 0 <= s < |m.books| && m.books[s] == b;
      assert BookOk(m, s);
    }
  }

  lemma CommandSettles(m: Books, sn: u64, cmd: ClientCommand, s: u32)
    requires ValidBooks(m) && SymbolExists(m, cmd)
    requires var step := Execute(m, sn, cmd);
      step.out.reject == NO_REJECT && Moves(m, s, step) && (step.books != m || step.out.events != [])
    requires cmd.typ == NEW ==> s == cmd.symbol
    requires cmd.typ == REPLACE && cmd.cancelOrderId in m.index ==> Targets(m, cmd, s)
    ensures var step := Execute(m, sn, cmd);
      AddsLast(step.out.events) && Settled(m.books[s], step.out.events, step.books.books[s])
  {
    var b := m.books[s];
    if cmd.typ == NEW {
      AddEvents(b, sn, cmd.orderId, cmd.account, cmd.side, cmd.price, cmd.qty, cmd.tif);
      AddSettles(b, sn, cmd.orderId, cmd.account, cmd.side, cmd.price, cmd.qty, cmd.tif);
    } else if cmd.typ == REPLACE {
      ReplaceEvents(b, sn, cmd.cancelOrderId, cmd.orderId, cmd.account, cmd.side, cmd.price, cmd.qty, cmd.tif);
      ReplaceSettles(b, sn, cmd.cancelOrderId, cmd.orderId, cmd.account, cmd.side, cmd.price, cmd.qty, cmd.tif);
    } else {
      var evs := Execute(m, sn, cmd).out.events;
      assert |evs| == 1 && evs[0].typ == CANCEL_EVENT;
      assert Feed(b, evs[0]).Some?;
      FeedKeeps(b, evs[0]);
      assert evs[1..] == [];
    }
  }

  /** A lost order leaves its account one order short of what the risk engine holds. */
  lemma LossBreaksRisk(m: Books, accounts: map<u32, Account>, sn: u64, cmd: ClientCommand)
    requires ValidBooks(m) && SymbolExists(m, cmd) && RiskAgrees(accounts, m.books) && LosesOrder(m, cmd)
    ensures !RiskAgrees(accounts, Execute(m, sn, cmd).books.books)
  {
    var s := m.index[cmd.cancelOrderId];
    assert BookOk(m, s);
    var b, ev := m.books[s], Cancellation(m.books[s], sn, cmd.cancelOrderId);
    DropKeeps(b, cmd.cancelOrderId);
    var d, after := Drop(b, cmd.cancelOrderId), Execute(m, sn, cmd).books.books;
    assert after == m.books[s := d];
    ValidEverywhere(m);
    hide Shaped, Execute, LosesOrder;
    SumsMove(m.books, s, ev, ev.account);
    hide Drop, OpenOrders, OpenValue;
    assert AccountAgrees(accounts, m.books, ev.account);
    assert !AccountAgrees(accounts, after, ev.account);
  }

  /** A refused order fills nothing. */
  lemma RefusedFillsNothing(m: Books, sn: u64, cmd: ClientCommand)
    requires ValidBooks(m) && SymbolExists(m, cmd) && Execute(m, sn, cmd).out.reject != NO_REJECT
    ensures !FillsForgotten(m, cmd)
  {
    hide Match, Shaped, Rest;
    if cmd.typ == REPLACE && TargetBook(m, cmd).Some? {
      var s := m.index[cmd.cancelOrderId];
      assert BookOk(m, s);
      DropKeeps(m.books[s], cmd.cancelOrderId);
    }
  }

  /** The forgotten order is the last executed; it rests, and the index does not hold it. */
  lemma ForgottenStays(m: Books, sn: u64, cmd: ClientCommand, s: u32)
    requires ValidBooks(m) && SymbolExists(m, cmd) && FillsForgotten(m, cmd) && Moves(m, s, Execute(m, sn, cmd))
    requires cmd.typ == NEW ==> s == cmd.symbol
    requires cmd.typ == REPLACE && cmd.cancelOrderId in m.index ==> Targets(m, cmd, s)
    ensures var evs, r, index := Execute(m, sn, cmd).out.events, Execute(m, sn, cmd).books.books[s],
                                 Execute(m, sn, cmd).books.index;
      && evs != [] && evs[|evs| - 1].typ == EXECUTE_EVENT
      && evs[|evs| - 1].orderId in r.orders && evs[|evs| - 1].orderId !in index
      && forall i :: 0 <= i < |evs| - 1 && evs[i].typ == EXECUTE_EVENT ==>
           (evs[i].orderId in index <==> evs[i].orderId in r.orders)
  {
    hide FillsIn, Shaped, Leads, Execute, TargetBook, ValidBooks;
    CommandTells(m, sn, cmd, s);
    var step, fills := Execute(m, sn, cmd), FillsIn(TargetBook(m, cmd).value, cmd);
    var evs, r := step.out.events, step.books.books[s];
    var f :| f in fills && Forgotten(m.index, f);
    IndexAfterFill(m, sn, cmd, s, f);
    forall i | 0 <= i < |evs| - 1 && evs[i].typ == EXECUTE_EVENT
      ensures evs[i].orderId in step.books.index <==> evs[i].orderId in r.orders
    {
      assert evs[i] in evs;
      var g :| g in fills && g.id == evs[i].orderId;
      IndexAfterFill(m, sn, cmd, s, g);
    }
  }

  /** A fill in part that the index does not hold leaves the accounts in disagreement. */
  lemma ForgettingBreaksRisk(m: Books, accounts: map<u32, Account>, sn: u64, cmd: ClientCommand)
    requires ValidBooks(m) && SymbolExists(m, cmd) && FillsForgotten(m, cmd) && RiskAgrees(accounts, m.books)
    requires Execute(m, sn, cmd).out.reject == NO_REJECT && SumsFit(Execute(m, sn, cmd).books.books)
    ensures var step := Execute(m, sn, cmd);
      !RiskAgrees(AccountAll(accounts, step.out.events, step.books.index), step.books.books)
  {
    var step := Execute(m, sn, cmd);
    var s := ExecuteMoves(m, sn, cmd);
    CommandTells(m, sn, cmd, s);
    CommandSettles(m, sn, cmd, s);
    ValidEverywhere(m);
    AgreeingFits(accounts, m.books);
    ForgottenStays(m, sn, cmd, s);
    hide Shaped, Leads, Settled, Valid, RiskAgrees, SumsFit, AddsLast, FillsForgotten, Execute, FillsIn;
    FitsAlong(m.books, s, step.out.events, step.books.books[s]);
    EventsBreakRisk(accounts, m.books, s, step.out.events, step.books.books[s], step.books.index);
  }

  /** From books that agree with the accounts, they agree again after a command exactly when it
      loses no order, fills no forgotten one in part, and the sums still fit the counters. */
  lemma RiskCommand(m: Books, accounts: map<u32, Account>, sn: u64, cmd: ClientCommand, evs: seq<MdEvent>)
    requires ValidBooks(m) && SymbolExists(m, cmd) && RiskAgrees(accounts, m.books)
    requires Publishes(Execute(m, sn, cmd), evs)
    ensures var step := Execute(m, sn, cmd);
      RiskAgrees(AccountsAfter(accounts, step, evs), step.books.books) <==>
        !LosesOrder(m, cmd) && !FillsForgotten(m, cmd) && SumsFit(step.books.books)
  {
    var step := Execute(m, sn, cmd);
    RejectedChangesNothing(m, sn, cmd);
    if step.out.reject != NO_REJECT { RefusedFillsNothing(m, sn, cmd); }
    hide Execute, LosesOrder, ValidBooks, FillsForgotten;
    AgreeingFits(accounts, m.books);
    if RiskAgrees(AccountsAfter(accounts, step, evs), step.books.books) {
      AgreeingFits(AccountsAfter(accounts, step, evs), step.books.books);
    }
    hide RiskAgrees, SumsFit;
    if LosesOrder(m, cmd) {
      LossBreaksRisk(m, accounts, sn, cmd);
    } else if step.out.reject == NO_REJECT && SumsFit(step.books.books) {
      AccountAllIgnoresNumbers(accounts, step.out.events, evs, step.books.index);
      if FillsForgotten(m, cmd) {
        ForgettingBreaksRisk(m, accounts, sn, cmd);
      } else {
        AcceptedKeepsRisk(m, accounts, sn, cmd);
      }
    }
  }
}
