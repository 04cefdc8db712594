/** Commands on the books, past the risk gate: what they emit, and when a replica that hears
    only that still follows. */
module Commands {
  import opened Types
  import opened PriceTimeBook
  import opened Matching
  import opened Feeds
  import opened Books
  import opened Replica
  import opened IndexAgreement

  /** A New must name an existing symbol; the source throws otherwise. */
  predicate SymbolExists(m: Books, cmd: ClientCommand) {
    cmd.typ == NEW ==> KnownSymbol(m, cmd.symbol)
  }

  /** The switch of `apply_sequenced`. A type outside it is accepted and does nothing. */
  function Execute(m: Books, sn: u64, cmd: ClientCommand): BooksStep
    requires ValidBooks(m) && SymbolExists(m, cmd)
  {
    if cmd.typ == NEW then AddNew(m, sn, cmd)
    else if cmd.typ == CANCEL then
      var c := CancelOne(m, sn, cmd.cancelOrderId);
      if c.event.None? then BooksStep(m, MatchOutput([], [], 0, UNKNOWN_ORDER))
      else BooksStep(c.books, MatchOutput([c.event.value], [], 0, NO_REJECT))
    else if cmd.typ == REPLACE then ReplaceOne(m, sn, cmd)
    else BooksStep(m, MatchOutput([], [], 0, NO_REJECT))
  }

  /** What the engine publishes of a step: its events renumbered, or one reject. */
  ghost predicate Publishes(step: BooksStep, evs: seq<MdEvent>) {
    && (step.out.reject != NO_REJECT ==> |evs| == 1 && evs[0].typ == REJECT_EVENT)
    && (step.out.reject == NO_REJECT ==>
          && |evs| == |step.out.events|
          && forall i :: 0 <= i < |evs| ==> evs[i] == step.out.events[i].(seqNo := evs[i].seqNo))
  }

  /** The book in which a command's order is matched: a replace takes the old order out first. */
  function TargetBook(m: Books, cmd: ClientCommand): (b: Option<Book>)
    requires ValidBooks(m) && SymbolExists(m, cmd)
    ensures b.Some? ==> Valid(b.value)
  {
    if cmd.typ == NEW then
      assert BookOk(m, cmd.symbol);
      Some(m.books[cmd.symbol])
    else if cmd.typ == REPLACE && cmd.cancelOrderId in m.index then
      var s := m.index[cmd.cancelOrderId];
      assert BookOk(m, s);
      if cmd.cancelOrderId in m.books[s].orders then
        DropKeeps(m.books[s], cmd.cancelOrderId);
        Some(Drop(m.books[s], cmd.cancelOrderId))
      else None
    else None
  }

  lemma ExecuteKeeps(m: Books, sn: u64, cmd: ClientCommand)
    requires ValidBooks(m) && SymbolExists(m, cmd)
    ensures ValidBooks(Execute(m, sn, cmd).books) && |Execute(m, sn, cmd).books.books| == |m.books|
  {
    if cmd.typ == NEW {
      AddNewKeeps(m, sn, cmd);
    } else if cmd.typ == CANCEL {
      CancelOneKeeps(m, sn, cmd.cancelOrderId);
    } else if cmd.typ == REPLACE {
      ReplaceOneKeeps(m, sn, cmd);
    }
  }

  /** A step changes at most one book, and its events lead there. */
  ghost predicate Moves(m: Books, s: u32, step: BooksStep) {
    && KnownSymbol(m, s) && Valid(m.books[s]) && m.books[s].symbol == s
    && |step.books.books| == |m.books| && step.books.books == m.books[s := step.books.books[s]]
    && Leads(m.books[s], step.out.events, step.books.books[s])
  }

  lemma ExecuteMoves(m: Books, sn: u64, cmd: ClientCommand) returns (s: u32)
    requires ValidBooks(m) && SymbolExists(m, cmd)
    ensures var step := Execute(m, sn, cmd);
      Moves(m, s, step) || (step.books == m && step.out.events == [])
    ensures cmd.typ == NEW ==> s == cmd.symbol && Moves(m, s, Execute(m, sn, cmd))
    ensures cmd.typ == REPLACE && cmd.cancelOrderId in m.index ==>
      Targets(m, cmd, s) && Moves(m, s, Execute(m, sn, cmd))
    ensures cmd.typ == CANCEL && cmd.cancelOrderId in m.index ==> Targets(m, cmd, s)
  {
    s := 0;
    if cmd.typ == NEW {
      s := cmd.symbol;
      assert BookOk(m, s);
      AddLeads(m.books[s], sn, cmd.orderId, cmd.account, cmd.side, cmd.price, cmd.qty, cmd.tif);
    } else if cmd.typ == CANCEL && cmd.cancelOrderId in m.index {
      s := m.index[cmd.cancelOrderId];
      assert BookOk(m, s);
      if cmd.cancelOrderId in m.books[s].orders { CancelLeads(m.books[s], sn, cmd.cancelOrderId); }
    } else if cmd.typ == REPLACE && cmd.cancelOrderId in m.index {
      s := m.index[cmd.cancelOrderId];
      assert BookOk(m, s);
      ReplaceLeads(m.books[s], sn, cmd.cancelOrderId, cmd.orderId, cmd.account, cmd.side, cmd.price, cmd.qty, cmd.tif);
    }
  }

  lemma ExecuteSound(m: Books, sn: u64, cmd: ClientCommand)
    requires ValidBooks(m) && SymbolExists(m, cmd) && Sound(m)
    ensures ValidBooks(Execute(m, sn, cmd).books) && Sound(Execute(m, sn, cmd).books)
  {
    ExecuteKeeps(m, sn, cmd);
    var s := ExecuteMoves(m, sn, cmd);
    hide Shaped, Leads;
    if cmd.typ == NEW {
      StepSound(m, s, Add(m.books[s], sn, cmd.orderId, cmd.account, cmd.side, cmd.price, cmd.qty, cmd.tif), {},
                cmd.orderId);
    } else if cmd.typ == REPLACE && cmd.cancelOrderId in m.index {
      StepSound(m, s, Replace(m.books[s], sn, cmd.cancelOrderId, cmd.orderId, cmd.account, cmd.side, cmd.price, cmd.qty,
                              cmd.tif),
                {cmd.cancelOrderId}, cmd.orderId);
    }
  }

  /** Part of the command's order would rest while its id rests under another symbol. */
  ghost predicate Clashes(m: Books, cmd: ClientCommand)
    requires ValidBooks(m) && SymbolExists(m, cmd)
  {
    || (cmd.typ == NEW
        && WouldRest(m.books[cmd.symbol], cmd.orderId, cmd.side, cmd.price, cmd.qty, cmd.tif)
        && !FreeElsewhere(m, cmd.symbol, cmd.orderId))
    || (cmd.typ == REPLACE && cmd.cancelOrderId in m.index
        && (var s := m.index[cmd.cancelOrderId];
            assert BookOk(m, s);
            && cmd.cancelOrderId in m.books[s].orders
            && WouldRest(Drop(m.books[s], cmd.cancelOrderId), cmd.orderId, cmd.side, cmd.price, cmd.qty, cmd.tif)
            && !FreeElsewhere(m, s, cmd.orderId)))
  }

  /** A replace out of band under a new id: the old order stays, its index entry goes. */
  ghost predicate Unindexes(m: Books, cmd: ClientCommand)
    requires ValidBooks(m)
  {
    && cmd.typ == REPLACE && cmd.cancelOrderId in m.index && cmd.orderId != cmd.cancelOrderId
    && !m.books[m.index[cmd.cancelOrderId]].ladder.InBand(cmd.price)
  }

  /** The exact condition under which a command keeps the index in agreement with the books. */
  lemma ExecuteAgreesExactly(m: Books, sn: u64, cmd: ClientCommand)
    requires ValidBooks(m) && SymbolExists(m, cmd) && IndexAgrees(m)
    ensures ValidBooks(Execute(m, sn, cmd).books)
    ensures IndexAgrees(Execute(m, sn, cmd).books) <==> !Clashes(m, cmd) && !Unindexes(m, cmd)
  {
    ExecuteKeeps(m, sn, cmd);
    if cmd.typ == NEW {
      AddNewAgreesExactly(m, sn, cmd);
    } else if cmd.typ == CANCEL {
      CancelAgrees(m, sn, cmd.cancelOrderId);
    } else if cmd.typ == REPLACE && cmd.cancelOrderId in m.index {
      var s := m.index[cmd.cancelOrderId];
      hide Shaped, Drop, WouldRest;
      ReplaceAgreesExactly(m, sn, cmd, s);
      if !m.books[s].ladder.InBand(cmd.price) { OutOfBandDoesNotRest(m, sn, cmd, s); }
    }
  }

  lemma OutOfBandDoesNotRest(m: Books, sn: u64, cmd: ClientCommand, s: u32)
    requires ValidBooks(m) && SymbolExists(m, cmd) && cmd.typ == REPLACE && Targets(m, cmd, s)
    requires Valid(m.books[s]) && !m.books[s].ladder.InBand(cmd.price)
    ensures !Clashes(m, cmd)
  {
    if cmd.cancelOrderId in m.books[s].orders { DropKeeps(m.books[s], cmd.cancelOrderId); }
  }

  /** A replace that cancels its order and then has the new one refused: in band, but with no
      quantity or under an id taken by a third order. The cancellation is not published. */
  ghost predicate LosesOrder(m: Books, cmd: ClientCommand)
    requires ValidBooks(m)
  {
    && cmd.typ == REPLACE && cmd.cancelOrderId in m.index
    && var b := m.books[m.index[cmd.cancelOrderId]];
       && b.ladder.InBand(cmd.price) && cmd.cancelOrderId in b.orders
       && (cmd.qty == 0 || (cmd.orderId in b.orders && cmd.orderId != cmd.cancelOrderId))
  }

  /** A rejected command leaves every book as it was, except when it loses an order. */
  lemma RejectedChangesNothing(m: Books, sn: u64, cmd: ClientCommand)
    requires ValidBooks(m) && SymbolExists(m, cmd)
    ensures var step := Execute(m, sn, cmd);
      && (LosesOrder(m, cmd) ==> step.out.reject != NO_REJECT && step.books.books != m.books)
      && (!LosesOrder(m, cmd) && step.out.reject != NO_REJECT ==> step.books.books == m.books)
  {
    if cmd.typ == NEW {
      assert BookOk(m, cmd.symbol);
    } else if cmd.typ == REPLACE && cmd.cancelOrderId in m.index {
      var s := m.index[cmd.cancelOrderId];
      assert BookOk(m, s);
      var b := m.books[s];
      if b.ladder.InBand(cmd.price) && cmd.cancelOrderId in b.orders {
        DropKeeps(b, cmd.cancelOrderId);
        var d := Drop(b, cmd.cancelOrderId);
        hide Drop, Shaped, Match, Rest;
        assert d.orders != b.orders;
        if LosesOrder(m, cmd) {
          assert Execute(m, sn, cmd).books.books[s] == d;
        }
      }
    }
  }

  /** The replica holds the engine's books; its index is exact, the engine's at least right
      in what it says. */
  ghost predicate Tracks(m: Books, r: Books) {
    ValidBooks(m) && ValidBooks(r) && r.books == m.books && Sound(m) && IndexAgrees(r)
  }

  /** A replica that hears what the engine publishes never reports an error, and ends with
      the engine's books queue for queue exactly when the command loses no order. */
  lemma TrackCommand(m: Books, r: Books, sn: u64, cmd: ClientCommand, evs: seq<MdEvent>)
    requires Tracks(m, r) && SymbolExists(m, cmd) && !Clashes(m, cmd) && Publishes(Execute(m, sn, cmd), evs)
    ensures FeedAll(r, evs).Some?
    ensures Tracks(Execute(m, sn, cmd).books, FeedAll(r, evs).value) <==> !LosesOrder(m, cmd)
  {
    var step := Execute(m, sn, cmd);
    ExecuteSound(m, sn, cmd);
    RejectedChangesNothing(m, sn, cmd);
    if step.out.reject != NO_REJECT {
      assert FeedAll(r, evs) == Some(r);
    } else {
      var s := ExecuteMoves(m, sn, cmd);
      if step.out.events == [] && step.books == m {
        assert evs == [];
      } else {
        NumbersDoNotMatter(m.books[s], step.out.events, evs, step.books.books[s]);
        hide Shaped, Leads, Sound, Complete;
        FreshAdds(m, r, sn, cmd, s, evs);
        FeedAllRoutes(r, s, evs, step.books.books[s]);
      }
    }
  }

  lemma FreshAdds(m: Books, r: Books, sn: u64, cmd: ClientCommand, s: u32, evs: seq<MdEvent>)
    requires ValidBooks(m) && r.books == m.books && SymbolExists(m, cmd) && !Clashes(m, cmd)
    requires var step := Execute(m, sn, cmd); step.out.reject == NO_REJECT && Publishes(step, evs)
    requires Moves(m, s, Execute(m, sn, cmd))
    requires cmd.typ == NEW ==> s == cmd.symbol
    requires cmd.typ == REPLACE && cmd.cancelOrderId in m.index ==> Targets(m, cmd, s)
    ensures Fresh(r, s, evs)
  {
    hide Shaped, Leads, AddsLast, WouldRest, Drop;
    var outs := Execute(m, sn, cmd).out.events;
    forall ev | ev in evs && ev.typ == ADD_EVENT ensures FreeElsewhere(r, s, ev.orderId) {
      var i :| 0 <= i < |evs| && evs[i] == ev;
      assert outs[i] in outs && outs[i].orderId == ev.orderId;
      AddedIsFree(m, sn, cmd, s, outs[i]);
      hide Execute;
      assert FreeElsewhere(m, s, ev.orderId);
    }
  }

  /** An addition is of the command's own id, and rests. */
  lemma AddedIsFree(m: Books, sn: u64, cmd: ClientCommand, s: u32, ev: MdEvent)
    requires ValidBooks(m) && SymbolExists(m, cmd) && !Clashes(m, cmd)
    requires ev in Execute(m, sn, cmd).out.events && ev.typ == ADD_EVENT
    requires cmd.typ == NEW ==> s == cmd.symbol
    requires cmd.typ == REPLACE && cmd.cancelOrderId in m.index ==> Targets(m, cmd, s)
    ensures FreeElsewhere(m, s, ev.orderId)
  {
    if cmd.typ == NEW {
      assert BookOk(m, s);
      AdditionRests(m.books[s], sn, cmd, ev);
    } else if cmd.typ == REPLACE && cmd.cancelOrderId in m.index {
      assert BookOk(m, s);
      var b := m.books[s];
      if b.ladder.InBand(cmd.price) && cmd.cancelOrderId in b.orders {
        DropKeeps(b, cmd.cancelOrderId);
        AdditionRests(Drop(b, cmd.cancelOrderId), sn, cmd, ev);
      }
    }
  }

  lemma AdditionRests(b: Book, sn: u64, cmd: ClientCommand, ev: MdEvent)
    requires Valid(b) && ev.typ == ADD_EVENT
    requires ev in Add(b, sn, cmd.orderId, cmd.account, cmd.side, cmd.price, cmd.qty, cmd.tif).out.events
    ensures ev.orderId == cmd.orderId && WouldRest(b, cmd.orderId, cmd.side, cmd.price, cmd.qty, cmd.tif)
  {
    AddEvents(b, sn, cmd.orderId, cmd.account, cmd.side, cmd.price, cmd.qty, cmd.tif);
    WouldRestIsResting(b, sn, cmd.orderId, cmd.account, cmd.side, cmd.price, cmd.qty, cmd.tif);
    hide Match, Shaped, WouldRest;
  }
}
