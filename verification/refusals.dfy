/** Why a command is refused: an exact condition for every reason, on the state it meets. */
module Refusals {
  import opened Types
  import opened PriceTimeBook
  import opened Matching
  import opened Books
  import opened Commands
  import opened OrderEntry
  import opened Risk
  import opened RiskAgreement
  import opened ExchangeSpec
  import opened Answers

  // ---- the gate ----

  /** The message fell out of the window. */
  predicate Past(limits: Limits, time: u64, now: u64) {
    now >= time && now - time > limits.window
  }

  /** As many messages as the limit allows are kept: the window is emptied from the oldest on, up
      to the first message still in it. */
  ghost predicate TooManyKept(limits: Limits, recent: seq<u64>, now: u64) {
    limits.maxMsgs == 0 || exists i :: 0 <= i <= |recent| - limits.maxMsgs && !Past(limits, recent[i], now)
  }

  lemma {:induction false} KeptExactly(limits: Limits, recent: seq<u64>, now: u64)
    ensures |InWindow(recent, now, limits.window)| >= limits.maxMsgs <==> TooManyKept(limits, recent, now)
    decreases |recent|
  {
    if recent != [] && limits.maxMsgs > 0 {
      var more := recent[1..];
      if Past(limits, recent[0], now) {
        KeptExactly(limits, more, now);
        if TooManyKept(limits, recent, now) {
          var i :| 0 <= i <= |recent| - limits.maxMsgs && !Past(limits, recent[i], now);
          assert more[i - 1] == recent[i];
        }
        if TooManyKept(limits, more, now) {
          var i :| 0 <= i <= |more| - limits.maxMsgs && !Past(limits, more[i], now);
          assert recent[i + 1] == more[i];
        }
      } else if |recent| >= limits.maxMsgs {
        assert !Past(limits, recent[0], now);
      }
    }
  }

  ghost predicate Limited(limits: Limits, sys: System, cmd: ClientCommand, now: u64) {
    TooManyKept(limits, Get(sys.accounts, cmd.account).recent, now)
  }

  /** A cancel or replace of an order that the index does not hold. */
  predicate Missing(sys: System, cmd: ClientCommand) {
    (cmd.typ == CANCEL || cmd.typ == REPLACE) && cmd.cancelOrderId !in sys.books.index
  }

  predicate Large(limits: Limits, cmd: ClientCommand) {
    cmd.typ != CANCEL && cmd.qty > limits.maxOrderQty
  }

  /** The value is computed modulo 2^64. */
  predicate Dear(limits: Limits, cmd: ClientCommand) {
    var price: int := cmd.price;
    cmd.typ != CANCEL && (if price < 0 then -price else price) * cmd.qty % W64 > limits.maxOrderNotional
  }

  predicate Full(limits: Limits, sys: System, cmd: ClientCommand) {
    cmd.typ == NEW && Get(sys.accounts, cmd.account).openOrders >= limits.maxOpenOrders
  }

  ghost predicate PassesGate(limits: Limits, sys: System, cmd: ClientCommand, now: u64) {
    && !Limited(limits, sys, cmd, now) && !Missing(sys, cmd) && !Large(limits, cmd) && !Dear(limits, cmd)
    && !Full(limits, sys, cmd)
  }

  /** The gate's reason. */
  lemma GateReasons(limits: Limits, sys: System, sc: SequencedCommand)
    ensures var reason, cmd, limited := Gate(limits, sys, sc).reason, sc.cmd, Limited(limits, sys, sc.cmd, sc.recvTs);
      && (reason == RISK_RATE_LIMIT <==> limited)
      && (reason == UNKNOWN_ORDER <==> !limited && Missing(sys, cmd))
      && (reason == RISK_MAX_QTY <==> !limited && !Missing(sys, cmd) && Large(limits, cmd))
      && (reason == RISK_MAX_NOTIONAL <==> !limited && !Missing(sys, cmd) && !Large(limits, cmd) && Dear(limits, cmd))
      && (reason == RISK_OPEN_ORDERS <==>
            !limited && !Missing(sys, cmd) && !Large(limits, cmd) && !Dear(limits, cmd) && Full(limits, sys, cmd))
      && (reason == NO_REJECT <==> PassesGate(limits, sys, cmd, sc.recvTs))
  {
    KeptExactly(limits, Get(sys.accounts, sc.cmd.account).recent, sc.recvTs);
    hide InWindow, TooManyKept;
  }

  // ---- the book ----

  /** The book of a cancel or replace that names an indexed order does not hold it: only where the
      index is wrong. */
  predicate Stale(m: Books, cmd: ClientCommand)
    requires ValidBooks(m)
  {
    && (cmd.typ == CANCEL || cmd.typ == REPLACE) && cmd.cancelOrderId in m.index
    && var b := m.books[m.index[cmd.cancelOrderId]];
       cmd.cancelOrderId !in b.orders && (cmd.typ == REPLACE ==> b.ladder.InBand(cmd.price))
  }

  /** A replace is checked for its price before anything else, a new order for its quantity. */
  predicate OutOfBand(m: Books, cmd: ClientCommand)
    requires ValidBooks(m) && SymbolExists(m, cmd)
  {
    || (cmd.typ == NEW && cmd.qty > 0 && !m.books[cmd.symbol].ladder.InBand(cmd.price))
    || (cmd.typ == REPLACE && cmd.cancelOrderId in m.index
        && !m.books[m.index[cmd.cancelOrderId]].ladder.InBand(cmd.price))
  }

  predicate NoQuantity(m: Books, cmd: ClientCommand)
    requires ValidBooks(m) && SymbolExists(m, cmd)
  {
    || (cmd.typ == NEW && cmd.qty == 0)
    || (cmd.typ == REPLACE && cmd.cancelOrderId in m.index && cmd.qty == 0
        && var b := m.books[m.index[cmd.cancelOrderId]];
           b.ladder.InBand(cmd.price) && cmd.cancelOrderId in b.orders)
  }

  /** The id rests already in the book; a replace may take its own order's id again. */
  predicate TakenId(m: Books, cmd: ClientCommand)
    requires ValidBooks(m) && SymbolExists(m, cmd)
  {
    || (cmd.typ == NEW && cmd.qty > 0
        && var b := m.books[cmd.symbol]; b.ladder.InBand(cmd.price) && cmd.orderId in b.orders)
    || (cmd.typ == REPLACE && cmd.cancelOrderId in m.index && cmd.qty > 0 && cmd.orderId != cmd.cancelOrderId
        && var b := m.books[m.index[cmd.cancelOrderId]];
           b.ladder.InBand(cmd.price) && cmd.cancelOrderId in b.orders && cmd.orderId in b.orders)
  }

  /** The engine's reason, for a command that passed the gate. */
  lemma EngineReasons(m: Books, sn: u64, cmd: ClientCommand)
    requires ValidBooks(m) && SymbolExists(m, cmd)
    requires cmd.typ == CANCEL || cmd.typ == REPLACE ==> cmd.cancelOrderId in m.index
    ensures var reason := Execute(m, sn, cmd).out.reject;
      && (reason == UNKNOWN_ORDER <==> Stale(m, cmd))
      && (reason == INVALID_PRICE <==> OutOfBand(m, cmd))
      && (reason == INVALID_QTY <==> NoQuantity(m, cmd))
      && (reason == DUPLICATE_ORDER <==> TakenId(m, cmd))
      && (reason == NO_REJECT <==>
            !Stale(m, cmd) && !OutOfBand(m, cmd) && !NoQuantity(m, cmd) && !TakenId(m, cmd))
  {
    hide Match, Shaped, Rest;
    if cmd.typ == NEW {
      assert BookOk(m, cmd.symbol);
    } else if cmd.typ == REPLACE {
      var s := m.index[cmd.cancelOrderId];
      assert BookOk(m, s);
      if cmd.cancelOrderId in m.books[s].orders { DropKeeps(m.books[s], cmd.cancelOrderId); }
    }
  }

  // ---- the answer ----

  /** The exact condition for each reason in the exchange's answer to a command, and for a command
      that is answered by an exception. */
  lemma ReasonExactly(limits: Limits, sys: System, input: Input)
    requires ValidBooks(sys.books) && Carried(input).Some?
    ensures var r, cmd, m, now := Process(limits, sys, input).result, Carried(input).value, sys.books, input.now;
      var passes := PassesGate(limits, sys, cmd, now);
      var limited := Limited(limits, sys, cmd, now);
      if r.None? then passes && !SymbolExists(m, cmd)
      else
        var reason := r.value.ack.reason;
        && !(passes && !SymbolExists(m, cmd)) && (r.value.ack.accepted <==> reason == NO_REJECT)
        && (reason == RISK_RATE_LIMIT <==> limited)
        && (reason == UNKNOWN_ORDER <==> (!limited && Missing(sys, cmd)) || (passes && Stale(m, cmd)))
        && (reason == RISK_MAX_QTY <==> !limited && !Missing(sys, cmd) && Large(limits, cmd))
        && (reason == RISK_MAX_NOTIONAL <==>
              !limited && !Missing(sys, cmd) && !Large(limits, cmd) && Dear(limits, cmd))
        && (reason == RISK_OPEN_ORDERS <==>
              !limited && !Missing(sys, cmd) && !Large(limits, cmd) && !Dear(limits, cmd) && Full(limits, sys, cmd))
        && (reason == INVALID_PRICE <==> passes && OutOfBand(m, cmd))
        && (reason == INVALID_QTY <==> passes && NoQuantity(m, cmd))
        && (reason == DUPLICATE_ORDER <==> passes && TakenId(m, cmd))
        && (reason == NO_REJECT <==>
              passes && !Stale(m, cmd) && !OutOfBand(m, cmd) && !NoQuantity(m, cmd) && !TakenId(m, cmd))
  {
    hide Execute, Check, HashEvents, HashReject, AccountAll, ValidBooks, DecodeCommand, Limited, Large, Dear, Full,
         Stale, OutOfBand, NoQuantity, TakenId;
    var sc := Sequenced(sys.nextSeq, input).value;
    GateReasons(limits, sys, sc);
    if Gate(limits, sys, sc).reason == NO_REJECT && SymbolExists(sys.books, sc.cmd) {
      EngineReasons(sys.books, sys.nextSeq, sc.cmd);
    }
  }

  // ---- the decoder ----

  /** Why a command is invalid, by the first test it fails. */
  lemma InvalidReasons(c: ClientCommand)
    ensures var codes := c.typ in {NEW, CANCEL, REPLACE} && c.side in {BUY, SELL} && c.tif in {GTC, IOC};
      var formed := c.account != 0 && c.symbol != 0 && codes && (c.typ == NEW ==> c.orderId != 0);
      var named := (c.typ != NEW ==> c.cancelOrderId != 0) && (c.typ == REPLACE ==> c.orderId != 0);
      && (Validate(c) == INVALID_SYMBOL <==> c.account != 0 && c.symbol == 0)
      && (Validate(c) == MALFORMED <==> c.account == 0 || (c.symbol != 0 && !formed))
      && (Validate(c) == UNKNOWN_ORDER <==> formed && !named)
      && (Validate(c) == INVALID_QTY <==> formed && named && c.typ != CANCEL && c.qty == 0)
      && (Validate(c) == INVALID_PRICE <==> formed && named && c.typ != CANCEL && c.qty > 0 && c.price <= 0)
      && (Validate(c) == NO_REJECT <==> formed && named && (c.typ != CANCEL ==> c.qty > 0 && c.price > 0))
  {}
}
