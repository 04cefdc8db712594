/** What the exchange answers: the acknowledgement, the published events and the trades. */
module Answers {
  import opened Types
  import opened PriceTimeBook
  import opened Matching
  import opened Books
  import opened Commands
  import opened Frames
  import opened OrderEntry
  import opened Risk
  import opened RiskAgreement
  import opened ExchangeSpec

  /** The command an input carries, none when its frame does not decode. */
  function Carried(input: Input): Option<ClientCommand> {
    match input
    case Direct(cmd, _) => Some(cmd)
    case Wire(frame, _) => if DecodeCommand(frame).Command? then Some(DecodeCommand(frame).cmd) else None
  }

  // ---- trades ----

  /** The executions among some events, in order. */
  function ExecutionsIn(evs: seq<MdEvent>): seq<MdEvent>
    decreases |evs|
  {
    if evs == [] then [] else (if evs[0].typ == EXECUTE_EVENT then [evs[0]] else []) + ExecutionsIn(evs[1..])
  }

  /** A trade tells of an execution: which order was hit, at what price, for how much, and by
      which order of which command. */
  predicate TradeOf(ev: MdEvent, t: Trade, seqNo: u64, aggressor: u64) {
    && t.seqNo == seqNo && t.symbol == ev.symbol && t.restingId == ev.orderId && t.aggressorId == aggressor
    && t.price == ev.price && t.qty == ev.qty
  }

  /** One trade for each execution, in order. */
  ghost predicate TradesTell(evs: seq<MdEvent>, trades: seq<Trade>, seqNo: u64, aggressor: u64) {
    && |trades| == |ExecutionsIn(evs)|
    && forall i :: 0 <= i < |trades| ==> TradeOf(ExecutionsIn(evs)[i], trades[i], seqNo, aggressor)
  }

  lemma {:induction false} ExecutionsInJoin(evs: seq<MdEvent>, more: seq<MdEvent>)
    ensures ExecutionsIn(evs + more) == ExecutionsIn(evs) + ExecutionsIn(more)
    decreases |evs|
  {
    if evs == [] {
      assert evs + more == more;
    } else {
      assert (evs + more)[1..] == evs[1..] + more;
      ExecutionsInJoin(evs[1..], more);
      var head := if evs[0].typ == EXECUTE_EVENT then [evs[0]] else [];
      var rest, last := ExecutionsIn(evs[1..]), ExecutionsIn(more);
      hide ExecutionsIn;
      assert head + (rest + last) == (head + rest) + last;
    }
  }

  lemma {:induction false} AllExecuted(sn: u64, symbol: u32, fills: seq<Fill>)
    ensures ExecutionsIn(Executions(sn, symbol, fills)) == Executions(sn, symbol, fills)
  {
    if fills != [] {
      var evs := Executions(sn, symbol, fills);
      assert evs[1..] == Executions(sn, symbol, fills[1..]);
      AllExecuted(sn, symbol, fills[1..]);
      assert evs == [evs[0]] + evs[1..];
    }
  }

  lemma OneNotExecuted(ev: MdEvent)
    requires ev.typ != EXECUTE_EVENT
    ensures ExecutionsIn([ev]) == []
  {
    assert [ev][1..] == [];
  }

  lemma FillsTell(sn: u64, symbol: u32, aggressor: u64, fills: seq<Fill>, last: seq<MdEvent>)
    requires ExecutionsIn(last) == []
    ensures TradesTell(Executions(sn, symbol, fills) + last, TradesOf(sn, symbol, aggressor, fills), sn, aggressor)
  {
    AllExecuted(sn, symbol, fills);
    ExecutionsInJoin(Executions(sn, symbol, fills), last);
    hide ExecutionsIn;
    assert Executions(sn, symbol, fills) + [] == Executions(sn, symbol, fills);
  }

  lemma AddTrades(b: Book, sn: u64, cmd: ClientCommand)
    requires Valid(b)
    ensures var out := Add(b, sn, cmd.orderId, cmd.account, cmd.side, cmd.price, cmd.qty, cmd.tif).out;
      TradesTell(out.events, out.trades, sn, cmd.orderId)
  {
    var s := Add(b, sn, cmd.orderId, cmd.account, cmd.side, cmd.price, cmd.qty, cmd.tif);
    if s.out.reject == NO_REJECT {
      var m := Match(b, cmd.side, cmd.price, cmd.qty);
      hide Match, Shaped, Rest, TradesTell, TradesOf, ExecutionsIn;
      var execs := Executions(sn, b.symbol, m.fills);
      if m.remaining > 0 && cmd.tif == GTC {
        OneNotExecuted(s.out.events[|execs|]);
        FillsTell(sn, b.symbol, cmd.orderId, m.fills, [s.out.events[|execs|]]);
      } else {
        NoneExecuted();
        FillsTell(sn, b.symbol, cmd.orderId, m.fills, []);
        assert execs + [] == execs;
      }
    } else {
      NoneExecuted();
    }
  }

  lemma NoneExecuted()
    ensures ExecutionsIn([]) == []
  {}

  lemma CommandTrades(m: Books, sn: u64, cmd: ClientCommand)
    requires ValidBooks(m) && SymbolExists(m, cmd) && Execute(m, sn, cmd).out.reject == NO_REJECT
    ensures var out := Execute(m, sn, cmd).out; TradesTell(out.events, out.trades, sn, cmd.orderId)
  {
    if cmd.typ == NEW {
      assert BookOk(m, cmd.symbol);
      AddTrades(m.books[cmd.symbol], sn, cmd);
    } else if cmd.typ == CANCEL {
      OneNotExecuted(Execute(m, sn, cmd).out.events[0]);
    } else if cmd.typ == REPLACE {
      var s := m.index[cmd.cancelOrderId];
      assert BookOk(m, s);
      DropKeeps(m.books[s], cmd.cancelOrderId);
      AddTrades(Drop(m.books[s], cmd.cancelOrderId), sn, cmd);
      hide Add, Drop, Shaped;
      var ev := Cancellation(m.books[s], sn, cmd.cancelOrderId);
      var more := Add(Drop(m.books[s], cmd.cancelOrderId), sn, cmd.orderId, cmd.account, cmd.side, cmd.price, cmd.qty,
                      cmd.tif).out.events;
      OneNotExecuted(ev);
      ExecutionsInJoin([ev], more);
    }
  }

  /** Numbering the events changes nothing else. */
  lemma {:induction false} RenumberedExecutions(evs: seq<MdEvent>, evs': seq<MdEvent>)
    requires |evs'| == |evs| && forall i :: 0 <= i < |evs| ==> evs'[i] == evs[i].(seqNo := evs'[i].seqNo)
    ensures |ExecutionsIn(evs')| == |ExecutionsIn(evs)|
    ensures forall i :: 0 <= i < |ExecutionsIn(evs)| ==>
      ExecutionsIn(evs')[i] == ExecutionsIn(evs)[i].(seqNo := ExecutionsIn(evs')[i].seqNo)
    decreases |evs|
  {
    if evs != [] {
      assert evs'[0] == evs[0].(seqNo := evs'[0].seqNo);
      RenumberedExecutions(evs[1..], evs'[1..]);
    }
  }

  // ---- events ----

  /** The events of an accepted command: first the cancellation of the order a cancel or replace
      names, then executions, last the addition of what is left of its own order. */
  ghost predicate EventsOf(cmd: ClientCommand, evs: seq<MdEvent>) {
    forall i {:trigger evs[i]} :: 0 <= i < |evs| ==>
      var ev := evs[i];
      && ev.newOrderId == 0 && ev.reason == NO_REJECT && ev.typ in {CANCEL_EVENT, EXECUTE_EVENT, ADD_EVENT}
      && (ev.typ == CANCEL_EVENT <==> i == 0 && (cmd.typ == CANCEL || cmd.typ == REPLACE))
      && (ev.typ == CANCEL_EVENT ==> ev.orderId == cmd.cancelOrderId)
      && (ev.typ == ADD_EVENT ==>
            && i == |evs| - 1 && ev.orderId == cmd.orderId && ev.account == cmd.account && ev.side == cmd.side
            && ev.price == cmd.price && 0 < ev.qty <= cmd.qty && cmd.tif == GTC)
  }

  ghost predicate EventsOfAdd(cmd: ClientCommand, evs: seq<MdEvent>) {
    forall i {:trigger evs[i]} :: 0 <= i < |evs| ==>
      var ev := evs[i];
      && ev.newOrderId == 0 && ev.reason == NO_REJECT && ev.typ in {EXECUTE_EVENT, ADD_EVENT}
      && (ev.typ == ADD_EVENT ==>
            && i == |evs| - 1 && ev.orderId == cmd.orderId && ev.account == cmd.account && ev.side == cmd.side
            && ev.price == cmd.price && 0 < ev.qty <= cmd.qty && cmd.tif == GTC)
  }

  lemma AddEventsAre(b: Book, sn: u64, cmd: ClientCommand)
    requires Valid(b)
    ensures EventsOfAdd(cmd,
      Add(b, sn, cmd.orderId, cmd.account, cmd.side, cmd.price, cmd.qty, cmd.tif).out.events)
  {
    hide Match, Shaped, Rest;
  }

  lemma CommandEventsAre(m: Books, sn: u64, cmd: ClientCommand)
    requires ValidBooks(m) && SymbolExists(m, cmd) && Execute(m, sn, cmd).out.reject == NO_REJECT
    ensures EventsOf(cmd, Execute(m, sn, cmd).out.events)
  {
    if cmd.typ == NEW {
      assert BookOk(m, cmd.symbol);
      AddEventsAre(m.books[cmd.symbol], sn, cmd);
      hide Add, Shaped;
    } else if cmd.typ == REPLACE {
      var s := m.index[cmd.cancelOrderId];
      assert BookOk(m, s);
      DropKeeps(m.books[s], cmd.cancelOrderId);
      AddEventsAre(Drop(m.books[s], cmd.cancelOrderId), sn, cmd);
      hide Add, Drop, Shaped;
      var more := Add(Drop(m.books[s], cmd.cancelOrderId), sn, cmd.orderId, cmd.account, cmd.side, cmd.price, cmd.qty,
                      cmd.tif).out.events;
      var evs := Execute(m, sn, cmd).out.events;
      assert forall i :: 0 < i < |evs| ==> evs[i] == more[i - 1];
    }
  }

  lemma NumberedTell(cmd: ClientCommand, evs: seq<MdEvent>, first: u64, trades: seq<Trade>, seqNo: u64)
    requires EventsOf(cmd, evs) && TradesTell(evs, trades, seqNo, cmd.orderId)
    ensures var evs' := Numbered(evs, first);
      && EventsOf(cmd, evs') && TradesTell(evs', trades, seqNo, cmd.orderId)
      && |evs'| == |evs| && forall i :: 0 <= i < |evs| ==> evs'[i].seqNo == (first + i) % W64
  {
    RenumberedExecutions(evs, Numbered(evs, first));
    hide ExecutionsIn;
    assert forall i {:trigger evs[i]} :: 0 <= i < |evs| ==>
      Numbered(evs, first)[i] == evs[i].(seqNo := (first + i) % W64);
  }

  // ---- the answer ----

  /** An input whose command is accepted: the acknowledgement is of its number and its ids, the
      events are those of the command, numbered on, and the trades tell the executions among
      them, one for one and in order. */
  lemma AcceptedAnswer(limits: Limits, sys: System, input: Input)
    requires ValidBooks(sys.books)
    requires var r := Process(limits, sys, input).result; r.Some? && r.value.ack.accepted
    ensures Carried(input).Some?
    ensures var r, cmd := Process(limits, sys, input).result.value, Carried(input).value;
      && r.ack == Ack(sys.nextSeq, cmd.clientOrderId, cmd.orderId, true, NO_REJECT)
      && TradesTell(r.events, r.trades, sys.nextSeq, cmd.orderId)
      && EventsOf(cmd, r.events)
      && forall i :: 0 <= i < |r.events| ==> r.events[i].seqNo == (sys.nextMd + i) % W64
  {
    hide Execute, Check, HashEvents, HashReject, AccountAll, ValidBooks, DecodeCommand, TradesTell, EventsOf, Numbered;
    var sc := Sequenced(sys.nextSeq, input).value;
    var out := Execute(sys.books, sys.nextSeq, sc.cmd).out;
    CommandTrades(sys.books, sys.nextSeq, sc.cmd);
    CommandEventsAre(sys.books, sys.nextSeq, sc.cmd);
    NumberedTell(sc.cmd, out.events, sys.nextMd, out.trades, sys.nextSeq);
  }

  /** The command an input is answered as: a frame that does not decode stands for none. */
  function AnsweredAs(input: Input): ClientCommand {
    Carried(input).GetOr(ClientCommand(NEW, 0, 0, 0, 0, 1, BUY, 0, 0, GTC, 0))
  }

  /** An input that is refused, by the decoder, the gate or the engine: one numbered reject event
      with its own fields and the reason, the same reason in the acknowledgement, no trades. */
  lemma RefusedAnswer(limits: Limits, sys: System, input: Input)
    requires ValidBooks(sys.books)
    requires var r := Process(limits, sys, input).result; r.Some? && !r.value.ack.accepted
    ensures var r, cmd := Process(limits, sys, input).result.value, AnsweredAs(input);
      && r.ack == Ack(sys.nextSeq, cmd.clientOrderId, cmd.orderId, false, r.ack.reason) && r.ack.reason != NO_REJECT
      && r.events == [MdEvent(sys.nextMd, REJECT_EVENT, cmd.symbol, cmd.orderId, 0, cmd.account, cmd.side, cmd.price,
                              cmd.qty, r.ack.reason)]
      && r.trades == []
  {
    hide Execute, Check, HashEvents, HashReject, AccountAll, ValidBooks;
    if input.Wire? && Carried(input).None? { RefusedHasReason(input.frame); }
    hide DecodeCommand;
  }

  lemma RefusedHasReason(frame: Bytes)
    requires DecodeCommand(frame).Refused?
    ensures DecodeCommand(frame).reason != NO_REJECT
  {
    hide Unframe, Validate;
  }

  // ---- the journal of a run ----

  /** What is journaled of some inputs: the commands they carry, each with its input's number and
      its time. */
  function Journaling(first: u64, inputs: seq<Input>): seq<SequencedCommand> {
    if inputs == [] then []
    else
      var n, input := |inputs| - 1, inputs[|inputs| - 1];
      Journaling(first, inputs[..n])
      + if Carried(input).Some? then [SequencedCommand((first + n) % W64, input.now, Carried(input).value)] else []
  }

  lemma NextNumber(limits: Limits, sys: System, input: Input)
    requires ValidBooks(sys.books)
    ensures Process(limits, sys, input).sys.nextSeq == (sys.nextSeq + 1) % W64
  {
    hide Execute, Check, HashEvents, HashReject, AccountAll, ValidBooks, DecodeCommand;
  }

  lemma AddOne(first: u64, n: nat)
    ensures ((first + n) % W64 + 1) % W64 == (first + (n + 1)) % W64
  {}

  /** Over any run each input takes the next number, decoded or not, and the journal has the
      decoded ones. */
  lemma {:induction false} JournalTold(limits: Limits, start: System, inputs: seq<Input>)
    requires ValidBooks(start.books)
    ensures var run := RunOf(limits, start, inputs);
      run.sys.nextSeq == (start.nextSeq + |inputs|) % W64 && run.journal == Journaling(start.nextSeq, inputs)
    decreases |inputs|
  {
    hide Process, ValidBooks, DecodeCommand;
    if inputs != [] {
      var before, input := inputs[..|inputs| - 1], inputs[|inputs| - 1];
      JournalTold(limits, start, before);
      NextNumber(limits, RunOf(limits, start, before).sys, input);
      AddOne(start.nextSeq, |before|);
    }
  }
}
