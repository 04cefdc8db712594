/** The exchange as a transition function: the sequencer, the risk gate, execution, renumbering
    and the market-data hash, for one input and for runs of inputs. */
module ExchangeSpec {
  import opened Types
  import opened Checksum
  import opened PriceTimeBook
  import opened Books
  import opened Replica
  import opened Commands
  import opened Risk
  import opened RiskAgreement
  import opened RiskCommands
  import opened OrderEntry

  const MD_SEED: bv64 := 0x4d4443484b53554d

  /** The price bands: one band, shifted by a stride per symbol class when both are given. */
  datatype LadderConfig = LadderConfig(minPrice: i64, maxPrice: i64, stride: i64, modulo: u32) {
    function Shift(s: u32): int {
      if stride != 0 && modulo != 0 then (s % modulo) * stride else 0
    }

    predicate Fits(s: u32) {
      0 < minPrice + Shift(s) <= maxPrice + Shift(s) < 0x8000_0000_0000_0000 && maxPrice - minPrice + 1 <= 0xFFFF_FFFF
    }

    function For(s: u32): (l: Ladder)
      requires Fits(s)
      ensures l.Valid()
    {
      Ladder(minPrice + Shift(s), maxPrice + Shift(s))
    }
  }

  /** What the constructors accept: a last symbol that a 32-bit loop can pass, and bands that
      fit for every symbol. */
  predicate Constructible(maxSymbol: u32, cfg: LadderConfig) {
    maxSymbol < W32 - 1 && forall s: nat :: s <= maxSymbol ==> cfg.Fits(s)
  }

  function EmptyBooks(maxSymbol: u32, cfg: LadderConfig): Books
    requires Constructible(maxSymbol, cfg)
  {
    Books(seq(maxSymbol + 1, s requires 0 <= s <= maxSymbol => EmptyBook(s, cfg.For(s))), map[])
  }

  datatype System = System(books: Books, accounts: map<u32, Account>, nextSeq: u64, nextMd: u64, mdHash: bv64)

  function StartSystem(maxSymbol: u32, cfg: LadderConfig): (sys: System)
    requires Constructible(maxSymbol, cfg)
    ensures ValidBooks(sys.books)
  {
    EmptyBooksAgree(maxSymbol, cfg);
    System(EmptyBooks(maxSymbol, cfg), map[], 1, 1, MD_SEED)
  }

  datatype Result = Result(ack: Ack, events: seq<MdEvent>, trades: seq<Trade>)

  /** The state after a step and what it returns; `None` is an exception thrown. */
  datatype Step = Step(sys: System, result: Option<Result>) {
    function Events(): seq<MdEvent> {
      if result.Some? then result.value.events else []
    }
  }

  function HashReject(h: bv64, ev: MdEvent): bv64 {
    HashCombine(HashCombine(HashCombine(HashCombine(h,
      Word(ev.seqNo)), Word(ev.typ)), Word(ev.orderId)), Word(ev.reason))
  }

  /** The ids of an event. */
  function HashIds(h: bv64, ev: MdEvent): bv64 {
    HashCombine(HashCombine(HashCombine(HashCombine(HashCombine(h,
      Word(ev.seqNo)), Word(ev.typ)), Word(ev.symbol)), Word(ev.orderId)), Word(ev.newOrderId))
  }

  function HashEvent(h: bv64, ev: MdEvent): bv64 {
    HashCombine(HashCombine(HashCombine(HashCombine(HashCombine(HashIds(h, ev),
      Word(ev.account)), Word(ev.side)), Word(Unsigned(ev.price))), Word(ev.qty)), Word(ev.reason))
  }

  function HashEvents(h: bv64, evs: seq<MdEvent>): bv64
    decreases |evs|
  {
    if evs == [] then h else HashEvents(HashEvent(h, evs[0]), evs[1..])
  }

  function Numbered(evs: seq<MdEvent>, first: u64): seq<MdEvent> {
    seq(|evs|, i requires 0 <= i < |evs| => evs[i].(seqNo := (first + i) % W64))
  }

  function RejectEvent(n: u64, cmd: ClientCommand, reason: u8): MdEvent {
    MdEvent(n, REJECT_EVENT, cmd.symbol, cmd.orderId, 0, cmd.account, cmd.side, cmd.price, cmd.qty, reason)
  }

  /** `reject`. */
  function Refuse(sys: System, seqNo: u64, cmd: ClientCommand, reason: u8): Step {
    var ev := RejectEvent(sys.nextMd, cmd, reason);
    Step(sys.(nextMd := Inc64(sys.nextMd), mdHash := HashReject(sys.mdHash, ev)),
         Some(Result(Ack(seqNo, cmd.clientOrderId, cmd.orderId, false, reason), [ev], [])))
  }

  /** The sequencer moves past a number from outside, as in a replay; its own last number
      leaves it alone. */
  function CaughtUp(nextSeq: u64, seqNo: u64): u64 {
    if seqNo != (nextSeq - 1) % W64 && seqNo >= nextSeq then Inc64(seqNo) else nextSeq
  }

  function Gate(limits: Limits, sys: System, sc: SequencedCommand): Checked {
    Check(limits, sys.accounts, sc.cmd, sc.cmd.cancelOrderId in sys.books.index, sc.recvTs)
  }

  /** The command passes the gate and is executed. */
  predicate Executes(limits: Limits, sys: System, sc: SequencedCommand) {
    Gate(limits, sys, sc).reason == NO_REJECT && SymbolExists(sys.books, sc.cmd)
  }

  /** A command past the gate: executed, and its events renumbered, hashed and accounted for. */
  function Perform(sys: System, sc: SequencedCommand): Step
    requires ValidBooks(sys.books)
  {
    if !SymbolExists(sys.books, sc.cmd) then Step(sys, None)
    else
      var e := Execute(sys.books, sc.seqNo, sc.cmd);
      if e.out.reject != NO_REJECT then Refuse(sys.(books := e.books), sc.seqNo, sc.cmd, e.out.reject)
      else
        var evs := Numbered(e.out.events, sys.nextMd);
        Step(System(e.books, AccountAll(sys.accounts, evs, e.books.index), sys.nextSeq, (sys.nextMd + |evs|) % W64,
                    HashEvents(sys.mdHash, evs)),
             Some(Result(Ack(sc.seqNo, sc.cmd.clientOrderId, sc.cmd.orderId, true, NO_REJECT), evs, e.out.trades)))
  }

  /** `apply_sequenced`. */
  function ApplySequenced(limits: Limits, sys: System, sc: SequencedCommand): Step
    requires ValidBooks(sys.books)
  {
    var c := Gate(limits, sys, sc);
    var s := sys.(nextSeq := CaughtUp(sys.nextSeq, sc.seqNo), accounts := c.accounts);
    if c.reason != NO_REJECT then Refuse(s, sc.seqNo, sc.cmd, c.reason) else Perform(s, sc)
  }

  /** A command handed over decoded, or a frame off the wire. */
  datatype Input = Direct(cmd: ClientCommand, now: u64) | Wire(frame: Bytes, now: u64)

  /** The command that an undecodable frame is rejected as. */
  const NO_COMMAND := ClientCommand(NEW, 0, 0, 0, 0, 1, BUY, 0, 0, GTC, 0)

  /** What an input puts in the journal. */
  function Sequenced(nextSeq: u64, input: Input): Option<SequencedCommand> {
    match input
    case Direct(cmd, now) => Some(SequencedCommand(nextSeq, now, cmd))
    case Wire(frame, now) =>
      var d := DecodeCommand(frame);
      if d.Command? then Some(SequencedCommand(nextSeq, now, d.cmd)) else None
  }

  /** `process_command` and `process_frame`. */
  function Process(limits: Limits, sys: System, input: Input): Step
    requires ValidBooks(sys.books)
  {
    var sc := Sequenced(sys.nextSeq, input);
    var s := sys.(nextSeq := Inc64(sys.nextSeq));
    if sc.Some? then ApplySequenced(limits, s, sc.value)
    else Refuse(s, sys.nextSeq, NO_COMMAND, DecodeCommand(input.frame).reason)
  }

  // ---- what a step can do ----

  /** Events no replica reacts to: none, or one reject. */
  ghost predicate Silent(evs: seq<MdEvent>) {
    evs == [] || (|evs| == 1 && evs[0].typ == REJECT_EVENT)
  }

  /** Two account tables with the same figures, whatever their message windows. */
  ghost predicate SameFigures(xs: map<u32, Account>, ys: map<u32, Account>) {
    forall a: u32 {:trigger Get(ys, a)} ::
      Get(ys, a).openOrders == Get(xs, a).openOrders && Get(ys, a).openNotional == Get(xs, a).openNotional
  }

  lemma GateKeepsFigures(limits: Limits, sys: System, sc: SequencedCommand)
    ensures SameFigures(sys.accounts, Gate(limits, sys, sc).accounts)
  {
    hide InWindow, CheckLimits;
    var xs, ys := sys.accounts, Gate(limits, sys, sc).accounts;
    forall a: u32 {:trigger Get(ys, a)}
      ensures Get(ys, a).openOrders == Get(xs, a).openOrders && Get(ys, a).openNotional == Get(xs, a).openNotional
    {
      if a == sc.cmd.account {} else { assert (a in ys) == (a in xs); }
    }
  }

  lemma NumberedPublishes(step: BooksStep, first: u64)
    requires step.out.reject == NO_REJECT
    ensures Publishes(step, Numbered(step.out.events, first))
  {}

  /** A step that executes its command does what the command does to the books, publishes its
      events and accounts for them; any other step changes no book and is silent. */
  lemma StepShape(limits: Limits, sys: System, sc: SequencedCommand)
    requires ValidBooks(sys.books)
    ensures var step := ApplySequenced(limits, sys, sc);
      && ValidBooks(step.sys.books) && |step.sys.books.books| == |sys.books.books|
      && (!Executes(limits, sys, sc) ==>
            step.sys.books == sys.books && Silent(step.Events()) && SameFigures(sys.accounts, step.sys.accounts))
      && (Executes(limits, sys, sc) ==>
            && step.sys.books == Execute(sys.books, sc.seqNo, sc.cmd).books
            && Publishes(Execute(sys.books, sc.seqNo, sc.cmd), step.Events())
            && step.sys.accounts
               == AccountsAfter(Gate(limits, sys, sc).accounts, Execute(sys.books, sc.seqNo, sc.cmd), step.Events()))
  {
    hide Execute, SameFigures, Gate, HashEvents, HashReject, AccountAll, Numbered, ValidBooks;
    GateKeepsFigures(limits, sys, sc);
    if Executes(limits, sys, sc) {
      ExecuteKeeps(sys.books, sc.seqNo, sc.cmd);
      var e := Execute(sys.books, sc.seqNo, sc.cmd);
      if e.out.reject == NO_REJECT { NumberedPublishes(e, sys.nextMd); }
    }
  }

  // ---- runs ----

  datatype Run = Run(sys: System, events: seq<MdEvent>, journal: seq<SequencedCommand>)

  function Journaled(nextSeq: u64, input: Input): seq<SequencedCommand> {
    var sc := Sequenced(nextSeq, input);
    if sc.Some? then [sc.value] else []
  }

  /** The exchange after a run of inputs, with all it published and journaled. */
  function RunOf(limits: Limits, start: System, inputs: seq<Input>): (r: Run)
    requires ValidBooks(start.books)
    ensures ValidBooks(r.sys.books) && |r.sys.books.books| == |start.books.books|
  {
    if inputs == [] then Run(start, [], [])
    else
      var r, input := RunOf(limits, start, inputs[..|inputs| - 1]), inputs[|inputs| - 1];
      var step := Process(limits, r.sys, input);
      ProcessKeeps(limits, r.sys, input);
      Run(step.sys, r.events + step.Events(), r.journal + Journaled(r.sys.nextSeq, input))
  }

  lemma RunNext(limits: Limits, start: System, before: seq<Input>, input: Input)
    requires ValidBooks(start.books)
    ensures var r := RunOf(limits, start, before);
      var step := Process(limits, r.sys, input);
      RunOf(limits, start, before + [input])
        == Run(step.sys, r.events + step.Events(), r.journal + Journaled(r.sys.nextSeq, input))
  {
    assert (before + [input])[..|before|] == before;
    hide Process, ValidBooks, Journaled;
  }

  lemma ProcessKeeps(limits: Limits, sys: System, input: Input)
    requires ValidBooks(sys.books)
    ensures var s := Process(limits, sys, input).sys; ValidBooks(s.books) && |s.books.books| == |sys.books.books|
  {
    var sc := Sequenced(sys.nextSeq, input);
    if sc.Some? { StepShape(limits, sys.(nextSeq := Inc64(sys.nextSeq)), sc.value); }
  }

  lemma EmptyBooksAgree(maxSymbol: u32, cfg: LadderConfig)
    requires Constructible(maxSymbol, cfg)
    ensures var m := EmptyBooks(maxSymbol, cfg);
      && ValidBooks(m) && IndexAgrees(m) && |m.books| == maxSymbol + 1
      && forall b <- m.books :: b.orders == map[]
  {
    var m := EmptyBooks(maxSymbol, cfg);
    forall s ensures BookOk(m, s) {
      if 0 <= s < |m.books| {
        assert m.books[s] == EmptyBook(s, cfg.For(s));
      }
    }
  }

  lemma Wraps(s: nat, n: nat)
    requires n > 0
    ensures s < n ==> s % n == s
    ensures s >= n ==> s % n == (s - n) % n
  {
    if s >= n {
      var q, r := (s - n) / n, (s - n) % n;
      QuotientIs(s, n, q + 1, r);
    } else {
      QuotientIs(s, n, 0, s);
    }
  }

  /** How far the band of a symbol is shifted. */
  lemma ShiftIs(cfg: LadderConfig, s: u32)
    ensures cfg.stride == 0 || cfg.modulo == 0 ==> cfg.Shift(s) == 0
    ensures 0 < cfg.modulo && s < cfg.modulo ==> cfg.Shift(s) == s * cfg.stride
    ensures 0 < cfg.modulo <= s ==> cfg.Shift(s) == cfg.Shift(s - cfg.modulo)
  {
    if cfg.modulo > 0 { Wraps(s, cfg.modulo); }
  }

  lemma BandOf(maxSymbol: u32, cfg: LadderConfig, s: u32)
    requires Constructible(maxSymbol, cfg) && s <= maxSymbol
    ensures var b := StartSystem(maxSymbol, cfg).books.books;
      && |b| == maxSymbol + 1 && b[s].symbol == s
      && b[s].ladder == Ladder(cfg.minPrice + cfg.Shift(s), cfg.maxPrice + cfg.Shift(s))
  {
    assert cfg.Fits(s);
    hide LadderConfig.Shift;
  }

  /** The bands of a new exchange: one band for all without a stride or a modulus; with them the
      first symbols go up by the stride, and the bands repeat after the modulus. */
  lemma StartBands(maxSymbol: u32, cfg: LadderConfig, s: u32)
    requires Constructible(maxSymbol, cfg) && s <= maxSymbol
    ensures var sys := StartSystem(maxSymbol, cfg);
      sys.nextSeq == 1 && sys.nextMd == 1 && sys.accounts == map[] && sys.books.index == map[]
    ensures var books, n, up := StartSystem(maxSymbol, cfg).books.books, cfg.modulo, s * cfg.stride;
      && |books| == maxSymbol + 1 && books[s].symbol == s
      && books[s].ladder.maxPrice - books[s].ladder.minPrice == cfg.maxPrice - cfg.minPrice
      && (cfg.stride == 0 || n == 0 ==> books[s].ladder.minPrice == cfg.minPrice)
      && (0 < n && s < n ==> books[s].ladder.minPrice == cfg.minPrice + up)
      && (0 < n <= s ==> books[s].ladder == books[s - n].ladder)
  {
    BandOf(maxSymbol, cfg, s);
    ShiftIs(cfg, s);
    if 0 < cfg.modulo <= s { BandOf(maxSymbol, cfg, s - cfg.modulo); }
    hide EmptyBooks, Constructible, LadderConfig.Shift;
  }
}
