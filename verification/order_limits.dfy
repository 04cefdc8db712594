/** The limits on the size and the value of one order, over whole runs. */
module OrderLimits {
  import opened Types
  import opened PriceTimeBook
  import Feeds
  import MatchTheorems
  import opened Books
  import opened Commands
  import opened Risk
  import opened RiskCommands
  import opened OrderSize
  import opened ExchangeSpec
  import opened Runs

  lemma GateBounds(limits: Limits, sys: System, sc: SequencedCommand)
    requires Executes(limits, sys, sc) && sc.cmd.typ != CANCEL
    ensures sc.cmd.qty <= limits.maxOrderQty && Notional(sc.cmd.price, sc.cmd.qty) <= limits.maxOrderNotional
  {
    hide InWindow, Notional;
  }

  lemma RestingIsSized(limits: Limits, sys: System, sc: SequencedCommand)
    requires ValidBooks(sys.books) && Executes(limits, sys, sc) && RestingEntry(sys.books, sc.cmd).Some?
    ensures Sized(limits)(RestingEntry(sys.books, sc.cmd).value)
  {
    GateBounds(limits, sys, sc);
    MatchTheorems.LiquidityIsNatural(TargetBook(sys.books, sc.cmd).value, sc.cmd.side, sc.cmd.price);
    hide Gate, TargetBook, ValidBooks, MatchTheorems.Liquidity;
  }

  /** In every reachable state, whatever the inputs, no resting order is over the limit on size. */
  lemma {:induction false} NoLargeOrderRests(limits: Limits, start: System, inputs: seq<Input>)
    requires ValidBooks(start.books) && AllOf(Sized(limits), start.books)
    ensures AllOf(Sized(limits), RunOf(limits, start, inputs).sys.books)
    decreases |inputs|
  {
    hide Process, Execute, ValidBooks, AllOf, Gate, RestingEntry, Sized, Downward, Publishes, Silent, SameFigures,
         AccountsAfter;
    if inputs != [] {
      var before, input := inputs[..|inputs| - 1], inputs[|inputs| - 1];
      NoLargeOrderRests(limits, start, before);
      var sys := RunOf(limits, start, before).sys;
      ProcessShape(limits, sys, input);
      if Executed(limits, sys, input) {
        var sc := Sequenced(sys.nextSeq, input).value;
        LimitsAreDownward(limits);
        if RestingEntry(sys.books, sc.cmd).Some? { RestingIsSized(limits, sys, sc); }
        CommandKeepsExactly(Sized(limits), sys.books, sc.seqNo, sc.cmd);
      }
    }
  }

  /** One input keeps every resting order within the limit on value exactly when it executes no
      command that oversteps. */
  lemma ProcessKeepsValueExactly(limits: Limits, sys: System, input: Input)
    requires ValidBooks(sys.books) && AllOf(Valued(limits), sys.books)
    ensures AllOf(Valued(limits), Process(limits, sys, input).sys.books) <==>
      (Executed(limits, sys, input) ==> !Has(limits, sys.books, Sequenced(sys.nextSeq, input).value.cmd, Overstep))
  {
    hide Process, Execute, ValidBooks, AllOf, Gate, RestingEntry, Valued, Downward, Publishes, Silent, SameFigures,
         AccountsAfter;
    ProcessShape(limits, sys, input);
    if Executed(limits, sys, input) {
      var sc := Sequenced(sys.nextSeq, input).value;
      LimitsAreDownward(limits);
      CommandKeepsExactly(Valued(limits), sys.books, sc.seqNo, sc.cmd);
    }
  }

  /** Over every run without an overstepping command no resting order is over the limit on value. */
  lemma {:induction false} NoDearOrderRests(limits: Limits, start: System, inputs: seq<Input>)
    requires ValidBooks(start.books) && AllOf(Valued(limits), start.books) && Avoids(limits, start, inputs, {Overstep})
    ensures AllOf(Valued(limits), RunOf(limits, start, inputs).sys.books)
    decreases |inputs|
  {
    hide Process, ValidBooks, AllOf, Valued, Has, Executed, Avoids;
    if inputs != [] {
      var before, input := inputs[..|inputs| - 1], inputs[|inputs| - 1];
      assert inputs == before + [input];
      AvoidsLast(limits, start, before, input, {Overstep}, Overstep);
      NoDearOrderRests(limits, start, before);
      ProcessKeepsValueExactly(limits, RunOf(limits, start, before).sys, input);
    }
  }

  /** No value wraps where the highest price times the limit on size fits 64 bits. */
  ghost predicate BandsFit(limits: Limits, m: Books) {
    forall b <- m.books :: b.ladder.maxPrice * limits.maxOrderQty < W64
  }

  /** With such bands no executed command oversteps. */
  lemma NarrowBandsDoNotOverstep(limits: Limits, sys: System, input: Input)
    requires ValidBooks(sys.books) && BandsFit(limits, sys.books) && Executed(limits, sys, input)
    ensures !Has(limits, sys.books, Sequenced(sys.nextSeq, input).value.cmd, Overstep)
  {
    var sc := Sequenced(sys.nextSeq, input).value;
    if Oversteps(limits, sys.books, sc.cmd) {
      GateBounds(limits, sys, sc);
      hide Gate, Notional, ValidBooks;
      OversteppingWraps(limits, sys.books, sc.cmd);
      TargetIsValid(sys.books, sc.cmd);
      var b := TargetBook(sys.books, sc.cmd).value;
      LessIsSmaller(sc.cmd.price, limits.maxOrderQty, sc.cmd.qty);
      LessIsSmaller(limits.maxOrderQty, b.ladder.maxPrice, sc.cmd.price);
    }
  }

  lemma ProcessKeepsBands(limits: Limits, sys: System, input: Input)
    requires ValidBooks(sys.books) && BandsFit(limits, sys.books)
    ensures BandsFit(limits, Process(limits, sys, input).sys.books)
  {
    hide Process, Execute, ValidBooks, Gate, Publishes, Silent, SameFigures, AccountsAfter, Shaped, Feeds.Leads;
    ProcessShape(limits, sys, input);
    if Executed(limits, sys, input) {
      var sc := Sequenced(sys.nextSeq, input).value;
      var step := Execute(sys.books, sc.seqNo, sc.cmd);
      var s := ExecuteMoves(sys.books, sc.seqNo, sc.cmd);
      if Moves(sys.books, s, step) {
        LeadsSame(sys.books.books[s], step.out.events, step.books.books[s]);
        assert sys.books.books[s] in sys.books.books;
        forall b <- step.books.books ensures b.ladder.maxPrice * limits.maxOrderQty < W64 {
          assert b in sys.books.books || b == step.books.books[s];
        }
      }
    }
  }

  /** With such bands the limit on value holds in every reachable state, whatever the inputs. */
  lemma {:induction false} NarrowBandsHold(limits: Limits, start: System, inputs: seq<Input>)
    requires ValidBooks(start.books) && AllOf(Valued(limits), start.books) && BandsFit(limits, start.books)
    ensures var m := RunOf(limits, start, inputs).sys.books; BandsFit(limits, m) && AllOf(Valued(limits), m)
    decreases |inputs|
  {
    hide Process, ValidBooks, AllOf, Valued, Has, Executed, BandsFit;
    if inputs != [] {
      var before, input := inputs[..|inputs| - 1], inputs[|inputs| - 1];
      NarrowBandsHold(limits, start, before);
      var sys := RunOf(limits, start, before).sys;
      ProcessKeepsBands(limits, sys, input);
      ProcessKeepsValueExactly(limits, sys, input);
      if Executed(limits, sys, input) { NarrowBandsDoNotOverstep(limits, sys, input); }
    }
  }
}
