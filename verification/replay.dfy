/** Replaying a journal reaches the state of the exchange that wrote it. */
module Replay {
  import opened Types
  import opened Books
  import opened Commands
  import opened OrderEntry
  import opened Risk
  import opened RiskAgreement
  import opened RiskCommands
  import opened ExchangeSpec
  import opened Journal

  /** Applying the records of a journal one after the other; `None` once one throws. */
  function ReplayOf(limits: Limits, start: System, scs: seq<SequencedCommand>): (r: Option<System>)
    requires ValidBooks(start.books)
    ensures r.Some? ==> ValidBooks(r.value.books)
  {
    if scs == [] then Some(start)
    else
      var prev := ReplayOf(limits, start, scs[..|scs| - 1]);
      if prev.None? then None
      else
        var step := ApplySequenced(limits, prev.value, scs[|scs| - 1]);
        StepShape(limits, prev.value, scs[|scs| - 1]);
        if step.result.None? then None else Some(step.sys)
  }

  /** No input of the run made the exchange throw. */
  predicate NothingThrown(limits: Limits, start: System, inputs: seq<Input>)
    requires ValidBooks(start.books)
  {
    inputs == [] ||
    (var before := inputs[..|inputs| - 1];
     && NothingThrown(limits, start, before)
     && Process(limits, RunOf(limits, start, before).sys, inputs[|inputs| - 1]).result.Some?)
  }

  /** How many frames did not decode: they are numbered and published as rejects, but not
      journaled. */
  function Undecodable(inputs: seq<Input>): nat {
    if inputs == [] then 0
    else Undecodable(inputs[..|inputs| - 1]) + if Sequenced(0, inputs[|inputs| - 1]).None? then 1 else 0
  }

  /** The same books and accounts, and a market-data stream that is `missed` events behind. */
  ghost predicate Matches(replayed: System, live: System, missed: nat) {
    && replayed.books == live.books && replayed.accounts == live.accounts
    && (replayed.nextMd + missed) % W64 == live.nextMd
    && (missed == 0 ==> replayed.mdHash == live.mdHash)
  }

  lemma NumberedAlike(evs: seq<MdEvent>, first: u64, first': u64)
    ensures var a, b := Numbered(evs, first), Numbered(evs, first');
      |b| == |a| && forall i :: 0 <= i < |a| ==> b[i] == a[i].(seqNo := b[i].seqNo)
  {}

  lemma ShiftNumbers(a: nat, missed: nat, n: nat)
    ensures ((a + n) % W64 + missed) % W64 == ((a + missed) % W64 + n) % W64
  {}

  lemma RefuseMatches(replayed: System, live: System, seqNo: u64, cmd: ClientCommand, reason: u8, missed: nat)
    requires Matches(replayed, live, missed)
    ensures Matches(Refuse(replayed, seqNo, cmd, reason).sys, Refuse(live, seqNo, cmd, reason).sys, missed)
  {
    hide HashReject;
    ShiftNumbers(replayed.nextMd, missed, 1);
  }

  lemma PerformMatches(replayed: System, live: System, sc: SequencedCommand, missed: nat)
    requires ValidBooks(live.books) && Matches(replayed, live, missed)
    ensures var a, b := Perform(replayed, sc), Perform(live, sc);
      (a.result.None? <==> b.result.None?) && Matches(a.sys, b.sys, missed)
  {
    hide Execute, ValidBooks, HashEvents, AccountAll, Numbered, Refuse;
    if SymbolExists(live.books, sc.cmd) {
      var e := Execute(live.books, sc.seqNo, sc.cmd);
      if e.out.reject != NO_REJECT {
        RefuseMatches(replayed.(books := e.books), live.(books := e.books), sc.seqNo, sc.cmd, e.out.reject, missed);
        RefuseReturns(replayed.(books := e.books), sc.seqNo, sc.cmd, e.out.reject);
        RefuseReturns(live.(books := e.books), sc.seqNo, sc.cmd, e.out.reject);
      } else {
        var evs, evs' := Numbered(e.out.events, live.nextMd), Numbered(e.out.events, replayed.nextMd);
        NumberedAlike(e.out.events, live.nextMd, replayed.nextMd);
        AccountAllIgnoresNumbers(live.accounts, evs, evs', e.books.index);
        ShiftNumbers(replayed.nextMd, missed, |evs|);
      }
    }
  }

  lemma RefuseReturns(sys: System, seqNo: u64, cmd: ClientCommand, reason: u8)
    ensures Refuse(sys, seqNo, cmd, reason).result.Some?
  {}

  /** A record does the same to two states that match, and throws in both or in neither. */
  lemma ApplyMatches(limits: Limits, replayed: System, live: System, sc: SequencedCommand, missed: nat)
    requires ValidBooks(live.books) && Matches(replayed, live, missed)
    ensures var a, b := ApplySequenced(limits, replayed, sc), ApplySequenced(limits, live, sc);
      (a.result.None? <==> b.result.None?) && Matches(a.sys, b.sys, missed)
  {
    hide Perform, Refuse, Check, ValidBooks, CaughtUp;
    var c := Gate(limits, live, sc);
    assert c == Gate(limits, replayed, sc);
    var r, l := replayed.(nextSeq := CaughtUp(replayed.nextSeq, sc.seqNo), accounts := c.accounts),
                live.(nextSeq := CaughtUp(live.nextSeq, sc.seqNo), accounts := c.accounts);
    RefuseMatches(r, l, sc.seqNo, sc.cmd, c.reason, missed);
    RefuseReturns(r, sc.seqNo, sc.cmd, c.reason);
    RefuseReturns(l, sc.seqNo, sc.cmd, c.reason);
    PerformMatches(r, l, sc, missed);
  }

  lemma MatchesIgnoresSequencer(replayed: System, live: System, missed: nat, n: u64)
    requires Matches(replayed, live, missed)
    ensures Matches(replayed, live.(nextSeq := n), missed)
  {}

  /** A live input against its journal record, if it has one. */
  lemma ProcessMatches(limits: Limits, replayed: System, live: System, input: Input, missed: nat)
    requires ValidBooks(live.books) && ValidBooks(replayed.books) && Matches(replayed, live, missed)
    ensures var sc, step := Sequenced(live.nextSeq, input), Process(limits, live, input);
      if sc.None? then step.result.Some? && Matches(replayed, step.sys, missed + 1)
      else
        var again := ApplySequenced(limits, replayed, sc.value);
        (again.result.None? <==> step.result.None?) && Matches(again.sys, step.sys, missed)
  {
    hide ApplySequenced, ValidBooks, HashReject, DecodeCommand;
    var sc := Sequenced(live.nextSeq, input);
    if sc.Some? {
      MatchesIgnoresSequencer(replayed, live, missed, Inc64(live.nextSeq));
      ApplyMatches(limits, replayed, live.(nextSeq := Inc64(live.nextSeq)), sc.value, missed);
    }
  }

  lemma SequencedAlike(n: u64, n': u64, input: Input)
    ensures Sequenced(n, input).None? <==> Sequenced(n', input).None?
  {}

  lemma ReplayAppend(limits: Limits, start: System, scs: seq<SequencedCommand>, sc: SequencedCommand)
    requires ValidBooks(start.books)
    ensures var prev := ReplayOf(limits, start, scs);
      ReplayOf(limits, start, scs + [sc]) ==
        if prev.None? then None
        else
          var step := ApplySequenced(limits, prev.value, sc);
          if step.result.None? then None else Some(step.sys)
  {
    assert (scs + [sc])[..|scs|] == scs;
  }

  /** Replaying the journal of any run throws exactly when the run threw; when it does not, it
      reaches the run's books and accounts, also when undecodable frames came in between, and
      the run's market-data numbers and hash when none did. */
  lemma {:induction false} ReplayEqualsLive(limits: Limits, start: System, inputs: seq<Input>)
    requires ValidBooks(start.books)
    ensures var run := RunOf(limits, start, inputs);
      var replayed := ReplayOf(limits, start, run.journal);
      && (replayed.Some? <==> NothingThrown(limits, start, inputs))
      && (replayed.Some? ==> Matches(replayed.value, run.sys, Undecodable(inputs)))
    decreases |inputs|
  {
    hide Process, ApplySequenced, ValidBooks, Sequenced;
    if inputs != [] {
      var before, input := inputs[..|inputs| - 1], inputs[|inputs| - 1];
      ReplayEqualsLive(limits, start, before);
      var run := RunOf(limits, start, before);
      var replayed, sc := ReplayOf(limits, start, run.journal), Sequenced(run.sys.nextSeq, input);
      SequencedAlike(0, run.sys.nextSeq, input);
      if sc.Some? {
        ReplayAppend(limits, start, run.journal, sc.value);
      } else {
        assert run.journal + [] == run.journal;
      }
      if replayed.Some? {
        ProcessMatches(limits, replayed.value, run.sys, input, Undecodable(before));
      }
    }
  }

  /** With every frame decodable, the replayed market data is the live one: next number and
      hash. Otherwise the next number differs, unless 2^64 frames were missed. */
  lemma ReplayOfDecodable(limits: Limits, start: System, inputs: seq<Input>)
    requires ValidBooks(start.books) && NothingThrown(limits, start, inputs)
    ensures var run := RunOf(limits, start, inputs);
      var replayed := ReplayOf(limits, start, run.journal);
      && replayed.Some? && replayed.value.books == run.sys.books && replayed.value.accounts == run.sys.accounts
      && (replayed.value.nextMd == run.sys.nextMd <==> Undecodable(inputs) % W64 == 0)
      && (Undecodable(inputs) == 0 ==> replayed.value.mdHash == run.sys.mdHash)
  {
    hide ReplayOf, RunOf, NothingThrown, Undecodable, ValidBooks;
    ReplayEqualsLive(limits, start, inputs);
    var run := RunOf(limits, start, inputs);
    SameModulo(ReplayOf(limits, start, run.journal).value.nextMd, Undecodable(inputs));
  }

  lemma SameModulo(a: u64, n: nat)
    ensures (a + n) % W64 == a <==> n % W64 == 0
  {}

  /** The file an exchange writes, read back and replayed. */
  lemma FileReplays(limits: Limits, start: System, inputs: seq<Input>)
    requires ValidBooks(start.books) && NothingThrown(limits, start, inputs)
    ensures var run, file := RunOf(limits, start, inputs), ReadJournal(JournalOf(RunOf(limits, start, inputs).journal));
      && file.failure.None? && |file.commands| == |inputs| - Undecodable(inputs)
      && var replayed := ReplayOf(limits, start, file.commands);
         replayed.Some? && Matches(replayed.value, run.sys, Undecodable(inputs))
  {
    hide JournalOf, ReadJournal;
    ReadBack(RunOf(limits, start, inputs).journal);
    ReplayEqualsLive(limits, start, inputs);
    JournalLength(limits, start, inputs);
  }

  lemma {:induction false} JournalLength(limits: Limits, start: System, inputs: seq<Input>)
    requires ValidBooks(start.books)
    ensures |RunOf(limits, start, inputs).journal| == |inputs| - Undecodable(inputs)
    decreases |inputs|
  {
    hide Process, ValidBooks, Sequenced;
    if inputs != [] {
      JournalLength(limits, start, inputs[..|inputs| - 1]);
      SequencedAlike(0, RunOf(limits, start, inputs[..|inputs| - 1]).sys.nextSeq, inputs[|inputs| - 1]);
    }
  }

  // ---- after a crash ----

  /** Some first part of the run wrote exactly the first `k` records. */
  lemma {:induction false} WroteFirst(limits: Limits, start: System, inputs: seq<Input>, k: nat) returns (n: nat)
    requires ValidBooks(start.books) && k <= |RunOf(limits, start, inputs).journal|
    ensures n <= |inputs| && RunOf(limits, start, inputs[..n]).journal == RunOf(limits, start, inputs).journal[..k]
    ensures NothingThrown(limits, start, inputs) ==> NothingThrown(limits, start, inputs[..n])
    decreases |inputs|
  {
    hide Process, ValidBooks, Sequenced;
    var journal := RunOf(limits, start, inputs).journal;
    if k == |journal| {
      n := |inputs|;
      assert inputs[..n] == inputs && journal[..k] == journal;
    } else {
      var before := inputs[..|inputs| - 1];
      assert k <= |RunOf(limits, start, before).journal|;
      n := WroteFirst(limits, start, before, k);
      assert before[..n] == inputs[..n];
      assert journal[..k] == RunOf(limits, start, before).journal[..k];
    }
  }

  /** How many records are whole in the first `cut` bytes of a file, header included. */
  function WholeIn(cut: nat): nat {
    if cut < 6 then 0 else (cut - 6) / RECORD_SIZE
  }

  /** How reading the first `cut` bytes of a file ends. */
  function EndsAt(cut: nat): Option<Failure> {
    if cut < 6 then Some(BadHeader) else StopsAt((cut - 6) % RECORD_SIZE)
  }

  /** From whatever part of the file a crash leaves, header included, replay reaches a state the
      exchange was in: the one after the inputs whose records are whole. */
  lemma CrashRecovers(limits: Limits, start: System, inputs: seq<Input>, cut: nat) returns (n: nat)
    requires ValidBooks(start.books) && NothingThrown(limits, start, inputs)
    requires cut <= |JournalOf(RunOf(limits, start, inputs).journal)|
    ensures n <= |inputs|
    ensures var journal, live := RunOf(limits, start, inputs).journal, RunOf(limits, start, inputs[..n]);
      var out := ReadJournal(JournalOf(journal)[..cut]);
      var replayed := ReplayOf(limits, start, out.commands);
      && out.commands == live.journal == journal[..Min(WholeIn(cut), |journal|)] && out.failure == EndsAt(cut)
      && replayed.Some? && Matches(replayed.value, live.sys, Undecodable(inputs[..n]))
  {
    hide JournalOf, ReadJournal, StopsAt, Matches;
    var journal := RunOf(limits, start, inputs).journal;
    CrashPrefix(journal, cut);
    n := WroteFirst(limits, start, inputs, Min(WholeIn(cut), |journal|));
    ReplayEqualsLive(limits, start, inputs[..n]);
  }

  // ---- the sequencer ----

  /** Live, every input takes the next number; a replay moves past the gaps that undecodable
      frames left. */
  lemma {:induction false} ReplayCatchesUp(limits: Limits, start: System, inputs: seq<Input>)
    requires ValidBooks(start.books) && 1 <= start.nextSeq && start.nextSeq + |inputs| < W64
    ensures var run := RunOf(limits, start, inputs);
      var replayed, journal := ReplayOf(limits, start, run.journal), run.journal;
      && run.sys.nextSeq == start.nextSeq + |inputs|
      && (replayed.Some? ==>
            && 1 <= replayed.value.nextSeq <= run.sys.nextSeq
            && (if journal == [] then replayed.value.nextSeq == start.nextSeq
                else replayed.value.nextSeq == journal[|journal| - 1].seqNo + 1))
    decreases |inputs|
  {
    hide Process, ApplySequenced, ValidBooks, Sequenced, ReplayOf;
    ReplayOfNothing(limits, start);
    if inputs != [] {
      var before, input := inputs[..|inputs| - 1], inputs[|inputs| - 1];
      ReplayCatchesUp(limits, start, before);
      var run := RunOf(limits, start, before);
      ProcessCounts(limits, run.sys, input);
      var replayed, sc := ReplayOf(limits, start, run.journal), Sequenced(run.sys.nextSeq, input);
      if sc.Some? {
        ReplayAppend(limits, start, run.journal, sc.value);
        if replayed.Some? { ApplyCounts(limits, replayed.value, sc.value); }
      } else {
        assert run.journal + [] == run.journal;
      }
    }
  }

  lemma ReplayOfNothing(limits: Limits, start: System)
    requires ValidBooks(start.books)
    ensures ReplayOf(limits, start, []) == Some(start)
  {}

  lemma ApplyCounts(limits: Limits, sys: System, sc: SequencedCommand)
    requires ValidBooks(sys.books)
    ensures ApplySequenced(limits, sys, sc).sys.nextSeq == CaughtUp(sys.nextSeq, sc.seqNo)
  {
    hide Execute, Gate, ValidBooks, HashEvents, HashReject, AccountAll, SymbolExists, CaughtUp, Numbered;
  }

  lemma ProcessCounts(limits: Limits, sys: System, input: Input)
    requires ValidBooks(sys.books) && 1 <= sys.nextSeq < W64 - 1
    ensures Process(limits, sys, input).sys.nextSeq == sys.nextSeq + 1
    ensures var sc := Sequenced(sys.nextSeq, input); sc.Some? ==> sc.value.seqNo == sys.nextSeq
  {
    hide ApplySequenced, ValidBooks, HashReject, DecodeCommand;
    var sc := Sequenced(sys.nextSeq, input);
    if sc.Some? { ApplyCounts(limits, sys.(nextSeq := sys.nextSeq + 1), sc.value); }
  }
}
