/** The sliding message window over whole runs: exact while the times of an account's messages do
    not go back, and when its bound holds for any clock. */
module RateWindow {
  import opened Types
  import opened Books
  import opened Commands
  import opened OrderEntry
  import opened Risk
  import opened RiskAgreement
  import opened ExchangeSpec

  /** How many of the times lie in a closed interval. */
  function CountIn(times: seq<u64>, lo: int, hi: int): nat {
    if times == [] then 0 else (if lo <= times[0] <= hi then 1 else 0) + CountIn(times[1..], lo, hi)
  }

  lemma {:induction false} CountJoins(p: seq<u64>, q: seq<u64>, lo: int, hi: int)
    ensures CountIn(p + q, lo, hi) == CountIn(p, lo, hi) + CountIn(q, lo, hi)
  {
    if p == [] {
      assert p + q == q;
    } else {
      assert (p + q)[1..] == p[1..] + q;
      CountJoins(p[1..], q, lo, hi);
    }
  }

  lemma {:induction false} CountGrows(p: seq<u64>, lo: int, hi: int, lo': int, hi': int)
    requires forall x <- p :: lo <= x <= hi ==> lo' <= x <= hi'
    ensures CountIn(p, lo, hi) <= CountIn(p, lo', hi') <= |p|
    ensures (forall x <- p :: lo <= x <= hi) ==> CountIn(p, lo, hi) == |p|
    ensures (forall x <- p :: !(lo <= x <= hi)) ==> CountIn(p, lo, hi) == 0
  {
    if p != [] {
      assert p[0] in p && forall x <- p[1..] :: x in p;
      CountGrows(p[1..], lo, hi, lo', hi');
    }
  }

  function Now(input: Input): u64 {
    match input
    case Direct(_, now) => now
    case Wire(_, now) => now
  }

  /** The input carries a decoded message of the account. */
  predicate From(input: Input, a: u32) {
    var sc := Sequenced(0, input);
    sc.Some? && sc.value.cmd.account == a
  }

  /** The times of the account's messages do not go back; other inputs may come at any time. */
  ghost predicate TimeForward(inputs: seq<Input>, a: u32) {
    forall i, j :: 0 <= i < j < |inputs| && From(inputs[i], a) && From(inputs[j], a) ==>
      Now(inputs[i]) <= Now(inputs[j])
  }

  predicate Passes(limits: Limits, sys: System, input: Input, a: u32) {
    var sc := Sequenced(sys.nextSeq, input);
    sc.Some? && sc.value.cmd.account == a && Gate(limits, sys, sc.value).reason != RISK_RATE_LIMIT
  }

  /** When the messages of an account passed the rate limit, over a run. */
  function PassTimes(limits: Limits, start: System, inputs: seq<Input>, a: u32): seq<u64>
    requires ValidBooks(start.books)
  {
    if inputs == [] then []
    else
      var before, input := inputs[..|inputs| - 1], inputs[|inputs| - 1];
      PassTimes(limits, start, before, a)
      + if Passes(limits, RunOf(limits, start, before).sys, input, a) then [Now(input)] else []
  }

  // ---- one message ----

  lemma {:induction false} AccountAllKeepsRecent(accounts: map<u32, Account>, evs: seq<MdEvent>, index: map<u64, u32>,
                                                 a: u32)
    ensures Get(AccountAll(accounts, evs, index), a).recent == Get(accounts, a).recent
    decreases |evs|
  {
    if evs != [] {
      AccountAllKeepsRecent(OnMarketData(accounts, evs[0], evs[0].orderId in index), evs[1..], index, a);
    }
  }

  lemma StepKeepsRecent(limits: Limits, sys: System, sc: SequencedCommand, a: u32)
    requires ValidBooks(sys.books)
    ensures Get(ApplySequenced(limits, sys, sc).sys.accounts, a).recent == Get(Gate(limits, sys, sc).accounts, a).recent
  {
    hide Execute, Gate, Get, ValidBooks, HashEvents, HashReject, AccountAll, SymbolExists, CaughtUp;
    if Executes(limits, sys, sc) {
      var e := Execute(sys.books, sc.seqNo, sc.cmd);
      AccountAllKeepsRecent(Gate(limits, sys, sc).accounts, Numbered(e.out.events, sys.nextMd), e.books.index, a);
    }
  }

  lemma GateRecent(limits: Limits, sys: System, sc: SequencedCommand, a: u32)
    ensures var recent, c := Get(sys.accounts, a).recent, Gate(limits, sys, sc);
      var r, recent' := InWindow(recent, sc.recvTs, limits.window), Get(c.accounts, a).recent;
      if sc.cmd.account == a then
        (c.reason != RISK_RATE_LIMIT <==> |r| < limits.maxMsgs)
        && recent' == if c.reason != RISK_RATE_LIMIT then r + [sc.recvTs] else r
      else recent' == recent
  {
    hide InWindow, Notional;
  }

  /** What one input does to the window of an account. */
  lemma RecentAfter(limits: Limits, sys: System, input: Input, a: u32)
    requires ValidBooks(sys.books)
    ensures var sc := Sequenced(sys.nextSeq, input);
      var recent, recent' := Get(sys.accounts, a).recent, Get(Process(limits, sys, input).sys.accounts, a).recent;
      if sc.Some? && sc.value.cmd.account == a then
        var r := InWindow(recent, Now(input), limits.window);
        recent' == (if Passes(limits, sys, input, a) then r + [Now(input)] else r)
        && (Passes(limits, sys, input, a) <==> |r| < limits.maxMsgs)
      else recent' == recent
  {
    hide ApplySequenced, Check, InWindow, ValidBooks, Get, HashReject, DecodeCommand;
    var sc := Sequenced(sys.nextSeq, input);
    if sc.Some? {
      StepKeepsRecent(limits, sys.(nextSeq := Inc64(sys.nextSeq)), sc.value, a);
      GateRecent(limits, sys, sc.value, a);
      SequencedNow(sys.nextSeq, input);
    }
  }

  lemma SequencedNow(nextSeq: u64, input: Input)
    ensures Sequenced(nextSeq, input).Some? ==> Sequenced(nextSeq, input).value.recvTs == Now(input)
  {}

  ghost predicate Rising(times: seq<u64>) {
    forall i, j :: 0 <= i < j < |times| ==> times[i] <= times[j]
  }

  ghost predicate NotAfter(times: seq<u64>, now: u64) {
    forall i :: 0 <= i < |times| ==> times[i] <= now
  }

  /** What stays in the window is what is in the closed interval that ends now. */
  lemma {:induction false} InWindowCounts(recent: seq<u64>, now: u64, window: u64)
    requires Rising(recent) && NotAfter(recent, now)
    ensures var r := InWindow(recent, now, window);
      && |r| == CountIn(recent, now - window, now) && |r| <= |recent| && r == recent[|recent| - |r|..]
      && forall i :: 0 <= i < |recent| - |r| ==> now - recent[i] > window
    decreases |recent|
  {
    if recent != [] {
      var more := recent[1..];
      if now - recent[0] > window {
        assert Rising(more) && NotAfter(more, now);
        InWindowCounts(more, now, window);
        forall i | 0 <= i < |recent| - |InWindow(recent, now, window)| ensures now - recent[i] > window {
          if i > 0 { assert recent[i] == more[i - 1]; }
        }
      } else {
        forall x <- recent ensures now - window <= x <= now {
          var i :| 0 <= i < |recent| && recent[i] == x;
        }
        CountGrows(recent, now - window, now, now - window, now);
      }
    }
  }

  // ---- runs ----

  /** The time of the account's last message. */
  function LastTime(inputs: seq<Input>, a: u32): u64 {
    if inputs == [] then 0
    else if From(inputs[|inputs| - 1], a) then Now(inputs[|inputs| - 1])
    else LastTime(inputs[..|inputs| - 1], a)
  }

  lemma {:induction false} LastIsOne(inputs: seq<Input>, a: u32)
    ensures LastTime(inputs, a) == 0 ||
      exists i :: 0 <= i < |inputs| && From(inputs[i], a) && LastTime(inputs, a) == Now(inputs[i])
  {
    hide From, Now;
    if inputs != [] { LastIsOne(inputs[..|inputs| - 1], a); }
  }

  /** `recent` is the passes from the `d`th on, and the earlier ones are out of the window. */
  ghost predicate Holds(recent: seq<u64>, times: seq<u64>, d: nat, last: u64, window: u64) {
    && d <= |times| && recent == times[d..]
    && (forall i :: 0 <= i < d ==> last - times[i] > window)
    && Rising(times) && NotAfter(times, last)
  }

  lemma {:induction false} WindowHolds(limits: Limits, start: System, inputs: seq<Input>, a: u32) returns (d: nat)
    requires ValidBooks(start.books) && Get(start.accounts, a).recent == [] && TimeForward(inputs, a)
    ensures Holds(Get(RunOf(limits, start, inputs).sys.accounts, a).recent, PassTimes(limits, start, inputs, a), d,
                  LastTime(inputs, a), limits.window)
    decreases |inputs|
  {
    hide Process, ValidBooks, Passes, InWindow, From, TimeForward, Sequenced;
    if inputs == [] {
      d := 0;
    } else {
      var before, input := inputs[..|inputs| - 1], inputs[|inputs| - 1];
      assert inputs == before + [input];
      TimeGoesOn(before, input, a);
      d := WindowHolds(limits, start, before, a);
      var sys := RunOf(limits, start, before).sys;
      RecentAfter(limits, sys, input, a);
      SequencedFrom(sys.nextSeq, input, a);
      var recent, times := Get(sys.accounts, a).recent, PassTimes(limits, start, before, a);
      if From(input, a) {
        d := WindowMoves(recent, times, d, LastTime(before, a), Now(input), limits.window,
                         Passes(limits, sys, input, a));
      } else {
        NotMine(limits, sys, input, a);
        assert times + [] == times;
      }
    }
  }

  lemma SequencedFrom(nextSeq: u64, input: Input, a: u32)
    ensures var sc := Sequenced(nextSeq, input); From(input, a) <==> sc.Some? && sc.value.cmd.account == a
  {}

  lemma NotMine(limits: Limits, sys: System, input: Input, a: u32)
    requires !From(input, a)
    ensures !Passes(limits, sys, input, a)
  {}

  lemma WindowMoves(recent: seq<u64>, times: seq<u64>, d: nat, last: u64, now: u64, window: u64, pass: bool)
    returns (d': nat)
    requires Holds(recent, times, d, last, window) && last <= now
    ensures var r := InWindow(recent, now, window);
      Holds(if pass then r + [now] else r, times + (if pass then [now] else []), d', now, window)
  {
    hide InWindow, CountIn;
    TailRises(times, d, last, now);
    InWindowCounts(recent, now, window);
    var r := InWindow(recent, now, window);
    d' := |times| - |r|;
    forall i | 0 <= i < d' ensures now - times[i] > window {
      if i >= d { assert times[i] == recent[i - d]; }
    }
    assert times[d'..] == r;
    if pass { assert (times + [now])[d'..] == r + [now]; } else { assert times + [] == times; }
  }

  lemma TailRises(times: seq<u64>, d: nat, last: u64, now: u64)
    requires d <= |times| && Rising(times) && NotAfter(times, last) && last <= now
    ensures Rising(times[d..]) && NotAfter(times[d..], now)
  {}

  /** A message is refused for its rate exactly when as many passed already, in the closed
      window that ends at its time, as the limit allows. */
  lemma RateLimitIsExact(limits: Limits, start: System, inputs: seq<Input>, input: Input, a: u32)
    requires ValidBooks(start.books) && Get(start.accounts, a).recent == []
    requires TimeForward(inputs + [input], a) && From(input, a)
    ensures Passes(limits, RunOf(limits, start, inputs).sys, input, a) <==>
      CountIn(PassTimes(limits, start, inputs, a), Now(input) - limits.window, Now(input)) < limits.maxMsgs
  {
    hide Process, ValidBooks, Passes, InWindow, RunOf, PassTimes, CountIn, Rising, NotAfter, Sequenced, From;
    TimeGoesOn(inputs, input, a);
    var d := WindowHolds(limits, start, inputs, a);
    var sys := RunOf(limits, start, inputs).sys;
    RecentAfter(limits, sys, input, a);
    SequencedFrom(sys.nextSeq, input, a);
    WindowCounts(Get(sys.accounts, a).recent, PassTimes(limits, start, inputs, a), d, LastTime(inputs, a), Now(input),
                 limits.window);
  }

  lemma TimeGoesOn(inputs: seq<Input>, input: Input, a: u32)
    requires TimeForward(inputs + [input], a)
    ensures TimeForward(inputs, a) && (From(input, a) ==> LastTime(inputs, a) <= Now(input))
  {
    hide From, Now;
    var all := inputs + [input];
    assert forall i :: 0 <= i < |inputs| ==> all[i] == inputs[i];
    LastIsOne(inputs, a);
    if From(input, a) && LastTime(inputs, a) != 0 {
      var i :| 0 <= i < |inputs| && From(inputs[i], a) && LastTime(inputs, a) == Now(inputs[i]);
      assert From(all[i], a) && From(all[|inputs|], a);
    }
  }

  lemma WindowCounts(recent: seq<u64>, times: seq<u64>, d: nat, last: u64, now: u64, window: u64)
    requires Holds(recent, times, d, last, window) && last <= now
    ensures |InWindow(recent, now, window)| == CountIn(times, now - window, now)
  {
    hide InWindow, CountIn;
    TailRises(times, d, last, now);
    InWindowCounts(recent, now, window);
    assert times == times[..d] + recent;
    CountJoins(times[..d], recent, now - window, now);
    forall x <- times[..d] ensures !(now - window <= x <= now) {
      var i :| 0 <= i < d && times[i] == x;
    }
    CountGrows(times[..d], now - window, now, now - window, now);
  }

  // ---- the bound, whatever the clock does ----

  /** How many passes lie in the closed window that starts at `lo`. */
  function Seen(limits: Limits, times: seq<u64>, lo: int): nat {
    CountIn(times, lo, lo + limits.window)
  }

  /** At most the limit pass in any closed window. */
  ghost predicate Bounded(limits: Limits, times: seq<u64>) {
    forall lo: int :: Seen(limits, times, lo) <= limits.maxMsgs
  }

  /** Some closed window with this time in it is full already. */
  ghost predicate FullAround(limits: Limits, times: seq<u64>, now: u64) {
    exists lo: int :: lo <= now <= lo + limits.window && Seen(limits, times, lo) >= limits.maxMsgs
  }

  lemma SeenMore(limits: Limits, times: seq<u64>, now: u64, lo: int)
    ensures Seen(limits, times + [now], lo)
      == Seen(limits, times, lo) + (if lo <= now <= lo + limits.window then 1 else 0)
  {
    CountJoins(times, [now], lo, lo + limits.window);
    CountOne(now, lo, lo + limits.window);
  }

  /** One more pass keeps the bound exactly when no window around it is full. */
  lemma PassKeepsBoundExactly(limits: Limits, times: seq<u64>, now: u64)
    ensures Bounded(limits, times + [now]) <==> Bounded(limits, times) && !FullAround(limits, times, now)
  {
    hide Seen;
    forall lo: int
      ensures Seen(limits, times + [now], lo)
        == Seen(limits, times, lo) + (if lo <= now <= lo + limits.window then 1 else 0)
    {
      SeenMore(limits, times, now, lo);
    }
    if Bounded(limits, times + [now]) {
      forall lo: int ensures Seen(limits, times, lo) <= limits.maxMsgs {
        assert Seen(limits, times + [now], lo) <= limits.maxMsgs;
      }
      forall lo: int | lo <= now <= lo + limits.window ensures Seen(limits, times, lo) < limits.maxMsgs {
        assert Seen(limits, times + [now], lo) <= limits.maxMsgs;
      }
    }
  }

  /** No message of the account passed while a window around its time was full. */
  ghost predicate NeverOverfull(limits: Limits, start: System, inputs: seq<Input>, a: u32)
    requires ValidBooks(start.books)
  {
    inputs == [] ||
    (var before, input := inputs[..|inputs| - 1], inputs[|inputs| - 1];
     && NeverOverfull(limits, start, before, a)
     && !(Passes(limits, RunOf(limits, start, before).sys, input, a)
          && FullAround(limits, PassTimes(limits, start, before, a), Now(input))))
  }

  /** Over any run, whatever the clock does, at most the limit of an account's messages pass in
      any closed window exactly when none passed while a window around its time was full. */
  lemma {:induction false} BoundedExactly(limits: Limits, start: System, inputs: seq<Input>, a: u32)
    requires ValidBooks(start.books)
    ensures Bounded(limits, PassTimes(limits, start, inputs, a)) <==> NeverOverfull(limits, start, inputs, a)
    decreases |inputs|
  {
    hide Process, ValidBooks, Passes, CountIn, FullAround, Bounded;
    if inputs == [] {
      NoneIsBounded(limits);
    } else {
      var before, input := inputs[..|inputs| - 1], inputs[|inputs| - 1];
      BoundedExactly(limits, start, before, a);
      var times := PassTimes(limits, start, before, a);
      PassKeepsBoundExactly(limits, times, Now(input));
      assert times + [] == times;
    }
  }

  lemma NoneIsBounded(limits: Limits)
    ensures Bounded(limits, [])
  {}

  /** While the times of an account's messages do not go back, none passes while a window around
      its time is full. */
  lemma {:induction false} ForwardIsNeverOverfull(limits: Limits, start: System, inputs: seq<Input>, a: u32)
    requires ValidBooks(start.books) && Get(start.accounts, a).recent == [] && TimeForward(inputs, a)
    ensures NeverOverfull(limits, start, inputs, a)
    decreases |inputs|
  {
    hide Process, ValidBooks, Passes, InWindow, CountIn, Sequenced, Holds, TimeForward, From, FullAround;
    if inputs != [] {
      var before, input := inputs[..|inputs| - 1], inputs[|inputs| - 1];
      assert inputs == before + [input];
      TimeGoesOn(before, input, a);
      ForwardIsNeverOverfull(limits, start, before, a);
      var sys, times, now := RunOf(limits, start, before).sys, PassTimes(limits, start, before, a), Now(input);
      if Passes(limits, sys, input, a) {
        PassIsMine(limits, sys, input, a);
        RateLimitIsExact(limits, start, before, input, a);
        var d := WindowHolds(limits, start, before, a);
        HeldNotAfter(times, d, LastTime(before, a), now, limits.window, Get(sys.accounts, a).recent);
        NotFull(limits, times, now);
      }
    }
  }

  /** With no pass after it, the fullest window around a time is the one that ends then. */
  lemma NotFull(limits: Limits, times: seq<u64>, now: u64)
    requires (forall x <- times :: x <= now) && CountIn(times, now - limits.window, now) < limits.maxMsgs
    ensures !FullAround(limits, times, now)
  {
    forall lo: int | lo <= now <= lo + limits.window ensures Seen(limits, times, lo) < limits.maxMsgs {
      CountGrows(times, lo, lo + limits.window, now - limits.window, now);
    }
    hide CountIn;
  }

  /** Over every run in which they do not, at most the limit of an account's messages pass in any
      closed window. */
  lemma RateIsBounded(limits: Limits, start: System, inputs: seq<Input>, a: u32)
    requires ValidBooks(start.books) && Get(start.accounts, a).recent == [] && TimeForward(inputs, a)
    ensures Bounded(limits, PassTimes(limits, start, inputs, a))
  {
    ForwardIsNeverOverfull(limits, start, inputs, a);
    BoundedExactly(limits, start, inputs, a);
  }

  lemma HeldNotAfter(times: seq<u64>, d: nat, last: u64, now: u64, window: u64, recent: seq<u64>)
    requires Holds(recent, times, d, last, window) && last <= now
    ensures forall x <- times :: x <= now
  {}

  lemma CountOne(x: u64, lo: int, hi: int)
    ensures CountIn([x], lo, hi) == if lo <= x <= hi then 1 else 0
  {}

  lemma PassIsMine(limits: Limits, sys: System, input: Input, a: u32)
    requires Passes(limits, sys, input, a)
    ensures From(input, a)
  {}
}
