/** A subscriber on an unreliable feed: frames lost, repeated, reordered or damaged. */
module FeedDelivery {
  import opened Types
  import opened Books
  import opened Replica
  import opened Commands
  import opened Risk
  import opened ExchangeSpec
  import opened Runs
  import opened MarketData
  import opened Layout

  datatype Subscriber = Subscriber(books: Books, expected: u64)

  /** `apply_frame`: a frame out of turn or damaged changes nothing; an event that cannot be
      applied is reported, and counted all the same. */
  function Receive(s: Subscriber, frame: Bytes): (r: Subscriber)
    requires ValidBooks(s.books)
    ensures ValidBooks(r.books)
  {
    match DecodeEvent(frame, Some(s.expected))
    case Event(ev) =>
      FeedBooksKeeps(s.books, ev);
      Subscriber(FeedBooks(s.books, ev).GetOr(s.books), Inc64(s.expected))
    case BadFrame => s
    case Gap(_, _) => s
  }

  /** A frame laid out for the event of the number waited for is counted, and its event applied if
      it can be; any other frame changes nothing. */
  lemma ReceivesExactly(s: Subscriber, frame: Bytes)
    requires ValidBooks(s.books)
    ensures forall ev: MdEvent {:trigger EventLaidOut(frame, ev)} ::
      EventLaidOut(frame, ev) && ev.seqNo == s.expected ==>
      && Receive(s, frame).expected == (s.expected + 1) % W64
      && Receive(s, frame).books == (if FeedBooks(s.books, ev).Some? then FeedBooks(s.books, ev).value else s.books)
    ensures (forall ev: MdEvent {:trigger EventLaidOut(frame, ev)} ::
               EventLaidOut(frame, ev) ==> ev.seqNo != s.expected) ==> Receive(s, frame) == s
  {
    hide FeedBooks, ParseEvent, ValidBooks, EventLaidOut;
    forall ev: MdEvent {:trigger EventLaidOut(frame, ev)}
      ensures ParseEvent(frame) == Some(ev) <==> EventLaidOut(frame, ev)
    {
      ParsesAsLaidOut(frame, ev);
    }
    if ParseEvent(frame).Some? { assert EventLaidOut(frame, ParseEvent(frame).value); }
  }

  function ReceiveAll(s: Subscriber, frames: seq<Bytes>): (r: Subscriber)
    requires ValidBooks(s.books)
    ensures ValidBooks(r.books)
  {
    if frames == [] then s else Receive(ReceiveAll(s, frames[..|frames| - 1]), frames[|frames| - 1])
  }

  /** The events carry the numbers the subscriber waits for, before the counter wraps. */
  ghost predicate Numbers(s: Subscriber, evs: seq<MdEvent>) {
    s.expected + |evs| < W64 && forall i :: 0 <= i < |evs| ==> evs[i].seqNo == s.expected + i
  }

  /** Whatever parses was sent. */
  ghost predicate Sent(frame: Bytes, evs: seq<MdEvent>) {
    ParseEvent(frame).Some? ==> ParseEvent(frame).value in evs
  }

  /** The subscriber has applied the first `k` events and nothing else. */
  ghost predicate Applied(s: Subscriber, evs: seq<MdEvent>, k: nat, now: Subscriber)
    requires ValidBooks(s.books) && ValidBooks(now.books)
  {
    k <= |evs| && now.expected == s.expected + k && FeedAll(s.books, evs[..k]) == Some(now.books)
  }

  lemma TakesNext(s: Subscriber, evs: seq<MdEvent>, k: nat, now: Subscriber, frame: Bytes) returns (k': nat)
    requires ValidBooks(s.books) && ValidBooks(now.books) && Numbers(s, evs) && FeedAll(s.books, evs).Some?
    requires Applied(s, evs, k, now) && Sent(frame, evs)
    ensures Applied(s, evs, k', Receive(now, frame))
    ensures k' == if k < |evs| && ParseEvent(frame) == Some(evs[k]) then k + 1 else k
  {
    hide FeedBooks, ParseEvent, ValidBooks, FeedAll;
    k' := k;
    var d := DecodeEvent(frame, Some(now.expected));
    if d.Event? {
      var i :| 0 <= i < |evs| && evs[i] == d.ev;
      assert i == k;
      k' := k + 1;
      AppliesOne(s.books, evs, k, now.books);
    }
  }

  /** One more event of a run that can be applied as a whole. */
  lemma AppliesOne(m: Books, evs: seq<MdEvent>, k: nat, now: Books)
    requires ValidBooks(m) && ValidBooks(now) && k < |evs| && FeedAll(m, evs).Some? && FeedAll(m, evs[..k]) == Some(now)
    ensures FeedBooks(now, evs[k]).Some? && FeedAll(m, evs[..k + 1]) == FeedBooks(now, evs[k])
  {
    hide FeedBooks, ValidBooks, FeedAll;
    var next, rest := [evs[k]], evs[k + 1..];
    assert evs == evs[..k] + (next + rest) && evs[..k + 1] == evs[..k] + next;
    FeedAllJoins(m, evs[..k], next + rest);
    FeedAllJoins(m, evs[..k], next);
    FeedAllJoins(now, next, rest);
    FeedAllOne(now, evs[k]);
  }

  /** Whatever arrives, in whatever order and however often, the subscriber holds the result
      of the events before the one it expects, applied once each and in order. */
  lemma {:induction false} AppliesInOrder(s: Subscriber, evs: seq<MdEvent>, frames: seq<Bytes>) returns (k: nat)
    requires ValidBooks(s.books) && Numbers(s, evs) && FeedAll(s.books, evs).Some?
    requires forall frame <- frames :: Sent(frame, evs)
    ensures Applied(s, evs, k, ReceiveAll(s, frames))
    decreases |frames|
  {
    hide FeedBooks, ParseEvent, ValidBooks, Sent, Receive;
    if frames == [] {
      k := 0;
      assert evs[..0] == [];
    } else {
      var before, frame := frames[..|frames| - 1], frames[|frames| - 1];
      k := AppliesInOrder(s, evs, before);
      k := TakesNext(s, evs, k, ReceiveAll(s, before), frame);
    }
  }

  function FramesOf(evs: seq<MdEvent>): seq<Bytes> {
    seq(|evs|, i requires 0 <= i < |evs| => EventFrame(evs[i]))
  }

  lemma SentFrame(evs: seq<MdEvent>, i: nat)
    requires i < |evs|
    ensures ParseEvent(EventFrame(evs[i])) == Some(evs[i]) && Sent(EventFrame(evs[i]), evs)
  {
    DecodeOfEncode(evs[i], None);
  }

  /** Sending everything again, in order, catches a subscriber up from any state it may be in. */
  lemma {:induction false} CatchesUp(s: Subscriber, evs: seq<MdEvent>, frames: seq<Bytes>, n: nat) returns (k: nat)
    requires ValidBooks(s.books) && Numbers(s, evs) && FeedAll(s.books, evs).Some? && n <= |evs|
    requires forall frame <- frames :: Sent(frame, evs)
    ensures n <= k && Applied(s, evs, k, ReceiveAll(s, frames + FramesOf(evs[..n])))
    decreases n
  {
    hide FeedBooks, ParseEvent, ValidBooks, Sent, Receive, EventFrame, FeedAll;
    if n == 0 {
      assert frames + FramesOf(evs[..0]) == frames;
      k := AppliesInOrder(s, evs, frames);
    } else {
      k := CatchesUp(s, evs, frames, n - 1);
      var all, before, frame := frames + FramesOf(evs[..n]), frames + FramesOf(evs[..n - 1]), EventFrame(evs[n - 1]);
      assert all == before + [frame];
      SentFrame(evs, n - 1);
      assert all[..|all| - 1] == before && all[|all| - 1] == frame;
      k := TakesNext(s, evs, k, ReceiveAll(s, before), frame);
    }
  }

  // ---- the feed of an exchange ----

  /** A frame of the feed as sent, or with one byte changed. */
  ghost predicate FromFeed(frame: Bytes, evs: seq<MdEvent>) {
    exists i: nat ::
      i < |evs| && (frame == EventFrame(evs[i]) || OneByteOff(EventFrame(evs[i]), frame))
  }

  ghost predicate OneByteOff(frame: Bytes, bad: Bytes) {
    exists j: nat, b: u8 {:trigger frame[j := b]} :: j < |frame| && frame[j] != b && bad == frame[j := b]
  }

  lemma DamagedIsUnsent(frame: Bytes, evs: seq<MdEvent>)
    requires FromFeed(frame, evs)
    ensures Sent(frame, evs)
  {
    hide EventFrame, ParseEvent;
    var i: nat :| i < |evs| && (frame == EventFrame(evs[i]) || OneByteOff(EventFrame(evs[i]), frame));
    if frame == EventFrame(evs[i]) {
      SentFrame(evs, i);
    } else {
      var sent := EventFrame(evs[i]);
      var j: nat, b: u8 :| j < |sent| && sent[j] != b && frame == sent[j := b];
      OneByteRefused(evs[i], j, b, None);
    }
  }

  /** A subscriber on the feed of any exchange run, with frames lost, repeated, reordered and
      damaged in a byte: its books are always those of the events before the one it expects;
      when it expects none of the run's events any more, they are the engine's. */
  lemma FeedSurvives(limits: Limits, start: System, s: Subscriber, inputs: seq<Input>, frames: seq<Bytes>)
    returns (k: nat)
    requires Tracks(start.books, s.books) && Avoids(limits, start, inputs, {Clash, Loss})
    requires s.expected == start.nextMd && s.expected + |RunOf(limits, start, inputs).events| < W64
    requires forall frame <- frames :: FromFeed(frame, RunOf(limits, start, inputs).events)
    ensures var run, now := RunOf(limits, start, inputs), ReceiveAll(s, frames);
      && k <= |run.events| && now.expected == s.expected + k
      && FeedAll(s.books, run.events[..k]) == Some(now.books)
      && (k == |run.events| ==> now.books.books == run.sys.books.books && IndexAgrees(now.books))
  {
    hide RunOf, Avoids, FromFeed, EventFrame, ValidBooks, FeedAll, ReceiveAll, IndexAgrees;
    var run := RunOf(limits, start, inputs);
    TracksValid(start.books, s.books);
    EventsAreNumbered(limits, start, inputs);
    ReplicaFollows(limits, start, s.books, inputs);
    forall frame <- frames ensures Sent(frame, run.events) {
      DamagedIsUnsent(frame, run.events);
    }
    NumbersFit(s, run.events, start.nextMd);
    k := AppliesInOrder(s, run.events, frames);
    if k == |run.events| { assert run.events[..k] == run.events; }
  }

  lemma NumbersFit(s: Subscriber, evs: seq<MdEvent>, first: u64)
    requires s.expected == first && first + |evs| < W64
    requires forall i :: 0 <= i < |evs| ==> evs[i].seqNo == (first + i) % W64
    ensures Numbers(s, evs)
  {}

  /** After any such delivery, one complete retransmission leaves the subscriber with the
      engine's books. */
  lemma RetransmissionRepairs(limits: Limits, start: System, s: Subscriber, inputs: seq<Input>, frames: seq<Bytes>)
    requires Tracks(start.books, s.books) && Avoids(limits, start, inputs, {Clash, Loss})
    requires s.expected == start.nextMd && s.expected + |RunOf(limits, start, inputs).events| < W64
    requires forall frame <- frames :: FromFeed(frame, RunOf(limits, start, inputs).events)
    ensures var run := RunOf(limits, start, inputs);
      ReceiveAll(s, frames + FramesOf(run.events)).books.books == run.sys.books.books
  {
    hide RunOf, Avoids, FromFeed, EventFrame, ValidBooks, FeedAll, ReceiveAll, IndexAgrees;
    var run := RunOf(limits, start, inputs);
    TracksValid(start.books, s.books);
    EventsAreNumbered(limits, start, inputs);
    ReplicaFollows(limits, start, s.books, inputs);
    forall frame <- frames ensures Sent(frame, run.events) {
      DamagedIsUnsent(frame, run.events);
    }
    NumbersFit(s, run.events, start.nextMd);
    var k := CatchesUp(s, run.events, frames, |run.events|);
    assert run.events[..|run.events|] == run.events;
  }
}
