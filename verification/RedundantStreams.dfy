/** Runs of a sender and a receiver joined by two streams, each of which carries the messages it accepted. */
module RedundantStreams {
  import opened Words
  import opened Receiver

  /** The messages reported as sent so far, those that each stream accepted, how far each stream has delivered its bytes,
      the receiving channel and the callbacks made. */
  datatype State = State(
    sent: seq<Message>,
    first: seq<Message>,
    second: seq<Message>,
    offset0: nat,
    offset1: nat,
    channel: Channel,
    delivered: seq<seq<byte>>)

  const INITIAL := State([], [], [], 0, 0, FRESH, [])

  /** A message is offered to both streams, each of which accepts it or not, and it counts as sent if one does; or one of
      the streams delivers its next bytes, cut into buffers in any way. */
  datatype Event = Send(m: Message, onFirst: bool, onSecond: bool) | Arrive(fromFirst: bool, bufs: seq<seq<byte>>)

  function Offset(s: State, onFirst: bool): nat {
    if onFirst then s.offset0 else s.offset1
  }

  function Accepted(s: State, onFirst: bool): seq<Message> {
    if onFirst then s.first else s.second
  }

  /** A stream delivers, at its own offset, bytes that it accepted. */
  ghost predicate Enabled(s: State, e: Event) {
    e.Arrive? ==>
      var stream := Frames(Accepted(s, e.fromFirst));
      var from := Offset(s, e.fromFirst);
      var to := from + |Concat(e.bufs)|;
      to <= |stream| && stream[from..to] == Concat(e.bufs)
  }

  function Next(s: State, e: Event): State {
    match e
    case Send(m, onFirst, onSecond) =>
      s.(sent := if onFirst || onSecond then s.sent + [m] else s.sent,
         first := if onFirst then s.first + [m] else s.first,
         second := if onSecond then s.second + [m] else s.second)
    case Arrive(fromFirst, bufs) =>
      var from := Offset(s, fromFirst);
      var o := Receive(s.channel, from, bufs);
      var s' := s.(channel := o.channel, delivered := s.delivered + o.messages);
      if fromFirst then s'.(offset0 := from + |Concat(bufs)|) else s'.(offset1 := from + |Concat(bufs)|)
  }

  ghost predicate IsRun(events: seq<Event>)
  {
    events == [] || (IsRun(events[..|events| - 1]) && Enabled(After(events[..|events| - 1]), events[|events| - 1]))
  }

  function After(events: seq<Event>): State {
    if events == [] then INITIAL else Next(After(events[..|events| - 1]), events[|events| - 1])
  }

  /** Each stream accepted a prefix of the messages sent: it stopped accepting for good, if at all. */
  ghost predicate Agree(s: State) {
    s.first <= s.sent && s.second <= s.sent
  }

  ghost predicate Inv(s: State) {
    && s.offset0 <= |Frames(s.first)| && s.offset1 <= |Frames(s.second)|
    && s.channel.next == Max(s.offset0, s.offset1) <= |Frames(s.sent)|
    && Follows(Frames(s.sent), s.channel, s.delivered)
  }

  /** Streams that agree have agreed all along. */
  lemma AgreedBefore(s: State, e: Event)
    requires Agree(Next(s, e)) && |s.first| <= |s.sent| && |s.second| <= |s.sent|
    ensures Agree(s)
  {
    var s' := Next(s, e);
    assert s.sent <= s'.sent && s.first <= s'.first && s.second <= s'.second;
    assert forall i :: 0 <= i < |s.first| ==> s.first[i] == s'.first[i] == s'.sent[i] == s.sent[i];
    assert forall i :: 0 <= i < |s.second| ==> s.second[i] == s'.second[i] == s'.sent[i] == s.sent[i];
  }

  lemma {:induction false} NoMoreThanSent(events: seq<Event>)
    ensures var s := After(events); |s.first| <= |s.sent| && |s.second| <= |s.sent|
  {
    if events != [] {
      NoMoreThanSent(events[..|events| - 1]);
    }
  }

  lemma SendKeepsInv(s: State, e: Event)
    requires Inv(s) && e.Send?
    ensures Inv(Next(s, e))
  {
    hide Drain, Frames;
    var s' := Next(s, e);
    FramesOfPrefix(s.first, s'.first);
    FramesOfPrefix(s.second, s'.second);
    FramesOfPrefix(s.sent, s'.sent);
    var n := s.channel.next;
    assert Frames(s'.sent)[..n] == Frames(s.sent)[..n];
  }

  /** An arrival keeps the invariant and is never answered by aborting: no gap is ever seen. */
  lemma ArriveKeepsInv(s: State, e: Event)
    requires Inv(s) && Agree(s) && e.Arrive? && Enabled(s, e)
    ensures Inv(Next(s, e))
    ensures Receive(s.channel, Offset(s, e.fromFirst), e.bufs).status == Continue
  {
    hide Drain, Frames, Follows, Concat, Consume;
    var from := Offset(s, e.fromFirst);
    FramesOfPrefix(Accepted(s, e.fromFirst), s.sent);
    if from + |Concat(e.bufs)| <= s.channel.next {
      assert s.delivered + [] == s.delivered;
    } else {
      FramesNeverOverrun(s.sent);
      ConsumeFollows(Frames(s.sent), s.channel, s.delivered, from, e.bufs);
    }
  }

  lemma {:induction false} RunKeepsInv(events: seq<Event>)
    requires IsRun(events) && Agree(After(events))
    ensures Inv(After(events))
  {
    if events == [] {
      assert Frames([]) == [];
      assert Inv(INITIAL);
    } else {
      var init, e := events[..|events| - 1], events[|events| - 1];
      NoMoreThanSent(init);
      AgreedBefore(After(init), e);
      RunKeepsInv(init);
      match e
      case Send(_, _, _) => SendKeepsInv(After(init), e);
      case Arrive(_, _) => ArriveKeepsInv(After(init), e);
    }
  }

  /** Exactly-once, in-order delivery over every run in which each stream accepted a prefix of the messages sent: however
      the streams are cut up and interleaved, the callbacks have received the first k messages sent, once each and in
      order, where k counts the frames complete within the furthest byte either stream has delivered; the rest of
      those bytes are kept for the next frame. */
  lemma DeliveryIsExact(events: seq<Event>) returns (k: nat)
    requires IsRun(events) && Agree(After(events))
    ensures var s := After(events);
            && k <= |s.sent| && s.delivered == s.sent[..k]
            && s.channel.next == Max(s.offset0, s.offset1) <= |Frames(s.sent)|
            && Frames(s.sent[..k]) + s.channel.buffer == Frames(s.sent)[..s.channel.next]
            && (if k == |s.sent| then s.channel.buffer == [] else |s.channel.buffer| < |Frame(s.sent[k])|)
  {
    hide Drain, Frames;
    var s := After(events);
    RunKeepsInv(events);
    k := DrainFrames(s.sent, s.channel.next);
  }

  /** The branch for a gap is unreachable: in such a run every arrival is answered by continuing. */
  lemma GapIsUnreachable(events: seq<Event>, e: Event)
    requires IsRun(events) && Agree(After(events)) && e.Arrive? && Enabled(After(events), e)
    ensures Receive(After(events).channel, Offset(After(events), e.fromFirst), e.bufs).status == Continue
  {
    RunKeepsInv(events);
    ArriveKeepsInv(After(events), e);
  }

  /** Once a stream that accepted every message has delivered everything, every message has been delivered. */
  lemma OneStreamSuffices(events: seq<Event>)
    requires IsRun(events) && Agree(After(events))
    requires var s := After(events); s.offset0 == |Frames(s.sent)| || s.offset1 == |Frames(s.sent)|
    ensures After(events).delivered == After(events).sent
  {
    var s := After(events);
    var k := DeliveryIsExact(events);
    RunKeepsInv(events);
    FramesOfPrefix(s.first, s.sent);
    FramesOfPrefix(s.second, s.sent);
    assert |Frames(s.sent[..k]) + s.channel.buffer| == |Frames(s.sent)|;
    if k < |s.sent| {
      RemainingFrames(s.sent, k);
    }
    assert s.sent[..|s.sent|] == s.sent;
  }

  // ---- The handler as written

  /** Every buffer of the arrival that brings new bytes ends within three bytes after a frame. */
  ghost predicate EndsNearFrames(s: State, e: Event) {
    e.Arrive? ==>
      || Offset(s, e.fromFirst) + |Concat(e.bufs)| <= s.channel.next
      || BuffersEndNearFrames(s.sent, s.channel.next, Offset(s, e.fromFirst), e.bufs)
  }

  /** The handler as written returns from the arrival. */
  ghost predicate Returns(s: State, e: Event) {
    e.Arrive? ==> exists rounds :: LiteralReceive(s.channel, Offset(s, e.fromFirst), e.bufs, rounds).Some?
  }

  lemma ArrivalReturnsExactlyWhen(s: State, e: Event)
    requires Inv(s) && Agree(s) && Enabled(s, e)
    ensures Returns(s, e) <==> EndsNearFrames(s, e)
    ensures e.Arrive? ==> forall rounds ::
              var from := Offset(s, e.fromFirst);
              LiteralReceive(s.channel, from, e.bufs, rounds).Some? ==>
                LiteralReceive(s.channel, from, e.bufs, rounds).value == Receive(s.channel, from, e.bufs)
  {
    hide Drain, Frames, Follows, Concat, Consume, LiteralConsume;
    if e.Arrive? {
      var from := Offset(s, e.fromFirst);
      if from + |Concat(e.bufs)| <= s.channel.next {
        assert LiteralReceive(s.channel, from, e.bufs, 0).Some?;
      } else {
        FramesOfPrefix(Accepted(s, e.fromFirst), s.sent);
        LiteralConsumeReturnsExactlyWhen(s.sent, s.channel, s.delivered, from, e.bufs);
        if rounds: nat :| LiteralConsume(s.channel, from, e.bufs, rounds).Some? {
          assert LiteralReceive(s.channel, from, e.bufs, rounds).Some?;
        }
        if rounds: nat :| LiteralReceive(s.channel, from, e.bufs, rounds).Some? {
          assert LiteralConsume(s.channel, from, e.bufs, rounds).Some?;
        }
        forall rounds: nat | LiteralReceive(s.channel, from, e.bufs, rounds).Some?
          ensures LiteralReceive(s.channel, from, e.bufs, rounds).value == Receive(s.channel, from, e.bufs)
        {
          LiteralConsumeAgrees(s.channel, from, e.bufs, rounds);
        }
      }
    }
  }

  lemma {:induction false} PrefixOfRun(events: seq<Event>, k: nat)
    requires IsRun(events) && Agree(After(events)) && k <= |events|
    ensures IsRun(events[..k]) && Agree(After(events[..k]))
    ensures k < |events| ==> Enabled(After(events[..k]), events[k])
  {
    hide Agree, Next, Enabled;
    if k == |events| {
      assert events[..k] == events;
    } else {
      var n := |events| - 1;
      NoMoreThanSent(events[..n]);
      AgreedBefore(After(events[..n]), events[n]);
      PrefixOfRun(events[..n], k);
      assert events[..n][..k] == events[..k];
    }
  }

  /** The drain loop as written survives a run exactly if, in every arrival, every buffer that brings new bytes ends within
      three bytes after a frame; and then it has done in every step what the run says. */
  lemma WrittenHandlerReturnsExactlyWhen(events: seq<Event>)
    requires IsRun(events) && Agree(After(events))
    ensures (forall k :: 0 <= k < |events| ==> Returns(After(events[..k]), events[k]))
       <==> (forall k :: 0 <= k < |events| ==> EndsNearFrames(After(events[..k]), events[k]))
    ensures forall k, rounds :: 0 <= k < |events| && events[k].Arrive? ==>
              var s, e := After(events[..k]), events[k];
              var literal := LiteralReceive(s.channel, Offset(s, e.fromFirst), e.bufs, rounds);
              literal.Some? ==> literal.value == Receive(s.channel, Offset(s, e.fromFirst), e.bufs)
  {
    hide Returns, EndsNearFrames, Agree, Inv, Enabled, After, IsRun, Receive, LiteralReceive;
    forall k | 0 <= k < |events|
      ensures Returns(After(events[..k]), events[k]) <==> EndsNearFrames(After(events[..k]), events[k])
      ensures events[k].Arrive? ==> forall rounds ::
                var s, e := After(events[..k]), events[k];
                var literal := LiteralReceive(s.channel, Offset(s, e.fromFirst), e.bufs, rounds);
                literal.Some? ==> literal.value == Receive(s.channel, Offset(s, e.fromFirst), e.bufs)
    {
      PrefixOfRun(events, k);
      RunKeepsInv(events[..k]);
      ArrivalReturnsExactlyWhen(After(events[..k]), events[k]);
    }
  }

  /** For example, it does not return from the first arrival if that stops in the middle of a payload. */
  lemma PartialArrivalHangs(m: Message, n: nat)
    requires 4 <= n < |Frame(m)|
    ensures var send, arrive := Send(m, true, true), Arrive(true, [Frame(m)[..n]]);
            IsRun([send, arrive]) && !Returns(After([send]), arrive)
  {
    hide Frame, Frames, LiteralLoop;
    var send, arrive := Send(m, true, true), Arrive(true, [Frame(m)[..n]]);
    var buf := Frame(m)[..n];
    assert [send, arrive][..1] == [send];
    SendsAreARun([send]);
    OneBuffer(buf);
    TwoFrames(m, m);
    assert After([send]) == State([m], [m], [m], 0, 0, FRESH, []) by {
      assert [send][..0] == [] && [] + [m] == [m];
    }
    assert Frames([m])[0..n] == buf;
    assert Enabled(After([send]), arrive);
    forall rounds: nat ensures LiteralReceive(FRESH, 0, [buf], rounds).None? {
      LiteralLoopHangsOnPartialFrame(m, n, rounds);
      assert [] + buf[0..] == buf;
    }
  }

  // ---- Streams that do not agree

  /** The sends among the events. */
  function SendsOf(events: seq<Event>): (sends: seq<Event>) {
    if events == [] then []
    else
      var init, e := events[..|events| - 1], events[|events| - 1];
      SendsOf(init) + if e.Send? then [e] else []
  }

  lemma {:induction false} SendsDecideAcceptance(events: seq<Event>)
    ensures var s, t := After(events), After(SendsOf(events));
            s.sent == t.sent && s.first == t.first && s.second == t.second
  {
    if events != [] {
      var init, e := events[..|events| - 1], events[|events| - 1];
      SendsDecideAcceptance(init);
      if e.Send? {
        assert SendsOf(events)[..|SendsOf(init)|] == SendsOf(init);
      } else {
        assert SendsOf(init) + [] == SendsOf(init);
      }
    }
  }

  lemma {:induction false} SendsAreARun(sends: seq<Event>)
    requires forall k :: 0 <= k < |sends| ==> sends[k].Send?
    ensures IsRun(sends) && SendsOf(sends) == sends
    ensures var s := After(sends); s.offset0 == s.offset1 == 0 && s.channel == FRESH && s.delivered == []
  {
    if sends != [] {
      SendsAreARun(sends[..|sends| - 1]);
    }
  }

  /** A stream that arrives whole and alone delivers the messages it accepted. */
  lemma AloneDeliversAccepted(ms: seq<Message>)
    requires ms != []
    ensures Receive(FRESH, 0, [Frames(ms)]).messages == ms
  {
    hide Drain, Frames, Frame, Consume;
    var all := Frames(ms);
    assert all != [] by { FramesOfPrefix(ms[..1], ms); OneFrame(ms[..1]); }
    OneBuffer(all);
    FramesNeverOverrun(ms);
    assert Follows(all, FRESH, []) by { FreshFollows(all); }
    assert all[0..0 + |all|] == all;
    ConsumeFollows(all, FRESH, [], 0, [all]);
    var o := Consume(FRESH, 0, [all]);
    assert [] + o.messages == o.messages;
    var k := DrainFrames(ms, |all|);
    assert |Frames(ms[..k]) + o.channel.buffer| == |all|;
    if k < |ms| {
      RemainingFrames(ms, k);
    }
    assert ms[..|ms|] == ms;
  }

  lemma OneBuffer(b: seq<byte>)
    ensures Concat([b]) == b
  {
    assert [b][1..] == [];
    assert b + [] == b;
  }

  lemma OneFrame(ms: seq<Message>)
    requires |ms| == 1
    ensures |Frames(ms)| >= 4
  {
  }

  lemma FreshFollows(stream: seq<byte>)
    ensures Follows(stream, FRESH, [])
  {
    assert stream[..0] == [];
    assert Drain([]) == Drained([], [], false) by { EmptyIsPartial(); }
  }

  lemma AloneDelivers(sends: seq<Event>, onFirst: bool) returns (events: seq<Event>)
    requires forall k :: 0 <= k < |sends| ==> sends[k].Send?
    requires Accepted(After(sends), onFirst) != []
    ensures IsRun(events) && SendsOf(events) == sends
    ensures After(events).delivered == Accepted(After(sends), onFirst) && After(events).sent == After(sends).sent
  {
    hide Receive, Frames;
    var s := After(sends);
    var all := Frames(Accepted(s, onFirst));
    var e := Arrive(onFirst, [all]);
    SendsAreARun(sends);
    AloneDeliversAccepted(Accepted(s, onFirst));
    OneBuffer(all);
    assert all[0..0 + |all|] == all;
    events := sends + [e];
    assert events[..|sends|] == sends;
    assert sends + [] == sends;
  }

  /** When sends that only some streams accept do harm: for any sequence of sends, every interleaving of what the two
      streams then carry has delivered a prefix of the messages sent if and only if each stream accepted a prefix of
      them. A stream that misses only the last messages is harmless; one that accepts a message after a miss is not. */
  lemma PrefixDeliveredExactlyWhen(sends: seq<Event>)
    requires forall k :: 0 <= k < |sends| ==> sends[k].Send?
    ensures Agree(After(sends)) <==>
            forall events :: IsRun(events) && SendsOf(events) == sends ==> After(events).delivered <= After(events).sent
  {
    hide IsRun, After, SendsOf, Receive;
    if Agree(After(sends)) {
      forall events | IsRun(events) && SendsOf(events) == sends
        ensures After(events).delivered <= After(events).sent
      {
        SendsDecideAcceptance(events);
        var k := DeliveryIsExact(events);
      }
    } else {
      var onFirst := !(After(sends).first <= After(sends).sent);
      var events := AloneDelivers(sends, onFirst);
    }
  }

  /** For example, the second stream misses the first message and arrives first: the merged channel loses that message and
      delivers the other one twice. */
  lemma DivergedStreamsGoWrong(m1: Message, m2: Message) returns (events: seq<Event>)
    requires |m1| == |m2|
    ensures IsRun(events) && SendsOf(events) == [Send(m1, true, false), Send(m2, true, true)]
    ensures After(events).sent == [m1, m2] && After(events).delivered == [m2, m2]
  {
    hide Frame, Receive, Frames;
    var n := |Frame(m1)|;
    var sends := [Send(m1, true, false), Send(m2, true, true)];
    var e1, e2 := Arrive(false, [Frame(m2)]), Arrive(true, [Frame(m1) + Frame(m2)]);
    TwoFrames(m1, m2);
    OneBuffer(Frame(m2));
    OneBuffer(Frame(m1) + Frame(m2));
    assert sends[..1][..0] == [] && sends[..1] == [sends[0]];
    SendsAreARun(sends);
    var s := After(sends);
    assert s.sent == [m1, m2] && s.first == [m1, m2] && s.second == [m2];
    assert Frames(s.second)[0..n] == Frame(m2);
    assert Frame(m2)[0..] == Frame(m2);
    ReceiveOneFrame(FRESH, Frame(m2), m2);
    assert (sends + [e1])[..2] == sends;
    assert Frames(s.first)[0..2 * n] == Frame(m1) + Frame(m2);
    assert (Frame(m1) + Frame(m2))[n..] == Frame(m2);
    ReceiveOneFrame(Channel([], n), Frame(m1) + Frame(m2), m2);
    events := sends + [e1, e2];
    assert events[..3] == sends + [e1];
    assert sends + [] + [] == sends;
  }

  lemma TwoFrames(m1: Message, m2: Message)
    ensures Frames([m2]) == Frame(m2) && Frames([m1, m2]) == Frame(m1) + Frame(m2)
  {
    hide Frame;
    assert [m2][1..] == [] && [m1, m2][1..] == [m2];
    assert Frame(m2) + [] == Frame(m2);
  }

  lemma ReceiveOneFrame(channel: Channel, buf: seq<byte>, m: Message)
    requires channel.buffer == [] && channel.next < |buf| && buf[channel.next..] == Frame(m)
    ensures Receive(channel, 0, [buf]) == Outcome(Channel([], |buf|), [m], Continue)
  {
    hide Frame, Drain;
    assert [buf][1..] == [];
    assert Concat([buf]) == buf + Concat([]) == buf;
    assert [] + Frame(m) == Frame(m);
    FrameAlone(m);
    assert Consume(Channel([], |buf|), |buf|, []) == Outcome(Channel([], |buf|), [], Continue);
  }

  lemma FrameAlone(m: Message)
    ensures Drain(Frame(m)) == Drained([m], [], false)
  {
    hide Frame;
    DrainFrame(m, []);
    assert Frame(m) + [] == Frame(m);
    assert Drain([]) == Drained([], [], false) by { EmptyIsPartial(); }
  }
}
