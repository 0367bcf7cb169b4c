/** The reliable channel: framing on the sending side, and the receiver that merges two redundant streams, each
    carrying the same framed bytes, into one sequence of messages. */
module Receiver {
  import opened Words
  import opened Modular
  import opened Bytes

  /** The largest payload ReliablePacketSend accepts. */
  const MAX_PAYLOAD := 65512

  type Message = m: seq<byte> | |m| <= 65512 witness []

  /** A buffer as sent: the payload's length in network byte order, then the payload. */
  function Frame(m: Message): (f: seq<byte>)
    ensures |f| == 4 + |m|
  {
    ToBE(|m|, 4) + m
  }

  function Frames(ms: seq<Message>): seq<byte> {
    if ms == [] then [] else Frame(ms[0]) + Frames(ms[1..])
  }

  // ---- Draining the receive buffer

  /** The length field at the front of the buffer. */
  function PayloadLength(vec: seq<byte>): u32
    requires |vec| >= 4
  {
    FromBEBound(vec[..4]);
    assert Pow(256, 2) == 65536;
    PowAdd(256, 2, 2);
    FromBE(vec[..4])
  }

  /** The code's test for a complete frame; its sum of the length field and 4 is 32 bits wide. */
  predicate Complete(vec: seq<byte>) {
    |vec| >= 4 && |vec| >= (PayloadLength(vec) + 4) % TWO_32
  }

  /** The result of draining: the messages handed to the callback, the bytes kept, and whether a wrapped length sent
      the code past the end of the buffer. */
  datatype Drained = Drained(messages: seq<seq<byte>>, rest: seq<byte>, overrun: bool)

  /** Draining stops at a partial frame. */
  function Drain(vec: seq<byte>): Drained
    decreases |vec|
  {
    if !Complete(vec) then
      Drained([], vec, false)
    else if 4 + PayloadLength(vec) > |vec| then
      Drained([], vec, true)
    else
      var end := 4 + PayloadLength(vec);
      var d := Drain(vec[end..]);
      Drained([vec[4..end]] + d.messages, d.rest, d.overrun)
  }

  /** The loop as written: while four bytes are there it goes round again, whether or not a frame was complete. None is
      a loop that has not ended after the given number of rounds. */
  function LiteralLoop(vec: seq<byte>, rounds: nat): Option<Drained>
    decreases rounds
  {
    if |vec| < 4 then
      Some(Drained([], vec, false))
    else if rounds == 0 then
      None
    else if !Complete(vec) then
      LiteralLoop(vec, rounds - 1)
    else if 4 + PayloadLength(vec) > |vec| then
      Some(Drained([], vec, true))
    else
      var end := 4 + PayloadLength(vec);
      match LiteralLoop(vec[end..], rounds - 1)
      case None => None
      case Some(d) => Some(Drained([vec[4..end]] + d.messages, d.rest, d.overrun))
  }

  lemma {:induction false} LiteralLoopAgrees(vec: seq<byte>, rounds: nat)
    ensures LiteralLoop(vec, rounds).Some? ==> LiteralLoop(vec, rounds).value == Drain(vec)
    ensures LiteralLoop(vec, rounds).Some? ==> |Drain(vec).rest| < 4 || Drain(vec).overrun
    decreases rounds
  {
    if |vec| >= 4 && rounds > 0 {
      if !Complete(vec) {
        LiteralLoopAgrees(vec, rounds - 1);
      } else if 4 + PayloadLength(vec) <= |vec| {
        LiteralLoopAgrees(vec[4 + PayloadLength(vec)..], rounds - 1);
      }
    }
  }

  lemma {:induction false} LiteralLoopEnds(vec: seq<byte>, rounds: nat)
    requires |Drain(vec).rest| < 4 || Drain(vec).overrun
    requires rounds >= |vec|
    ensures LiteralLoop(vec, rounds).Some?
    decreases |vec|
  {
    if |vec| >= 4 && Complete(vec) && 4 + PayloadLength(vec) <= |vec| {
      LiteralLoopEnds(vec[4 + PayloadLength(vec)..], rounds - 1);
    }
  }

  /** The loop as written ends exactly when draining leaves fewer than four bytes (or the length field wraps), and then
      it has done what draining does. */
  lemma LiteralLoopEndsExactlyWhen(vec: seq<byte>)
    ensures (exists rounds :: LiteralLoop(vec, rounds).Some?) <==> |Drain(vec).rest| < 4 || Drain(vec).overrun
    ensures forall rounds :: LiteralLoop(vec, rounds).Some? ==> LiteralLoop(vec, rounds).value == Drain(vec)
  {
    forall rounds: nat | LiteralLoop(vec, rounds).Some?
      ensures LiteralLoop(vec, rounds).value == Drain(vec)
      ensures |Drain(vec).rest| < 4 || Drain(vec).overrun
    {
      LiteralLoopAgrees(vec, rounds);
    }
    if |Drain(vec).rest| < 4 || Drain(vec).overrun {
      LiteralLoopEnds(vec, |vec|);
    }
  }

  lemma CompleteConcat(a: seq<byte>, b: seq<byte>)
    requires Complete(a) && 4 + PayloadLength(a) <= |a|
    ensures |a + b| >= 4 && PayloadLength(a + b) == PayloadLength(a) && Complete(a + b)
    ensures var end := 4 + PayloadLength(a);
            (a + b)[4..end] == a[4..end] && (a + b)[end..] == a[end..] + b
  {
    hide FromBE;
    assert (a + b)[..4] == a[..4];
  }

  /** Draining can be interrupted anywhere: the bytes kept stand for the bytes seen. */
  lemma {:induction false} DrainConcat(a: seq<byte>, b: seq<byte>)
    requires !Drain(a).overrun
    ensures var d := Drain(a);
            var e := Drain(d.rest + b);
            Drain(a + b) == Drained(d.messages + e.messages, e.rest, e.overrun)
    decreases |a|
  {
    hide PayloadLength, Complete;
    if Complete(a) {
      var end := 4 + PayloadLength(a);
      CompleteConcat(a, b);
      DrainConcat(a[end..], b);
      var d, e := Drain(a[end..]), Drain(Drain(a[end..]).rest + b);
      assert [a[4..end]] + (d.messages + e.messages) == ([a[4..end]] + d.messages) + e.messages;
    } else {
      assert [] + Drain(a + b).messages == Drain(a + b).messages;
    }
  }

  // ---- Draining framed messages

  lemma FrameHeader(m: Message, tail: seq<byte>)
    ensures var vec := Frame(m) + tail;
            |vec| >= 4 && PayloadLength(vec) == |m| && vec[4..4 + |m|] == m && vec[4 + |m|..] == tail
  {
    var vec := Frame(m) + tail;
    assert vec[..4] == ToBE(|m|, 4);
    assert Pow(256, 2) == 65536;
    PowAdd(256, 2, 2);
    BERoundTrip(|m|, 4);
  }

  /** The first k messages are those whose frames are complete within the first n bytes, and what draining keeps is
      exactly what has arrived of the next frame. */
  ghost predicate Parsed(ms: seq<Message>, n: nat, k: nat, d: Drained)
    requires n <= |Frames(ms)|
  {
    && k <= |ms|
    && !d.overrun
    && d.messages == ms[..k]
    && Frames(ms[..k]) + d.rest == Frames(ms)[..n]
    && (if k == |ms| then d.rest == [] else |d.rest| < |Frame(ms[k])|)
  }

  lemma {:induction false} DrainFrames(ms: seq<Message>, n: nat) returns (k: nat)
    requires n <= |Frames(ms)|
    ensures Parsed(ms, n, k, Drain(Frames(ms)[..n]))
    decreases |ms|
  {
    hide PayloadLength, Complete, Frame;
    k := 0;
    if ms == [] {
      EmptyIsPartial();
    } else {
      var m, tail := ms[0], Frames(ms[1..]);
      var f := |Frame(m)|;
      if n >= f {
        assert Frames(ms)[..n] == Frame(m) + tail[..n - f];
        DrainFrame(m, tail[..n - f]);
        var j := DrainFrames(ms[1..], n - f);
        k := j + 1;
        ParsedOneMore(ms, n - f, j, Drain(tail[..n - f]));
      } else {
        PartialFrame(m, tail, n);
      }
    }
  }

  lemma ParsedOneMore(ms: seq<Message>, n: nat, j: nat, d: Drained)
    requires ms != [] && n <= |Frames(ms[1..])| && Parsed(ms[1..], n, j, d)
    ensures |Frame(ms[0])| + n <= |Frames(ms)|
    ensures Parsed(ms, |Frame(ms[0])| + n, j + 1, Drained([ms[0]] + d.messages, d.rest, d.overrun))
  {
    hide Frame, Frames;
    var m, rest, f := ms[0], ms[1..], Frame(ms[0]);
    assert ms == [m] + rest;
    FramesCons(m, rest);
    assert Frames(ms)[..|f| + n] == f + Frames(rest)[..n];
    assert ms[..j + 1] == [m] + rest[..j];
    FramesCons(m, rest[..j]);
    assert f + Frames(rest[..j]) + d.rest == f + (Frames(rest[..j]) + d.rest);
  }

  lemma FramesCons(m: Message, ms: seq<Message>)
    ensures Frames([m] + ms) == Frame(m) + Frames(ms)
  {
    assert ([m] + ms)[1..] == ms;
  }

  lemma EmptyIsPartial()
    ensures !Complete([])
  {
  }

  lemma DrainFrame(m: Message, tail: seq<byte>)
    ensures var d := Drain(tail);
            Drain(Frame(m) + tail) == Drained([m] + d.messages, d.rest, d.overrun)
  {
    hide FromBE, PayloadLength;
    FrameHeader(m, tail);
  }

  lemma PartialFrame(m: Message, tail: seq<byte>, n: nat)
    requires n < |Frame(m)|
    ensures var vec := (Frame(m) + tail)[..n]; !Complete(vec)
  {
    var vec := (Frame(m) + tail)[..n];
    if n >= 4 {
      FrameHeader(m, tail);
      assert vec[..4] == (Frame(m) + tail)[..4];
    }
  }

  lemma FramesNeverOverrun(ms: seq<Message>)
    ensures forall n :: 0 <= n <= |Frames(ms)| ==> !Drain(Frames(ms)[..n]).overrun
  {
    hide Drain, Frames;
    forall n | 0 <= n <= |Frames(ms)| ensures !Drain(Frames(ms)[..n]).overrun {
      var k := DrainFrames(ms, n);
    }
  }

  /** A prefix of the messages is framed as a prefix of the bytes. */
  lemma {:induction false} FramesOfPrefix(a: seq<Message>, b: seq<Message>)
    requires a <= b
    ensures Frames(a) <= Frames(b)
  {
    hide Frame;
    if a != [] {
      FramesOfPrefix(a[1..], b[1..]);
    }
  }

  lemma {:induction false} RemainingFrames(ms: seq<Message>, k: nat)
    requires k < |ms|
    ensures |Frames(ms[..k])| + |Frame(ms[k])| <= |Frames(ms)|
  {
    if k == 0 {
      assert ms[..0] == [];
    } else {
      RemainingFrames(ms[1..], k - 1);
      assert ms[..k][1..] == ms[1..][..k - 1];
    }
  }

  // ---- The loop as written, on framed messages

  /** At most three bytes after a frame: what a loop that needs four bytes for a length field can leave over. */
  ghost predicate EndsNearFrame(ms: seq<Message>, n: nat) {
    exists k: nat :: k <= |ms| && |Frames(ms[..k])| <= n < |Frames(ms[..k])| + 4
  }

  lemma RestIsShortExactlyNearFrame(ms: seq<Message>, n: nat)
    requires n <= |Frames(ms)|
    ensures |Drain(Frames(ms)[..n]).rest| < 4 <==> EndsNearFrame(ms, n)
  {
    hide Drain, Frames, Frame;
    var d := Drain(Frames(ms)[..n]);
    var k := DrainFrames(ms, n);
    assert |Frames(ms[..k])| + |d.rest| == n by { assert |Frames(ms[..k]) + d.rest| == n; }
    if j: nat :| j <= |ms| && |Frames(ms[..j])| <= n < |Frames(ms[..j])| + 4 {
      if j <= k {
        FramesOfPrefix(ms[..j], ms[..k]);
      } else {
        RemainingFrames(ms[..j], k);
        assert ms[..j][..k] == ms[..k];
      }
    }
  }

  /** On what has arrived of framed messages, the loop as written ends exactly if that stops within three bytes after a
      frame. */
  lemma LiteralLoopEndsNearFrames(ms: seq<Message>, n: nat)
    requires n <= |Frames(ms)|
    ensures (exists rounds :: LiteralLoop(Frames(ms)[..n], rounds).Some?) <==> EndsNearFrame(ms, n)
  {
    hide Drain, Frames, LiteralLoop, EndsNearFrame;
    LiteralLoopEndsExactlyWhen(Frames(ms)[..n]);
    FramesNeverOverrun(ms);
    RestIsShortExactlyNearFrame(ms, n);
  }

  /** For example, it never ends on a frame of which the length field has arrived but not the whole payload. */
  lemma LiteralLoopHangsOnPartialFrame(m: Message, n: nat, rounds: nat)
    requires 4 <= n < |Frame(m)|
    ensures LiteralLoop(Frame(m)[..n], rounds).None?
  {
    hide Frame;
    assert Frame(m)[..n] == (Frame(m) + [])[..n];
    PartialFrame(m, [], n);
    assert !Complete(Frame(m)[..n]) && |Frame(m)[..n]| == n;
    HangsUnlessComplete(Frame(m)[..n], rounds);
  }

  lemma {:induction false} HangsUnlessComplete(vec: seq<byte>, rounds: nat)
    requires |vec| >= 4 && !Complete(vec)
    ensures LiteralLoop(vec, rounds).None?
  {
    if rounds > 0 {
      HangsUnlessComplete(vec, rounds - 1);
    }
  }

  // ---- The receive handler

  /** A reliable channel's receiving state: Buffer and NextRecvByte. */
  datatype Channel = Channel(buffer: seq<byte>, next: nat)

  const FRESH := Channel([], 0)

  datatype Status = Continue | Aborted | Overrun

  datatype Outcome = Outcome(channel: Channel, messages: seq<seq<byte>>, status: Status)

  function Concat(bufs: seq<seq<byte>>): seq<byte> {
    if bufs == [] then [] else bufs[0] + Concat(bufs[1..])
  }

  /** The loop over the received buffers. */
  function Consume(channel: Channel, nowoff: nat, bufs: seq<seq<byte>>): Outcome
    decreases |bufs|
  {
    if bufs == [] then
      Outcome(channel, [], Continue)
    else
      var end := nowoff + |bufs[0]|;
      if channel.next < nowoff then
        Outcome(FRESH, [], Aborted)
      else if end <= channel.next then
        Consume(channel, end, bufs[1..])
      else
        var d := Drain(channel.buffer + bufs[0][channel.next - nowoff..]);
        if d.overrun then
          Outcome(Channel(d.rest, end), d.messages, Overrun)
        else
          var o := Consume(Channel(d.rest, end), end, bufs[1..]);
          Outcome(o.channel, d.messages + o.messages, o.status)
  }

  /** The handler: an event that ends at or before the next wanted byte is dropped whole. */
  function Receive(channel: Channel, absoff: nat, bufs: seq<seq<byte>>): Outcome {
    if absoff + |Concat(bufs)| <= channel.next then
      Outcome(channel, [], Continue)
    else
      Consume(channel, absoff, bufs)
  }

  /** The channel has seen exactly the first channel.next bytes of the stream and handed out what they hold. */
  ghost predicate Follows(stream: seq<byte>, channel: Channel, delivered: seq<seq<byte>>) {
    && channel.next <= |stream|
    && Drain(stream[..channel.next]) == Drained(delivered, channel.buffer, false)
  }

  /** A buffer that begins at or before the next wanted byte and ends after it extends what the channel has seen. */
  lemma BufferFollows(
      stream: seq<byte>, channel: Channel, delivered: seq<seq<byte>>, nowoff: nat, buf: seq<byte>)
    requires Follows(stream, channel, delivered)
    requires nowoff <= channel.next < nowoff + |buf| <= |stream|
    requires stream[nowoff..nowoff + |buf|] == buf
    requires !Drain(stream[..nowoff + |buf|]).overrun
    ensures var d := Drain(channel.buffer + buf[channel.next - nowoff..]);
            && !d.overrun
            && Follows(stream, Channel(d.rest, nowoff + |buf|), delivered + d.messages)
  {
    hide Drain;
    var newer := buf[channel.next - nowoff..];
    assert stream[..nowoff + |buf|] == stream[..channel.next] + newer;
    DrainConcat(stream[..channel.next], newer);
  }

  /** The first buffer of an event, and the rest of them, as parts of the stream. */
  lemma FirstBuffer(stream: seq<byte>, nowoff: nat, bufs: seq<seq<byte>>)
    requires bufs != [] && nowoff + |Concat(bufs)| <= |stream|
    requires stream[nowoff..nowoff + |Concat(bufs)|] == Concat(bufs)
    ensures var end := nowoff + |bufs[0]|;
            && end + |Concat(bufs[1..])| == nowoff + |Concat(bufs)|
            && stream[nowoff..end] == bufs[0]
            && stream[end..end + |Concat(bufs[1..])|] == Concat(bufs[1..])
  {
    var b, end := bufs[0], nowoff + |bufs[0]|;
    assert stream[nowoff..end] == Concat(bufs)[..|b|];
    assert stream[end..end + |Concat(bufs[1..])|] == Concat(bufs)[|b|..];
  }

  /** A stream's event at or before the next wanted byte moves the channel to the furthest byte seen; the branch for a
      gap is not taken. */
  lemma {:induction false} ConsumeFollows(
      stream: seq<byte>, channel: Channel, delivered: seq<seq<byte>>, nowoff: nat, bufs: seq<seq<byte>>)
    requires Follows(stream, channel, delivered)
    requires forall n :: 0 <= n <= |stream| ==> !Drain(stream[..n]).overrun
    requires nowoff <= channel.next
    requires nowoff + |Concat(bufs)| <= |stream|
    requires stream[nowoff..nowoff + |Concat(bufs)|] == Concat(bufs)
    ensures var o := Consume(channel, nowoff, bufs);
            && o.status == Continue
            && o.channel.next == Max(channel.next, nowoff + |Concat(bufs)|)
            && Follows(stream, o.channel, delivered + o.messages)
    decreases |bufs|
  {
    hide Drain, Follows;
    if bufs == [] {
      assert delivered + [] == delivered;
    } else {
      var b, end := bufs[0], nowoff + |bufs[0]|;
      FirstBuffer(stream, nowoff, bufs);
      if end <= channel.next {
        ConsumeFollows(stream, channel, delivered, end, bufs[1..]);
      } else {
        BufferFollows(stream, channel, delivered, nowoff, b);
        var d := Drain(channel.buffer + b[channel.next - nowoff..]);
        ConsumeFollows(stream, Channel(d.rest, end), delivered + d.messages, end, bufs[1..]);
        var o := Consume(Channel(d.rest, end), end, bufs[1..]);
        assert delivered + d.messages + o.messages == delivered + (d.messages + o.messages);
      }
    }
  }

  /** A frame is the payload's length, four bytes with the most significant first, and the payload. */
  lemma FrameLayout(m: Message)
    ensures Frame(m) == [0, |m| / 0x1_0000, |m| / 0x100 % 0x100, |m| % 0x100] + m
  {
    hide ToBE;
    BigEndianDigits(|m|, 4, 0);
    BigEndianDigits(|m|, 4, 1);
    BigEndianDigits(|m|, 4, 2);
    BigEndianDigits(|m|, 4, 3);
    assert Pow(256, 0) == 1 && Pow(256, 1) == 256;
    PowAdd(256, 1, 1);
    PowAdd(256, 1, 2);
    var b := ToBE(|m|, 4);
    assert b == [b[0], b[1], b[2], b[3]];
  }

  lemma {:induction false} NoGapWithin(channel: Channel, nowoff: nat, bufs: seq<seq<byte>>)
    requires nowoff <= channel.next
    ensures Consume(channel, nowoff, bufs).status != Aborted
    decreases |bufs|
  {
    hide Drain;
    if bufs != [] {
      var end := nowoff + |bufs[0]|;
      if end <= channel.next {
        NoGapWithin(channel, end, bufs[1..]);
      } else {
        var d := Drain(channel.buffer + bufs[0][channel.next - nowoff..]);
        NoGapWithin(Channel(d.rest, end), end, bufs[1..]);
      }
    }
  }

  /** The handler aborts exactly on an event that begins after the next wanted byte, and has then forgotten everything and
      called nobody; within an event it never finds a gap. */
  lemma AbortsExactlyAtAGap(channel: Channel, absoff: nat, bufs: seq<seq<byte>>)
    ensures Receive(channel, absoff, bufs).status == Aborted <==> bufs != [] && channel.next < absoff
    ensures bufs != [] && channel.next < absoff ==>
              Receive(channel, absoff, bufs) == Outcome(Channel([], 0), [], Aborted)
  {
    if absoff <= channel.next {
      NoGapWithin(channel, absoff, bufs);
    }
  }

  /** The test for a complete frame passes on a shorter buffer exactly for a length field whose sum with 4 wraps. */
  lemma OverrunsExactlyWhenLengthWraps(vec: seq<byte>)
    requires |vec| >= 4 && PayloadLength(vec) + 4 > |vec|
    ensures Complete(vec) <==> PayloadLength(vec) + 4 >= 0x1_0000_0000 && |vec| >= PayloadLength(vec) + 4 - 0x1_0000_0000
    ensures Drain(vec).overrun <==> Complete(vec)
    ensures Drain(vec).messages == [] && Drain(vec).rest == vec
  {
    hide PayloadLength, FromBE;
  }

  // ---- The handler as written

  /** The loop over the received buffers around the drain loop as written. None is a handler that has not returned with
      the given number of rounds for each drain loop. */
  function LiteralConsume(channel: Channel, nowoff: nat, bufs: seq<seq<byte>>, rounds: nat): Option<Outcome>
    decreases |bufs|
  {
    if bufs == [] then
      Some(Outcome(channel, [], Continue))
    else
      var end := nowoff + |bufs[0]|;
      if channel.next < nowoff then
        Some(Outcome(FRESH, [], Aborted))
      else if end <= channel.next then
        LiteralConsume(channel, end, bufs[1..], rounds)
      else
        match LiteralLoop(channel.buffer + bufs[0][channel.next - nowoff..], rounds)
        case None => None
        case Some(d) =>
          if d.overrun then
            Some(Outcome(Channel(d.rest, end), d.messages, Overrun))
          else
            match LiteralConsume(Channel(d.rest, end), end, bufs[1..], rounds)
            case None => None
            case Some(o) => Some(Outcome(o.channel, d.messages + o.messages, o.status))
  }

  function LiteralReceive(channel: Channel, absoff: nat, bufs: seq<seq<byte>>, rounds: nat): Option<Outcome> {
    if absoff + |Concat(bufs)| <= channel.next then
      Some(Outcome(channel, [], Continue))
    else
      LiteralConsume(channel, absoff, bufs, rounds)
  }

  /** Every buffer that brings bytes from next on ends within three bytes after a frame. */
  ghost predicate BuffersEndNearFrames(ms: seq<Message>, next: nat, nowoff: nat, bufs: seq<seq<byte>>)
    decreases |bufs|
  {
    bufs == [] ||
    (var end := nowoff + |bufs[0]|;
     (end > next ==> EndsNearFrame(ms, end)) && BuffersEndNearFrames(ms, Max(next, end), end, bufs[1..]))
  }

  lemma {:induction false} MoreRounds(vec: seq<byte>, rounds: nat, more: nat)
    requires LiteralLoop(vec, rounds).Some? && rounds <= more
    ensures LiteralLoop(vec, more) == LiteralLoop(vec, rounds)
    decreases rounds
  {
    if |vec| >= 4 && rounds > 0 {
      if !Complete(vec) {
        MoreRounds(vec, rounds - 1, more - 1);
      } else if 4 + PayloadLength(vec) <= |vec| {
        MoreRounds(vec[4 + PayloadLength(vec)..], rounds - 1, more - 1);
      }
    }
  }

  /** The handler as written does what the one that stops at partial frames does, if it returns. */
  lemma {:induction false} LiteralConsumeAgrees(channel: Channel, nowoff: nat, bufs: seq<seq<byte>>, rounds: nat)
    requires LiteralConsume(channel, nowoff, bufs, rounds).Some?
    ensures LiteralConsume(channel, nowoff, bufs, rounds).value == Consume(channel, nowoff, bufs)
    decreases |bufs|
  {
    hide Drain, LiteralLoop;
    if bufs != [] && channel.next >= nowoff {
      var end := nowoff + |bufs[0]|;
      if end <= channel.next {
        LiteralConsumeAgrees(channel, end, bufs[1..], rounds);
      } else {
        var vec := channel.buffer + bufs[0][channel.next - nowoff..];
        LiteralLoopAgrees(vec, rounds);
        var d := Drain(vec);
        if !d.overrun {
          LiteralConsumeAgrees(Channel(d.rest, end), end, bufs[1..], rounds);
        }
      }
    }
  }

  lemma {:induction false} ConsumeMoreRounds(
      channel: Channel, nowoff: nat, bufs: seq<seq<byte>>, rounds: nat, more: nat)
    requires LiteralConsume(channel, nowoff, bufs, rounds).Some? && rounds <= more
    ensures LiteralConsume(channel, nowoff, bufs, more).Some?
    decreases |bufs|
  {
    hide LiteralLoop;
    if bufs != [] && channel.next >= nowoff {
      var end := nowoff + |bufs[0]|;
      if end <= channel.next {
        ConsumeMoreRounds(channel, end, bufs[1..], rounds, more);
      } else {
        var vec := channel.buffer + bufs[0][channel.next - nowoff..];
        MoreRounds(vec, rounds, more);
        var d := LiteralLoop(vec, rounds).value;
        if !d.overrun {
          ConsumeMoreRounds(Channel(d.rest, end), end, bufs[1..], rounds, more);
        }
      }
    }
  }

  ghost predicate ConsumeReturns(channel: Channel, nowoff: nat, bufs: seq<seq<byte>>) {
    exists rounds :: LiteralConsume(channel, nowoff, bufs, rounds).Some?
  }

  /** One round of the loop over the buffers, with a buffer that brings new bytes. */
  lemma NewBufferRound(channel: Channel, nowoff: nat, bufs: seq<seq<byte>>, rounds: nat)
    requires bufs != [] && nowoff <= channel.next < nowoff + |bufs[0]|
    requires !Drain(channel.buffer + bufs[0][channel.next - nowoff..]).overrun
    ensures var vec, end := channel.buffer + bufs[0][channel.next - nowoff..], nowoff + |bufs[0]|;
            LiteralConsume(channel, nowoff, bufs, rounds).Some? <==>
              && LiteralLoop(vec, rounds).Some?
              && LiteralConsume(Channel(Drain(vec).rest, end), end, bufs[1..], rounds).Some?
  {
    hide Drain, LiteralLoop;
    LiteralLoopAgrees(channel.buffer + bufs[0][channel.next - nowoff..], rounds);
  }

  /** The loop over the buffers returns if the drain loop does and the rest of the buffers do. */
  lemma NewBufferReturns(channel: Channel, nowoff: nat, bufs: seq<seq<byte>>)
    requires bufs != [] && nowoff <= channel.next < nowoff + |bufs[0]|
    requires !Drain(channel.buffer + bufs[0][channel.next - nowoff..]).overrun
    ensures var d, end := Drain(channel.buffer + bufs[0][channel.next - nowoff..]), nowoff + |bufs[0]|;
            ConsumeReturns(channel, nowoff, bufs) <==>
              |d.rest| < 4 && ConsumeReturns(Channel(d.rest, end), end, bufs[1..])
  {
    hide Drain, LiteralLoop, LiteralConsume;
    var vec, end := channel.buffer + bufs[0][channel.next - nowoff..], nowoff + |bufs[0]|;
    var d := Drain(vec);
    LiteralLoopEndsExactlyWhen(vec);
    if rounds: nat :| LiteralConsume(channel, nowoff, bufs, rounds).Some? {
      NewBufferRound(channel, nowoff, bufs, rounds);
    }
    if |d.rest| < 4 && ConsumeReturns(Channel(d.rest, end), end, bufs[1..]) {
      var r1: nat :| LiteralLoop(vec, r1).Some?;
      var r2: nat :| LiteralConsume(Channel(d.rest, end), end, bufs[1..], r2).Some?;
      var more := Max(r1, r2);
      MoreRounds(vec, r1, more);
      ConsumeMoreRounds(Channel(d.rest, end), end, bufs[1..], r2, more);
      NewBufferRound(channel, nowoff, bufs, more);
    }
  }

  lemma OldBufferReturns(channel: Channel, nowoff: nat, bufs: seq<seq<byte>>)
    requires bufs != [] && nowoff <= channel.next && nowoff + |bufs[0]| <= channel.next
    ensures ConsumeReturns(channel, nowoff, bufs) <==> ConsumeReturns(channel, nowoff + |bufs[0]|, bufs[1..])
  {
    hide LiteralLoop;
    var end := nowoff + |bufs[0]|;
    if rounds: nat :| LiteralConsume(channel, nowoff, bufs, rounds).Some? {
      assert LiteralConsume(channel, end, bufs[1..], rounds).Some?;
    }
    if rounds: nat :| LiteralConsume(channel, end, bufs[1..], rounds).Some? {
      assert LiteralConsume(channel, nowoff, bufs, rounds).Some?;
    }
  }

  /** What is left over of a new buffer is what draining the stream up to its end leaves. */
  lemma NewBufferRest(ms: seq<Message>, channel: Channel, delivered: seq<seq<byte>>, nowoff: nat, buf: seq<byte>)
    requires Follows(Frames(ms), channel, delivered)
    requires nowoff <= channel.next < nowoff + |buf| <= |Frames(ms)|
    requires Frames(ms)[nowoff..nowoff + |buf|] == buf
    ensures var d, end := Drain(channel.buffer + buf[channel.next - nowoff..]), nowoff + |buf|;
            && !d.overrun
            && Follows(Frames(ms), Channel(d.rest, end), delivered + d.messages)
            && (|d.rest| < 4 <==> EndsNearFrame(ms, end))
  {
    hide Drain, EndsNearFrame, Frames;
    FramesNeverOverrun(ms);
    BufferFollows(Frames(ms), channel, delivered, nowoff, buf);
    RestIsShortExactlyNearFrame(ms, nowoff + |buf|);
  }

  /** The handler as written returns from a stream's event exactly if every buffer that brings new bytes ends within three
      bytes after a frame. */
  lemma {:induction false} LiteralConsumeReturnsExactlyWhen(
      ms: seq<Message>, channel: Channel, delivered: seq<seq<byte>>, nowoff: nat, bufs: seq<seq<byte>>)
    requires Follows(Frames(ms), channel, delivered)
    requires nowoff <= channel.next
    requires nowoff + |Concat(bufs)| <= |Frames(ms)|
    requires Frames(ms)[nowoff..nowoff + |Concat(bufs)|] == Concat(bufs)
    ensures ConsumeReturns(channel, nowoff, bufs) <==> BuffersEndNearFrames(ms, channel.next, nowoff, bufs)
    decreases |bufs|
  {
    hide Drain, Frames, Follows, EndsNearFrame, Concat, ConsumeReturns;
    if bufs == [] {
      NoBuffersReturn(channel, nowoff, bufs);
    } else {
      var end := nowoff + |bufs[0]|;
      FirstBuffer(Frames(ms), nowoff, bufs);
      if end <= channel.next {
        OldBufferReturns(channel, nowoff, bufs);
        LiteralConsumeReturnsExactlyWhen(ms, channel, delivered, end, bufs[1..]);
      } else {
        NewBufferRest(ms, channel, delivered, nowoff, bufs[0]);
        NewBufferReturns(channel, nowoff, bufs);
        var d := Drain(channel.buffer + bufs[0][channel.next - nowoff..]);
        LiteralConsumeReturnsExactlyWhen(ms, Channel(d.rest, end), delivered + d.messages, end, bufs[1..]);
      }
    }
  }

  lemma NoBuffersReturn(channel: Channel, nowoff: nat, bufs: seq<seq<byte>>)
    requires bufs == []
    ensures ConsumeReturns(channel, nowoff, bufs)
  {
    assert LiteralConsume(channel, nowoff, bufs, 0).Some?;
  }

  function Max(a: nat, b: nat): nat {
    if a >= b then a else b
  }
}
