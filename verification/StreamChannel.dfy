/** The receive handler as the program runs it: fields updated in place, buffer by buffer and frame by frame. */
module StreamChannel {
  import opened Words
  import opened Receiver

  class StreamChannel {
    var Buffer: seq<byte>
    var NextRecvByte: nat
    /** The payloads handed to the user's callback so far. */
    var delivered: seq<seq<byte>>

    function View(): Channel
      reads this
    {
      Channel(Buffer, NextRecvByte)
    }

    constructor ()
      ensures View() == FRESH && delivered == []
    {
      Buffer, NextRecvByte, delivered := [], 0, [];
    }

    method Reset()
      modifies this
      ensures View() == FRESH && delivered == old(delivered)
    {
      Buffer := [];
      NextRecvByte := 0;
    }

    /** Calls the user back for every complete frame, stopping at a partial one. */
    method DrainBuffer() returns (overrun: bool)
      modifies this
      ensures var d := Drain(old(Buffer));
              && Buffer == d.rest && delivered == old(delivered) + d.messages && overrun == d.overrun
      ensures NextRecvByte == old(NextRecvByte)
    {
      hide PayloadLength, Complete;
      ghost var before := Buffer;
      ghost var calls: seq<seq<byte>> := [];
      while Complete(Buffer)
        invariant delivered == old(delivered) + calls && NextRecvByte == old(NextRecvByte)
        invariant var d := Drain(Buffer);
                  Drain(before) == Drained(calls + d.messages, d.rest, d.overrun)
        decreases |Buffer|
      {
        CompleteHasHeader(Buffer);
        var end := 4 + PayloadLength(Buffer);
        if end > |Buffer| {
          return true;
        }
        var msg := Buffer[4..end];
        ghost var d := Drain(Buffer[end..]);
        assert calls + ([msg] + d.messages) == (calls + [msg]) + d.messages;
        delivered := delivered + [msg];
        calls := calls + [msg];
        Buffer := Buffer[end..];
      }
      overrun := false;
    }

    lemma CompleteHasHeader(vec: seq<byte>)
      requires Complete(vec)
      ensures |vec| >= 4
    {
    }

    /** Reads the wanted bytes of a buffer that begins at or before them and ends after them. */
    method ReadBuffer(buf: seq<byte>, bufBeginOffset: nat) returns (overrun: bool)
      requires bufBeginOffset <= NextRecvByte < bufBeginOffset + |buf|
      modifies this
      ensures var d := Drain(old(Buffer) + buf[old(NextRecvByte) - bufBeginOffset..]);
              && View() == Channel(d.rest, bufBeginOffset + |buf|)
              && delivered == old(delivered) + d.messages && overrun == d.overrun
    {
      hide Drain;
      Buffer := Buffer + buf[NextRecvByte - bufBeginOffset..];
      NextRecvByte := bufBeginOffset + |buf|;
      overrun := DrainBuffer();
    }

    /** The handler of a RECEIVE event. */
    method HandleReceive(absoff: nat, bufs: seq<seq<byte>>) returns (status: Status)
      modifies this
      ensures var o := Receive(old(View()), absoff, bufs);
              && View() == o.channel && delivered == old(delivered) + o.messages && status == o.status
    {
      if absoff + |Concat(bufs)| <= NextRecvByte {
        return Continue;
      }
      status := ConsumeBuffers(absoff, bufs);
    }

    /** Its loop over the buffers. */
    method ConsumeBuffers(absoff: nat, bufs: seq<seq<byte>>) returns (status: Status)
      modifies this
      ensures var o := Consume(old(View()), absoff, bufs);
              && View() == o.channel && delivered == old(delivered) + o.messages && status == o.status
    {
      hide Drain, Consume, Prefixed;
      var nowoff: nat := absoff;
      ghost var result := Consume(View(), absoff, bufs);
      ghost var calls: seq<seq<byte>> := [];
      PrefixedByNone(result);
      assert bufs[0..] == bufs;
      for i := 0 to |bufs|
        invariant delivered == old(delivered) + calls
        invariant Prefixed(calls, Consume(View(), nowoff, bufs[i..])) == result
      {
        assert bufs[i..][1..] == bufs[i + 1..];
        ConsumeFirst(View(), nowoff, bufs[i..]);
        var bufBeginOffset, bufEndOffset := nowoff, nowoff + |bufs[i]|;
        nowoff := bufEndOffset;
        if NextRecvByte < bufBeginOffset {
          PrefixedOutcome(calls, FRESH, [], Aborted);
          Reset();
          return Aborted;
        }
        if bufEndOffset > NextRecvByte {
          ghost var d := Drain(Buffer + bufs[i][NextRecvByte - bufBeginOffset..]);
          var overrun := ReadBuffer(bufs[i], bufBeginOffset);
          if overrun {
            PrefixedOutcome(calls, View(), d.messages, Overrun);
            return Overrun;
          }
          PrefixedTwice(calls, d.messages, Consume(View(), nowoff, bufs[i + 1..]));
          calls := calls + d.messages;
        }
      }
      assert bufs[|bufs|..] == [];
      NothingToConsume(View(), nowoff);
      PrefixedOutcome(calls, View(), [], Continue);
      status := Continue;
    }
  }

  /** An outcome preceded by some callbacks. */
  ghost function Prefixed(calls: seq<seq<byte>>, o: Outcome): Outcome {
    o.(messages := calls + o.messages)
  }

  lemma PrefixedByNone(o: Outcome)
    ensures Prefixed([], o) == o
  {
  }

  lemma PrefixedOutcome(calls: seq<seq<byte>>, channel: Channel, messages: seq<seq<byte>>, status: Status)
    ensures Prefixed(calls, Outcome(channel, messages, status)) == Outcome(channel, calls + messages, status)
  {
  }

  /** What the loop does with the first of its buffers. */
  lemma ConsumeFirst(channel: Channel, nowoff: nat, bufs: seq<seq<byte>>)
    requires bufs != []
    ensures var end := nowoff + |bufs[0]|;
            if channel.next < nowoff then Consume(channel, nowoff, bufs) == Outcome(FRESH, [], Aborted)
            else if end <= channel.next then Consume(channel, nowoff, bufs) == Consume(channel, end, bufs[1..])
            else
              var d := Drain(channel.buffer + bufs[0][channel.next - nowoff..]);
              if d.overrun then Consume(channel, nowoff, bufs) == Outcome(Channel(d.rest, end), d.messages, Overrun)
              else Consume(channel, nowoff, bufs)
                   == Prefixed(d.messages, Consume(Channel(d.rest, end), end, bufs[1..]))
  {
    hide Drain;
  }

  lemma NothingToConsume(channel: Channel, nowoff: nat)
    ensures Consume(channel, nowoff, []) == Outcome(channel, [], Continue)
  {
  }

  lemma PrefixedTwice(a: seq<seq<byte>>, b: seq<seq<byte>>, o: Outcome)
    ensures Prefixed(a, Prefixed(b, o)) == Prefixed(a + b, o)
  {
    assert a + (b + o.messages) == (a + b) + o.messages;
  }
}
