/** The life of a send buffer shared by the sends on two streams: a reference count that racing completions bring down,
    and a sender that frees the buffer itself when no stream took it. */
module SendBuffer {
  import opened Words
  import opened Modular
  import opened Bytes
  import opened Receiver

  // ---- What is sent

  /** The bytes of the buffer that MakeBuffer fills and ReliablePacketSend completes: the 32-bit length in network order
      and the data, whose size the allocation truncates to 16 bits. */
  function BufferBytes(data: seq<byte>): seq<byte> {
    ToBE(|data| % TWO_32, 4) + data[..|data| % TWO_16]
  }

  /** What the sender's checks let through is sent as one well-formed frame. */
  lemma AcceptedDataIsFramed(data: seq<byte>)
    requires |data| <= 65512
    ensures BufferBytes(data) == Frame(data)
  {
    hide ToBE;
    assert data[..|data|] == data;
  }

  // ---- The protocol

  /** How many of the two streams are open, and the progress of the sender and of the completions. RefCount is a 32-bit
      counter; frees counts how often the buffer has been freed. */
  datatype State = State(
    streams: nat,
    retained: nat,
    issued: nat,
    accepted: nat,
    completed: nat,
    refCount: u32,
    frees: nat,
    returned: bool)

  function Initial(streams: nat): State {
    State(streams, 0, 0, 0, 0, 0, 0, false)
  }

  /** The sender's first loop, its second loop, its return, and the completion of an accepted send at any time. */
  datatype Event = Retain | Issue(accepted: bool) | Return | Complete

  /** The 32-bit counter, wrapping both ways. */
  function Increment(count: u32): u32 {
    if count == TWO_32 - 1 then 0 else count + 1
  }

  function Decrement(count: u32): u32 {
    if count == 0 then TWO_32 - 1 else count - 1
  }

  /** The counters are 32 bits wide. */
  lemma CountersWrap(count: u32)
    ensures Increment(count) == (count + 1) % 0x1_0000_0000 && Decrement(count) == (count - 1) % 0x1_0000_0000
  {
  }

  predicate Enabled(s: State, e: Event) {
    match e
    case Retain => s.retained < s.streams
    case Issue(_) => s.retained == s.streams && s.issued < s.streams
    case Return => s.retained == s.streams && s.issued == s.streams && !s.returned
    case Complete => s.completed < s.accepted
  }

  function Next(s: State, e: Event): State {
    match e
    case Retain => s.(retained := s.retained + 1, refCount := Increment(s.refCount))
    case Issue(ok) => s.(issued := s.issued + 1, accepted := if ok then s.accepted + 1 else s.accepted)
    case Return => s.(returned := true, frees := if s.accepted == 0 then s.frees + 1 else s.frees)
    case Complete =>
      var count := Decrement(s.refCount);
      s.(completed := s.completed + 1, refCount := count, frees := if count == 0 then s.frees + 1 else s.frees)
  }

  function After(streams: nat, events: seq<Event>): State {
    if events == [] then Initial(streams) else Next(After(streams, events[..|events| - 1]), events[|events| - 1])
  }

  predicate IsRun(streams: nat, events: seq<Event>) {
    events == [] ||
    (IsRun(streams, events[..|events| - 1]) && Enabled(After(streams, events[..|events| - 1]), events[|events| - 1]))
  }

  predicate Inv(s: State) {
    && s.completed <= s.accepted <= s.issued <= s.retained <= s.streams < TWO_32
    && (s.issued > 0 || s.returned ==> s.retained == s.streams)
    && (s.returned ==> s.issued == s.streams)
    && s.refCount == s.retained - s.completed
    && s.frees == (if s.streams > 0 && s.completed == s.streams then 1 else 0)
                + (if s.returned && s.accepted == 0 then 1 else 0)
  }

  lemma StepKeepsInv(s: State, e: Event)
    requires Inv(s) && Enabled(s, e)
    ensures Inv(Next(s, e)) && Next(s, e).streams == s.streams
  {
  }

  lemma {:induction false} RunKeepsInv(streams: nat, events: seq<Event>)
    requires streams < TWO_32 && IsRun(streams, events)
    ensures Inv(After(streams, events)) && After(streams, events).streams == streams
  {
    hide Inv, Enabled, Next;
    if events != [] {
      var init := events[..|events| - 1];
      RunKeepsInv(streams, init);
      StepKeepsInv(After(streams, init), events[|events| - 1]);
    } else {
      InitialInv(streams);
    }
  }

  lemma InitialInv(streams: nat)
    requires streams < TWO_32
    ensures Inv(Initial(streams))
  {
  }

  /** A step that reads or writes the buffer. */
  predicate Touches(e: Event) {
    !e.Return?
  }

  /** Under every interleaving the buffer is freed at most once, and once it is freed nothing touches it again: no send
      is still to be issued and none is outstanding. */
  lemma NeverFreedEarlyOrTwice(streams: nat, events: seq<Event>)
    requires streams < TWO_32 && IsRun(streams, events)
    ensures var s := After(streams, events);
            && s.frees <= 1
            && (s.frees == 1 ==> s.issued == s.streams && s.completed == s.accepted)
            && (s.frees == 1 ==> forall e :: Touches(e) ==> !Enabled(s, e))
  {
    RunKeepsInv(streams, events);
  }

  /** When the sender has returned and every accepted send has completed, the buffer has been freed exactly if the
      streams agreed: all took it or none did. A buffer that only some took is never freed. */
  lemma FreedExactlyWhenStreamsAgree(streams: nat, events: seq<Event>)
    requires streams < TWO_32 && IsRun(streams, events)
    requires var s := After(streams, events); s.returned && s.completed == s.accepted
    ensures var s := After(streams, events); s.frees == 1 <==> s.accepted == s.streams || s.accepted == 0
  {
    RunKeepsInv(streams, events);
  }

  lemma RunStarts(streams: nat)
    ensures IsRun(streams, []) && After(streams, []) == Initial(streams)
  {
  }

  lemma RunExtends(streams: nat, events: seq<Event>, e: Event)
    requires IsRun(streams, events) && Enabled(After(streams, events), e)
    ensures IsRun(streams, events + [e]) && After(streams, events + [e]) == Next(After(streams, events), e)
  {
    assert (events + [e])[..|events|] == events;
  }

  ghost function StepsLeft(s: State): int {
    3 * s.streams + 1 - s.retained - s.issued - s.completed - (if s.returned then 1 else 0)
  }

  lemma NextMove(s: State) returns (e: Event)
    requires Inv(s) && !(s.returned && s.completed == s.accepted)
    ensures Enabled(s, e) && 0 <= StepsLeft(Next(s, e)) < StepsLeft(s)
  {
    e := if s.retained < s.streams then Retain else if s.issued < s.streams then Issue(true)
         else if !s.returned then Return else Complete;
  }

  /** From every reachable state the sender and the completions can finish. */
  lemma {:induction false} EveryRunCanFinish(streams: nat, events: seq<Event>) returns (more: seq<Event>)
    requires streams < TWO_32 && IsRun(streams, events)
    ensures IsRun(streams, events + more)
    ensures var s := After(streams, events + more); s.returned && s.completed == s.accepted
    decreases StepsLeft(After(streams, events))
  {
    hide Inv, Enabled, Next, IsRun, After, StepsLeft;
    RunKeepsInv(streams, events);
    var s := After(streams, events);
    if s.returned && s.completed == s.accepted {
      more := [];
      assert events + [] == events;
    } else {
      var e := NextMove(s);
      RunExtends(streams, events, e);
      var rest := EveryRunCanFinish(streams, events + [e]);
      more := [e] + rest;
      assert events + more == events + [e] + rest;
    }
  }

  // ---- Why the sender counts every stream before it sends on any

  /** The sender that counts each stream only just before its own send. */
  predicate EagerlyEnabled(s: State, e: Event) {
    match e
    case Retain => s.retained == s.issued < s.streams
    case Issue(_) => s.issued < s.retained
    case Return => s.issued == s.streams && !s.returned
    case Complete => s.completed < s.accepted
  }

  predicate IsEagerRun(streams: nat, events: seq<Event>) {
    events == [] ||
    (IsEagerRun(streams, events[..|events| - 1])
     && EagerlyEnabled(After(streams, events[..|events| - 1]), events[|events| - 1]))
  }

  /** The buffer has been freed and something is still to touch it. */
  ghost predicate TouchedAfterFree(streams: nat, events: seq<Event>) {
    var s := After(streams, events);
    s.frees > 0 && exists e :: Touches(e) && EagerlyEnabled(s, e)
  }

  /** With one stream there is no difference. */
  lemma {:induction false} OneStreamIsTheSame(streams: nat, events: seq<Event>)
    requires streams <= 1 && IsEagerRun(streams, events)
    ensures IsRun(streams, events)
  {
    hide Next;
    if events != [] {
      OneStreamIsTheSame(streams, events[..|events| - 1]);
      RunKeepsInv(streams, events[..|events| - 1]);
    }
  }

  lemma EagerRunExtends(streams: nat, events: seq<Event>, e: Event)
    requires IsEagerRun(streams, events) && EagerlyEnabled(After(streams, events), e)
    ensures IsEagerRun(streams, events + [e]) && After(streams, events + [e]) == Next(After(streams, events), e)
  {
    assert (events + [e])[..|events|] == events;
  }

  lemma FirstCompletionFrees(streams: nat) returns (events: seq<Event>)
    requires streams > 1
    ensures IsEagerRun(streams, events) && TouchedAfterFree(streams, events)
  {
    EagerRunExtends(streams, [], Retain);
    EagerRunExtends(streams, [] + [Retain], Issue(true));
    EagerRunExtends(streams, [] + [Retain] + [Issue(true)], Complete);
    events := [] + [Retain] + [Issue(true)] + [Complete];
    assert Touches(Retain) && EagerlyEnabled(After(streams, events), Retain);
  }

  /** That sender is unsafe exactly with more than one stream: the first completion can free the buffer with another send
      still to come. */
  lemma CountingEachBeforeItsSendIsUnsafe(streams: nat)
    ensures (exists events :: IsEagerRun(streams, events) && TouchedAfterFree(streams, events)) <==> streams > 1
  {
    if streams > 1 {
      var events := FirstCompletionFrees(streams);
    } else {
      forall events | IsEagerRun(streams, events) ensures !TouchedAfterFree(streams, events) {
        OneStreamIsTheSame(streams, events);
        RunKeepsInv(streams, events);
      }
    }
  }

  // ---- The buffer and its sender

  class RawBuffer {
    const bytes: seq<byte>
    var refCount: u32
    var frees: nat

    /** MakeBuffer, with the length that ReliablePacketSend adds. */
    constructor (data: seq<byte>)
      ensures bytes == BufferBytes(data) && refCount == 0 && frees == 0
    {
      bytes := BufferBytes(data);
      refCount, frees := 0, 0;
    }

    method Retain()
      modifies this
      ensures refCount == Increment(old(refCount)) && frees == old(frees)
    {
      refCount := Increment(refCount);
    }

    /** The SEND_COMPLETE handler. */
    method Complete()
      modifies this
      ensures refCount == Decrement(old(refCount))
      ensures frees == if refCount == 0 then old(frees) + 1 else old(frees)
    {
      refCount := Decrement(refCount);
      if refCount == 0 {
        frees := frees + 1;
      }
    }

    method Free()
      modifies this
      ensures refCount == old(refCount) && frees == old(frees) + 1
    {
      frees := frees + 1;
    }
  }

  /** The sender over the open streams. It refuses payloads above 65512 bytes and channels from 4 on, and fails without
      memory; otherwise the buffer holds the payload's frame, and the streams are offered it. verdicts[i] is whether
      stream i takes it; after its send, and before the next one, up to completions[i] outstanding sends complete. The
      execution is a run of the protocol, ending with the sender's return. */
  method ReliablePacketSend(
      channel: nat, data: seq<byte>, memory: bool, verdicts: seq<bool>, completions: seq<nat>)
      returns (sent: bool, buffer: RawBuffer?, ghost events: seq<Event>)
    requires |verdicts| == |completions| < TWO_32
    ensures buffer == null <==> |data| > 65512 || channel >= 4 || !memory
    ensures buffer == null ==> !sent
    ensures buffer != null ==> fresh(buffer) && |data| <= 65512 && buffer.bytes == Frame(data)
    ensures buffer != null ==>
      && IsRun(|verdicts|, events)
      && var s := After(|verdicts|, events);
         s.returned && buffer.refCount == s.refCount && buffer.frees == s.frees && sent == (s.accepted > 0)
    ensures buffer != null ==> (sent <==> true in verdicts)
  {
    sent, buffer, events := false, null, [];
    if |data| > MAX_PAYLOAD {
      return;
    }
    if channel >= 4 {
      return;
    }
    if !memory {
      return;
    }
    AcceptedDataIsFramed(data);
    buffer := new RawBuffer(data);
    sent, events := Offer(buffer, verdicts, completions);
  }

  /** Its two loops. */
  method Offer(buffer: RawBuffer, verdicts: seq<bool>, completions: seq<nat>)
      returns (sent: bool, ghost events: seq<Event>)
    requires buffer.refCount == 0 && buffer.frees == 0
    requires |verdicts| == |completions| < TWO_32
    modifies buffer
    ensures IsRun(|verdicts|, events)
    ensures var s := After(|verdicts|, events);
            s.returned && buffer.refCount == s.refCount && buffer.frees == s.frees && sent == (s.accepted > 0)
    ensures sent <==> true in verdicts
  {
    hide After, IsRun;
    var n := |verdicts|;
    events := [];
    ghost var s := Initial(n);
    RunStarts(n);
    for i := 0 to n
      invariant IsRun(n, events) && s == After(n, events) == State(n, i, 0, 0, 0, buffer.refCount, buffer.frees, false)
    {
      RunExtends(n, events, Retain);
      events, s := events + [Retain], Next(s, Retain);
      buffer.Retain();
    }
    sent := false;
    var outstanding := 0;
    for i := 0 to n
      invariant IsRun(n, events) && s == After(n, events)
      invariant s.streams == s.retained == n && s.issued == i && !s.returned
      invariant s.refCount == buffer.refCount && s.frees == buffer.frees
      invariant outstanding == s.accepted - s.completed
      invariant sent == (s.accepted > 0) == (true in verdicts[..i])
    {
      RunExtends(n, events, Issue(verdicts[i]));
      events, s := events + [Issue(verdicts[i])], Next(s, Issue(verdicts[i]));
      sent := sent || verdicts[i];
      outstanding := if verdicts[i] then outstanding + 1 else outstanding;
      assert verdicts[..i + 1] == verdicts[..i] + [verdicts[i]];
      var left := completions[i];
      while left > 0 && outstanding > 0
        invariant IsRun(n, events) && s == After(n, events)
        invariant s.streams == s.retained == n && s.issued == i + 1 && !s.returned
        invariant s.refCount == buffer.refCount && s.frees == buffer.frees
        invariant outstanding == s.accepted - s.completed
        invariant sent == (s.accepted > 0) == (true in verdicts[..i + 1])
        decreases left
      {
        RunExtends(n, events, Complete);
        events, s := events + [Complete], Next(s, Complete);
        buffer.Complete();
        left, outstanding := left - 1, outstanding - 1;
      }
    }
    assert verdicts[..n] == verdicts;
    RunExtends(n, events, Return);
    events := events + [Return];
    if !sent {
      buffer.Free();
    }
  }
}
