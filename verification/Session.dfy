/** The connection table of a session and its handlers, as functions on values: the UDP port exchange, the retry check
    and the connection events. */
module Session {
  import opened Words
  import opened Modular
  import opened Bytes
  import Receiver

  /** A remote sentinel's address; 0 is the zeroed address of an unused entry. */
  type Address = nat

  datatype Ports = Ports(remoteServer: u16, remoteClient: u16, localServer: u16, localClient: u16)

  const NO_PORTS := Ports(0, 0, 0, 0)

  /** A connection context. begin is HandshakeBegin, 0 for the default time point; transient is whether the client port
      is still held by its socket; selfOpen is whether our own connection's handle is set. */
  datatype Slot = Slot(
    remote: Address,
    begin: nat,
    ports: Ports,
    transient: bool,
    selfOpen: bool,
    reliable: seq<Receiver.Channel>,
    refCount: u32)

  const FRESH_CHANNELS := [Receiver.FRESH, Receiver.FRESH, Receiver.FRESH, Receiver.FRESH]
  const FRESH_SLOT := Slot(0, 0, NO_PORTS, false, false, FRESH_CHANNELS, 0)

  /** ConnectionContext::Reset clears everything but the reference count. */
  function Reset(s: Slot): Slot {
    FRESH_SLOT.(refCount := s.refCount)
  }

  /** What a handler asks of the outside. */
  datatype Effect =
    | SendPorts(to: Address, data: seq<byte>)
    | Challenge(to: Address, port: u16)
    | OpenClient(remote: Address, ports: Ports)
    | StartConnection(remote: Address, localClient: u16, remoteServer: u16)
    | CallDisconnect

  /** What the outside answers: our listener's port, the port of a newly bound socket if binding succeeds, the time,
      whether a connection handle can be opened, and whether the user accepts. */
  datatype Env = Env(listener: u16, bound: Option<u16>, now: nat, openOk: bool, accepts: bool) {
    /** The listener is bound and the clock is running. */
    predicate Valid() {
      listener != 0 && now != 0
    }
  }

  // ---- The packets

  function EncodePorts(a: u16, b: u16, c: u16, d: u16): (data: seq<byte>)
    ensures |data| == 8
  {
    ToBE(a, 2) + ToBE(b, 2) + ToBE(c, 2) + ToBE(d, 2)
  }

  function PortAt(data: seq<byte>, at: nat): u16
    requires at + 2 <= |data|
  {
    FromBEBound(data[at..at + 2]);
    assert Pow(256, 2) == TWO_16;
    FromBE(data[at..at + 2])
  }

  /** ConvertBufferToPorts: what the sender calls local is remote to us, and back. */
  function DecodePorts(data: seq<byte>): Ports
    requires |data| == 8
  {
    Ports(PortAt(data, 0), PortAt(data, 2), PortAt(data, 4), PortAt(data, 6))
  }

  lemma FourPairs(a: seq<byte>, b: seq<byte>, c: seq<byte>, d: seq<byte>)
    requires |a| == |b| == |c| == |d| == 2
    ensures var data := a + b + c + d;
            data[0..2] == a && data[2..4] == b && data[4..6] == c && data[6..8] == d
  {
    var data := a + b + c + d;
    assert data[0..2] == a;
    assert data[2..4] == b;
    assert data[4..6] == c;
    assert data[6..8] == d;
  }

  lemma PortsRoundTrip(a: u16, b: u16, c: u16, d: u16)
    ensures DecodePorts(EncodePorts(a, b, c, d)) == Ports(a, b, c, d)
  {
    hide ToBE, FromBE;
    assert Pow(256, 2) == TWO_16;
    BERoundTrip(a, 2);
    BERoundTrip(b, 2);
    BERoundTrip(c, 2);
    BERoundTrip(d, 2);
    FourPairs(ToBE(a, 2), ToBE(b, 2), ToBE(c, 2), ToBE(d, 2));
  }

  /** The packet is the four ports in network byte order. */
  lemma PortsOnTheWire(a: u16, b: u16, c: u16, d: u16)
    ensures EncodePorts(a, b, c, d)
         == [a / 256, a % 256, b / 256, b % 256, c / 256, c % 256, d / 256, d % 256]
  {
    hide ToBE;
    PortBytes(a);
    PortBytes(b);
    PortBytes(c);
    PortBytes(d);
  }

  lemma PortBytes(port: u16)
    ensures ToBE(port, 2) == [port / 256, port % 256]
  {
    BigEndianDigits(port, 2, 0);
    BigEndianDigits(port, 2, 1);
    assert Pow(256, 0) == 1 && Pow(256, 1) == 256;
    assert ToBE(port, 2) == [ToBE(port, 2)[0], ToBE(port, 2)[1]];
  }

  // ---- Looking up an entry

  datatype Found = Found(matching: bool, index: int)

  predicate IsEmpty(s: Slot) {
    s.refCount == 0 && s.ports == NO_PORTS
  }

  /** FindMatchingEntry from entry i on, with the first empty entry seen so far. */
  function Scan(slots: seq<Slot>, remote: Address, i: nat, firstEmpty: int): Found
    requires i <= |slots|
    decreases |slots| - i
  {
    if i == |slots| then Found(false, firstEmpty)
    else if slots[i].remote == remote then Found(true, i)
    else Scan(slots, remote, i + 1, if firstEmpty == -1 && IsEmpty(slots[i]) then i else firstEmpty)
  }

  function FindMatchingEntry(slots: seq<Slot>, remote: Address): Found {
    Scan(slots, remote, 0, -1)
  }

  /** The first entry for the address if there is one; otherwise the first empty entry, or -1. */
  predicate IsLookup(slots: seq<Slot>, remote: Address, f: Found) {
    if f.matching then
      && 0 <= f.index < |slots| && slots[f.index].remote == remote
      && forall j :: 0 <= j < f.index ==> slots[j].remote != remote
    else
      && (forall j :: 0 <= j < |slots| ==> slots[j].remote != remote)
      && (f.index == -1 || (0 <= f.index < |slots| && IsEmpty(slots[f.index])))
      && forall j :: 0 <= j < (if f.index == -1 then |slots| else f.index) ==> !IsEmpty(slots[j])
  }

  lemma {:induction false} ScanIsLookup(slots: seq<Slot>, remote: Address, i: nat, firstEmpty: int)
    requires i <= |slots|
    requires forall j :: 0 <= j < i ==> slots[j].remote != remote
    requires firstEmpty == -1 || (0 <= firstEmpty < i && IsEmpty(slots[firstEmpty]))
    requires forall j :: 0 <= j < (if firstEmpty == -1 then i else firstEmpty) ==> !IsEmpty(slots[j])
    ensures IsLookup(slots, remote, Scan(slots, remote, i, firstEmpty))
    decreases |slots| - i
  {
    hide IsEmpty;
    if i < |slots| && slots[i].remote != remote {
      ScanIsLookup(slots, remote, i + 1, if firstEmpty == -1 && IsEmpty(slots[i]) then i else firstEmpty);
    }
  }

  lemma FindMatchingEntryIsLookup(slots: seq<Slot>, remote: Address)
    ensures IsLookup(slots, remote, FindMatchingEntry(slots, remote))
  {
    ScanIsLookup(slots, remote, 0, -1);
  }

  // ---- The handlers on one entry

  datatype Result = Result(slot: Slot, effects: seq<Effect>)

  /** Reserves the local ports and takes the entry for the peer. */
  function Reserve(s: Slot, remote: Address, listener: u16, port: u16, now: nat): Slot {
    s.(ports := s.ports.(localServer := listener, localClient := port),
       begin := now, transient := true, remote := remote)
  }

  function SaveRemote(s: Slot, p: Ports): Slot {
    s.(ports := s.ports.(remoteServer := p.remoteServer, remoteClient := p.remoteClient))
  }

  function ChallengeFirewall(remote: Address, p: Ports): seq<Effect> {
    if p.remoteClient != 0 then [Challenge(remote, p.remoteClient)] else []
  }

  function Receive1st(s: Slot, p: Ports, remote: Address, env: Env): Result {
    var saved := SaveRemote(s, p);
    if s.begin == 0 then
      match env.bound
      case None => Result(saved, ChallengeFirewall(remote, p))
      case Some(port) =>
        Result(Reserve(saved, remote, env.listener, port, env.now),
               ChallengeFirewall(remote, p)
               + [SendPorts(remote, EncodePorts(env.listener, port, p.remoteServer, p.remoteClient))])
    else
      Result(saved,
             ChallengeFirewall(remote, p)
             + [SendPorts(remote, EncodePorts(s.ports.localServer, s.ports.localClient,
                                              p.remoteServer, p.remoteClient))])
  }

  function StartClient(s: Slot, remote: Address, env: Env): Result {
    if s.selfOpen || !env.openOk then
      Result(s, [])
    else if !env.accepts then
      Result(Reset(s), [OpenClient(remote, s.ports)])
    else
      Result(s.(selfOpen := true, transient := false),
             [OpenClient(remote, s.ports), StartConnection(remote, s.ports.localClient, s.ports.remoteServer)])
  }

  function Receive2nd(s: Slot, p: Ports, remote: Address, env: Env): Result {
    var r := StartClient(SaveRemote(s, p), remote, env);
    Result(r.slot,
           ChallengeFirewall(remote, p)
           + [SendPorts(remote, EncodePorts(0, 0, p.remoteServer, p.remoteClient))]
           + r.effects)
  }

  /** CONNECTED */
  function Connected(s: Slot): Slot {
    s.(begin := 0, refCount := if s.refCount == TWO_32 - 1 then 0 else s.refCount + 1)
  }

  /** SHUTDOWN_COMPLETE of our own connection (client) or of the peer's. */
  function ShutdownComplete(s: Slot, client: bool): Result {
    var left := s.(selfOpen := s.selfOpen && !client,
                   refCount := if s.refCount == 0 then TWO_32 - 1 else s.refCount - 1);
    if left.refCount == 0 then Result(Reset(left), [CallDisconnect]) else Result(left, [])
  }

  // ---- The retry check; times are in nanoseconds

  const RETRY_AFTER: nat := 3_998_000_000
  const SHORT_STOP: nat := 11_998_000_000
  const LONG_STOP: nat := 59_998_000_000

  datatype Verdict = Idle | TooEarly | Retry | GiveUp | QuickFail

  predicate KnowsPeerPorts(s: Slot) {
    s.ports.remoteServer != 0 || s.ports.remoteClient != 0
  }

  function Judge(s: Slot, now: nat): Verdict {
    if s.begin == 0 then Idle
    else if now - s.begin < RETRY_AFTER then TooEarly
    else if now - s.begin > LONG_STOP then GiveUp
    else if KnowsPeerPorts(s) && now - s.begin > SHORT_STOP then QuickFail
    else Retry
  }

  function DoCheck(s: Slot, now: nat): Result {
    match Judge(s, now)
    case Idle => Result(s, [])
    case TooEarly => Result(s, [])
    case GiveUp => Result(Reset(s), [])
    case QuickFail => Result(Reset(s), [CallDisconnect])
    case Retry =>
      Result(s, [SendPorts(s.remote, EncodePorts(s.ports.localServer, s.ports.localClient,
                                                 s.ports.remoteServer, s.ports.remoteClient))])
  }

  // ---- The handlers on the table

  datatype Step = Step(slots: seq<Slot>, effects: seq<Effect>)

  function Put(slots: seq<Slot>, i: nat, r: Result): Step
    requires i < |slots|
  {
    Step(slots[i := r.slot], r.effects)
  }

  function ConnectTo(slots: seq<Slot>, remote: Address, env: Env): Step {
    FindMatchingEntryIsLookup(slots, remote);
    var f := FindMatchingEntry(slots, remote);
    if f.matching || f.index == -1 then Step(slots, [])
    else match env.bound
      case None => Step(slots, [])
      case Some(port) =>
        Put(slots, f.index,
            Result(Reserve(slots[f.index], remote, env.listener, port, env.now),
                   [SendPorts(remote, EncodePorts(env.listener, port, 0, 0))]))
  }

  /** Which of the three packets this is: a request carries only the sender's ports, a response both pairs and an
      acknowledgement only ours. */
  datatype Kind = Request | Response | Acknowledgement | Nothing

  function KindOf(p: Ports): Kind {
    var theirs := p.remoteServer != 0 || p.remoteClient != 0;
    var ours := p.localServer != 0 || p.localClient != 0;
    if theirs && !ours then Request
    else if theirs && ours then Response
    else if ours then Acknowledgement
    else Nothing
  }

  function ConsumeRawUdpData(slots: seq<Slot>, data: seq<byte>, remote: Address, env: Env): Step {
    if |data| != 8 then Step(slots, [])
    else
      FindMatchingEntryIsLookup(slots, remote);
      ConsumePorts(slots, DecodePorts(data), remote, env, FindMatchingEntry(slots, remote))
  }

  function ConsumePorts(slots: seq<Slot>, p: Ports, remote: Address, env: Env, f: Found): Step
    requires f.index == -1 || 0 <= f.index < |slots|
  {
    if f.index == -1 then Step(slots, [])
    else
      var s := slots[f.index];
      var connected := s.begin == 0;
      match KindOf(p)
      case Request =>
        if f.matching && connected then Step(slots, []) else Put(slots, f.index, Receive1st(s, p, remote, env))
      case Response =>
        if !f.matching || connected then Step(slots, []) else Put(slots, f.index, Receive2nd(s, p, remote, env))
      case Acknowledgement =>
        if !f.matching || connected then Step(slots, []) else Put(slots, f.index, StartClient(s, remote, env))
      case Nothing => Step(slots, [])
  }
}
