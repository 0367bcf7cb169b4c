/** What the handlers keep about one session's table, over runs with any peers, packets, checks, connection events and
    resets. */
module SlotTable {
  import opened Words
  import opened Session
  import Receiver

  datatype Action =
    | Connect(remote: Address, env: Env)
    | Packet(data: seq<byte>, remote: Address, env: Env)
    | Check(i: nat, now: nat)
    | OnConnected(i: nat)
    | OnShutdown(i: nat, client: bool)
    | Drop(i: nat)

  /** Addresses come from the resolver or the network and are never the zeroed one. */
  predicate Enabled(slots: seq<Slot>, a: Action) {
    match a
    case Connect(remote, env) => remote != 0 && env.Valid()
    case Packet(_, remote, env) => remote != 0 && env.Valid()
    case Check(i, _) => i < |slots|
    case OnConnected(i) => i < |slots|
    case OnShutdown(i, _) => i < |slots|
    case Drop(i) => i < |slots|
  }

  function Apply(slots: seq<Slot>, a: Action): Step
    requires Enabled(slots, a)
  {
    match a
    case Connect(remote, env) => ConnectTo(slots, remote, env)
    case Packet(data, remote, env) => ConsumeRawUdpData(slots, data, remote, env)
    case Check(i, now) => Put(slots, i, DoCheck(slots[i], now))
    case OnConnected(i) => Step(slots[i := Connected(slots[i])], [])
    case OnShutdown(i, client) => Put(slots, i, ShutdownComplete(slots[i], client))
    case Drop(i) => Step(slots[i := Reset(slots[i])], [])
  }

  /** Without a peer there is neither a handshake nor a connection of ours; with one, the listener's port is reserved. */
  predicate SlotInv(s: Slot) {
    && (s.remote == 0 ==> s.begin == 0 && !s.selfOpen)
    && (s.remote != 0 ==> s.ports.localServer != 0)
  }

  /** No two entries are for the same peer. */
  predicate TableInv(slots: seq<Slot>) {
    && (forall i :: 0 <= i < |slots| ==> SlotInv(slots[i]))
    && (forall i, j :: 0 <= i < j < |slots| && slots[i].remote != 0 ==> slots[i].remote != slots[j].remote)
  }

  /** How an action changes the table: at most one entry, which keeps its peer, loses it, or, if it had been empty, is
      taken for a peer that had no entry. */
  ghost predicate Changes(slots: seq<Slot>, slots': seq<Slot>, i: nat) {
    && i < |slots| == |slots'|
    && slots' == slots[i := slots'[i]]
    && (|| slots'[i].remote == slots[i].remote
        || slots'[i].remote == 0
        || (IsEmpty(slots[i]) && forall j :: 0 <= j < |slots| ==> slots[j].remote != slots'[i].remote))
  }

  lemma ChangeKeepsInv(slots: seq<Slot>, slots': seq<Slot>, i: nat)
    requires TableInv(slots) && Changes(slots, slots', i) && SlotInv(slots'[i])
    ensures TableInv(slots')
  {
  }

  lemma ConnectChanges(slots: seq<Slot>, remote: Address, env: Env) returns (i: nat)
    requires TableInv(slots) && remote != 0 && env.Valid()
    ensures var slots' := ConnectTo(slots, remote, env).slots;
            slots' == slots || (Changes(slots, slots', i) && SlotInv(slots'[i]))
  {
    hide FindMatchingEntry, EncodePorts;
    FindMatchingEntryIsLookup(slots, remote);
    var f := FindMatchingEntry(slots, remote);
    i := if f.index < 0 then 0 else f.index;
  }

  lemma PacketChanges(slots: seq<Slot>, data: seq<byte>, remote: Address, env: Env) returns (i: nat)
    requires TableInv(slots) && remote != 0 && env.Valid()
    ensures var slots' := ConsumeRawUdpData(slots, data, remote, env).slots;
            slots' == slots || (Changes(slots, slots', i) && SlotInv(slots'[i]))
  {
    hide FindMatchingEntry, EncodePorts, DecodePorts;
    FindMatchingEntryIsLookup(slots, remote);
    var f := FindMatchingEntry(slots, remote);
    i := if f.index < 0 then 0 else f.index;
  }

  lemma StepKeepsInv(slots: seq<Slot>, a: Action)
    requires TableInv(slots) && Enabled(slots, a)
    ensures TableInv(Apply(slots, a).slots) && |Apply(slots, a).slots| == |slots|
  {
    hide ConnectTo, ConsumeRawUdpData, EncodePorts;
    var slots' := Apply(slots, a).slots;
    match a
    case Connect(remote, env) =>
      var i := ConnectChanges(slots, remote, env);
      if slots' != slots { ChangeKeepsInv(slots, slots', i); }
    case Packet(data, remote, env) =>
      var i := PacketChanges(slots, data, remote, env);
      if slots' != slots { ChangeKeepsInv(slots, slots', i); }
    case Check(i, _) => ChangeKeepsInv(slots, slots', i);
    case OnConnected(i) => ChangeKeepsInv(slots, slots', i);
    case OnShutdown(i, _) => ChangeKeepsInv(slots, slots', i);
    case Drop(i) => ChangeKeepsInv(slots, slots', i);
  }

  // ---- Runs

  const MAX_CONNECTIONS: nat := 16

  function Initial(): (slots: seq<Slot>)
    ensures |slots| == MAX_CONNECTIONS
  {
    seq(MAX_CONNECTIONS, _ => FRESH_SLOT)
  }

  /** The tables a run goes through: each follows from the one before by an action. */
  ghost predicate IsRun(tables: seq<seq<Slot>>, actions: seq<Action>) {
    && |tables| == |actions| + 1
    && tables[0] == Initial()
    && forall k :: 0 <= k < |actions| ==>
         Enabled(tables[k], actions[k]) && tables[k + 1] == Apply(tables[k], actions[k]).slots
  }

  /** In every table of every run no two of the sixteen entries hold the same remote sentinel, a handshake in progress has
      a peer, and an entry with a peer has a non-zero local server port. */
  lemma {:induction false} RunKeepsInv(tables: seq<seq<Slot>>, actions: seq<Action>, k: nat)
    requires IsRun(tables, actions) && k <= |actions|
    ensures TableInv(tables[k]) && |tables[k]| == MAX_CONNECTIONS == 16
  {
    hide Enabled, Apply, TableInv;
    if k > 0 {
      RunKeepsInv(tables, actions, k - 1);
      StepKeepsInv(tables[k - 1], actions[k - 1]);
    } else {
      InitialInv();
    }
  }

  lemma InitialInv()
    ensures TableInv(Initial())
  {
  }

  /** A socket that was bound can tell its port; if it cannot, its port counts as 0. */
  predicate TellsPort(a: Action) {
    a.Connect? || a.Packet? ==> a.env.bound != Some(0)
  }

  predicate ClientPorts(slots: seq<Slot>) {
    forall i :: 0 <= i < |slots| && slots[i].remote != 0 ==> slots[i].ports.localClient != 0
  }

  lemma StepKeepsClientPorts(slots: seq<Slot>, a: Action)
    requires TableInv(slots) && ClientPorts(slots) && Enabled(slots, a) && TellsPort(a)
    ensures ClientPorts(Apply(slots, a).slots)
  {
    hide FindMatchingEntry, EncodePorts, DecodePorts;
    match a
    case Connect(remote, _) => FindMatchingEntryIsLookup(slots, remote);
    case Packet(_, remote, _) => FindMatchingEntryIsLookup(slots, remote);
    case _ =>
  }

  /** In every run in which bound sockets have ports, both local ports of every entry with a peer are non-zero. */
  lemma {:induction false} RunKeepsLocalPorts(tables: seq<seq<Slot>>, actions: seq<Action>, k: nat)
    requires IsRun(tables, actions) && k <= |actions|
    requires forall j :: 0 <= j < k ==> TellsPort(actions[j])
    ensures forall i :: 0 <= i < |tables[k]| && tables[k][i].remote != 0 ==>
              tables[k][i].ports.localServer != 0 && tables[k][i].ports.localClient != 0
    ensures forall i :: 0 <= i < |tables[k]| && tables[k][i].begin != 0 ==> tables[k][i].remote != 0
  {
    hide Enabled, Apply, TellsPort;
    RunKeepsInv(tables, actions, k);
    if k > 0 {
      RunKeepsLocalPorts(tables, actions, k - 1);
      RunKeepsInv(tables, actions, k - 1);
      StepKeepsClientPorts(tables[k - 1], actions[k - 1]);
    }
  }

  /** In every run a peer gets an entry only where the ports and the reference count were zero, and only if it had
      none. */
  lemma NewPeersTakeEmptyEntries(tables: seq<seq<Slot>>, actions: seq<Action>, k: nat, i: nat)
    requires IsRun(tables, actions) && k < |actions| && i < |tables[k]| == |tables[k + 1]|
    requires tables[k + 1][i].remote != 0 && tables[k + 1][i].remote != tables[k][i].remote
    ensures tables[k][i].refCount == 0 && tables[k][i].ports == NO_PORTS
    ensures forall j :: 0 <= j < |tables[k]| ==> tables[k][j].remote != tables[k + 1][i].remote
  {
    hide ConnectTo, ConsumeRawUdpData, EncodePorts;
    RunKeepsInv(tables, actions, k);
    var slots, slots' := tables[k], tables[k + 1];
    match actions[k]
    case Connect(remote, env) => var n := ConnectChanges(slots, remote, env);
    case Packet(data, remote, env) => var n := PacketChanges(slots, data, remote, env);
    case Check(_, _) =>
    case OnConnected(_) =>
    case OnShutdown(_, _) =>
    case Drop(_) =>
  }

  // ---- Entries that nobody can use

  /** Without a peer and yet not empty: nobody gets the entry, and nothing finds it. */
  predicate IsBlocked(s: Slot) {
    s.remote == 0 && !IsEmpty(s)
  }

  /** An entry without a peer that still holds ports, which blocks it. */
  predicate HoldsStrayPorts(s: Slot) {
    s.remote == 0 && s.ports != NO_PORTS
  }

  ghost predicate NoStrayPorts(slots: seq<Slot>) {
    forall i :: 0 <= i < |slots| ==> !HoldsStrayPorts(slots[i])
  }

  /** A request of a new peer for which binding the client port fails. */
  predicate FailsToBind(slots: seq<Slot>, a: Action) {
    && a.Packet? && |a.data| == 8 && a.env.bound.None?
    && KindOf(DecodePorts(a.data)) == Request
    && var f := FindMatchingEntry(slots, a.remote); !f.matching && f.index != -1
  }

  lemma ConnectStraysNone(slots: seq<Slot>, remote: Address, env: Env)
    requires TableInv(slots) && NoStrayPorts(slots) && remote != 0 && env.Valid()
    ensures NoStrayPorts(ConnectTo(slots, remote, env).slots)
  {
    hide FindMatchingEntry, EncodePorts;
    FindMatchingEntryIsLookup(slots, remote);
  }

  lemma PacketStraysExactlyWhen(slots: seq<Slot>, data: seq<byte>, remote: Address, env: Env)
    requires TableInv(slots) && NoStrayPorts(slots) && remote != 0 && env.Valid()
    ensures NoStrayPorts(ConsumeRawUdpData(slots, data, remote, env).slots)
       <==> !FailsToBind(slots, Packet(data, remote, env))
  {
    hide FindMatchingEntry, EncodePorts, DecodePorts;
    FindMatchingEntryIsLookup(slots, remote);
    var f := FindMatchingEntry(slots, remote);
    if FailsToBind(slots, Packet(data, remote, env)) {
      assert HoldsStrayPorts(ConsumeRawUdpData(slots, data, remote, env).slots[f.index]);
    }
  }

  /** A step leaves stray ports behind exactly if it fails to bind for a new peer's request. */
  lemma StepStraysExactlyWhen(slots: seq<Slot>, a: Action)
    requires TableInv(slots) && NoStrayPorts(slots) && Enabled(slots, a)
    ensures NoStrayPorts(Apply(slots, a).slots) <==> !FailsToBind(slots, a)
  {
    hide ConnectTo, ConsumeRawUdpData, EncodePorts, DecodePorts, FindMatchingEntry;
    match a
    case Connect(remote, env) => ConnectStraysNone(slots, remote, env);
    case Packet(data, remote, env) => PacketStraysExactlyWhen(slots, data, remote, env);
    case _ =>
  }

  lemma {:induction false} NoStrayPortsSoFar(tables: seq<seq<Slot>>, actions: seq<Action>, k: nat)
    requires IsRun(tables, actions) && k <= |actions|
    requires forall j :: 0 <= j < |actions| ==> !FailsToBind(tables[j], actions[j])
    ensures NoStrayPorts(tables[k])
  {
    hide TableInv, FailsToBind, Enabled, Apply;
    if k > 0 {
      NoStrayPortsSoFar(tables, actions, k - 1);
      RunKeepsInv(tables, actions, k - 1);
      StepStraysExactlyWhen(tables[k - 1], actions[k - 1]);
    }
  }

  /** A run leaves stray ports behind exactly if one of its steps fails to bind for a new peer's request. */
  lemma PortsStrayExactlyWhen(tables: seq<seq<Slot>>, actions: seq<Action>)
    requires IsRun(tables, actions)
    ensures (forall k :: 0 <= k <= |actions| ==> NoStrayPorts(tables[k]))
       <==> (forall k :: 0 <= k < |actions| ==> !FailsToBind(tables[k], actions[k]))
  {
    hide TableInv, NoStrayPorts, FailsToBind, Enabled, Apply;
    if forall k :: 0 <= k < |actions| ==> !FailsToBind(tables[k], actions[k]) {
      forall k | 0 <= k <= |actions| ensures NoStrayPorts(tables[k]) {
        NoStrayPortsSoFar(tables, actions, k);
      }
    } else {
      var k :| 0 <= k < |actions| && FailsToBind(tables[k], actions[k]);
      if NoStrayPorts(tables[k]) {
        RunKeepsInv(tables, actions, k);
        StepStraysExactlyWhen(tables[k], actions[k]);
        assert !NoStrayPorts(tables[k + 1]);
      }
    }
  }

  /** The user dropping the entry's channel, or an event of one of its connections; an entry with stray ports has neither. */
  predicate Concerns(a: Action, i: nat) {
    (a.Drop? || a.OnConnected? || a.OnShutdown?) && a.i == i
  }

  lemma BlockedIsNotFound(slots: seq<Slot>, i: nat)
    requires i < |slots| && IsBlocked(slots[i])
    ensures forall remote: Address :: remote != 0 ==> FindMatchingEntry(slots, remote).index != i
  {
    forall remote: Address | remote != 0 ensures FindMatchingEntry(slots, remote).index != i {
      FindMatchingEntryIsLookup(slots, remote);
    }
  }

  lemma BindFailure(slots: seq<Slot>, a: Action)
    requires TableInv(slots) && Enabled(slots, a) && FailsToBind(slots, a)
    ensures var i := FindMatchingEntry(slots, a.remote).index;
            && 0 <= i < |slots| == |Apply(slots, a).slots|
            && IsEmpty(slots[i]) && HoldsStrayPorts(Apply(slots, a).slots[i])
  {
    hide FindMatchingEntry, EncodePorts, DecodePorts;
    FindMatchingEntryIsLookup(slots, a.remote);
  }

  lemma StrayIsLeftAlone(slots: seq<Slot>, a: Action, i: nat)
    requires TableInv(slots) && Enabled(slots, a) && i < |slots| && HoldsStrayPorts(slots[i]) && !Concerns(a, i)
    ensures |Apply(slots, a).slots| == |slots| && Apply(slots, a).slots[i] == slots[i]
  {
    hide FindMatchingEntry, EncodePorts, DecodePorts;
    match a
    case Connect(remote, _) => FindMatchingEntryIsLookup(slots, remote);
    case Packet(_, remote, _) => FindMatchingEntryIsLookup(slots, remote);
    case _ =>
  }

  /** The entry that was tried is lost for good: it had been empty, and from then on, whatever packets, dials and checks
      follow, it holds the peer's ports without an address, is not empty and is found for nobody. */
  lemma {:induction false} FailedBindLosesTheEntry(
      tables: seq<seq<Slot>>, actions: seq<Action>, k: nat, n: nat, i: nat)
    requires IsRun(tables, actions) && k < n <= |actions| && FailsToBind(tables[k], actions[k])
    requires i == FindMatchingEntry(tables[k], actions[k].remote).index
    requires forall j :: k < j < n ==> !Concerns(actions[j], i)
    ensures i < |tables[k]| == |tables[n]| && IsEmpty(tables[k][i])
    ensures HoldsStrayPorts(tables[n][i]) && IsBlocked(tables[n][i]) && tables[n][i] == tables[k + 1][i]
    ensures forall remote: Address :: remote != 0 ==> FindMatchingEntry(tables[n], remote).index != i
  {
    hide Apply, Enabled, FindMatchingEntry, TableInv;
    RunKeepsInv(tables, actions, n - 1);
    RunKeepsInv(tables, actions, n);
    if n == k + 1 {
      BindFailure(tables[k], actions[k]);
    } else {
      FailedBindLosesTheEntry(tables, actions, k, n - 1, i);
      StrayIsLeftAlone(tables[n - 1], actions[n - 1], i);
    }
    BlockedIsNotFound(tables[n], i);
  }

  /** Once a connection has come up, the handshake of that entry is over: whatever packet its peer sends, the table does
      not change, and the retry check leaves the entry alone at any time. */
  lemma ConnectedEntryIsSettled(slots: seq<Slot>, i: nat, data: seq<byte>, env: Env, now: nat)
    requires TableInv(slots) && i < |slots| && slots[i].remote != 0
    ensures var slots' := slots[i := Connected(slots[i])];
            && ConsumeRawUdpData(slots', data, slots[i].remote, env) == Step(slots', [])
            && ConnectTo(slots', slots[i].remote, env) == Step(slots', [])
            && DoCheck(slots'[i], now) == Result(slots'[i], [])
  {
    hide FindMatchingEntry, EncodePorts, DecodePorts;
    var slots' := slots[i := Connected(slots[i])];
    FindMatchingEntryIsLookup(slots', slots[i].remote);
    var f := FindMatchingEntry(slots', slots[i].remote);
    assert slots'[i].remote == slots[i].remote;
    assert f.matching && f.index == i;
  }

  // ---- What each action does to an entry, and what it sends

  /** As a new context, except for the reference count. */
  predicate IsCleared(s: Slot, refCount: u32) {
    s == Slot(0, 0, Ports(0, 0, 0, 0), false, false,
              [Receiver.Channel([], 0), Receiver.Channel([], 0), Receiver.Channel([], 0), Receiver.Channel([], 0)],
              refCount)
  }

  /** One packet to the peer with these ports: the sender's listener and client port, and the receiver's. */
  ghost predicate SendsPorts(effects: seq<Effect>, to: Address, ports: Ports) {
    |effects| == 1 && effects[0].SendPorts? && effects[0].to == to
    && |effects[0].data| == 8 && DecodePorts(effects[0].data) == ports
  }

  /** A two-byte datagram to the peer's client port, if there is one. */
  ghost predicate Challenges(effects: seq<Effect>, to: Address, port: u16) {
    effects == if port == 0 then [] else [Challenge(to, port)]
  }

  lemma SendsEncoded(to: Address, a: u16, b: u16, c: u16, d: u16)
    ensures SendsPorts([SendPorts(to, EncodePorts(a, b, c, d))], to, Ports(a, b, c, d))
  {
    hide EncodePorts, DecodePorts;
    PortsRoundTrip(a, b, c, d);
  }

  ghost predicate NoneFor(slots: seq<Slot>, remote: Address) {
    forall i :: 0 <= i < |slots| ==> slots[i].remote != remote
  }

  ghost predicate IsFirstEmpty(slots: seq<Slot>, i: nat) {
    && i < |slots| && slots[i].refCount == 0 && slots[i].ports == Ports(0, 0, 0, 0)
    && forall j :: 0 <= j < i ==> slots[j].refCount != 0 || slots[j].ports != Ports(0, 0, 0, 0)
  }

  /** Dialling a peer that has an entry does nothing. For a new peer it takes the first empty entry, if there is one and
      binding succeeds: listener and client port are reserved, the handshake begins now, the socket is held, and one
      request goes out. */
  lemma ConnectReserves(slots: seq<Slot>, remote: Address, env: Env)
    requires TableInv(slots) && remote != 0 && env.Valid()
    ensures var step := Apply(slots, Connect(remote, env));
            if !NoneFor(slots, remote) || env.bound.None? || forall i: nat :: !IsFirstEmpty(slots, i)
            then step == Step(slots, [])
            else exists i: nat ::
              && IsFirstEmpty(slots, i)
              && step.slots == slots[i := Slot(remote, env.now, Ports(0, 0, env.listener, env.bound.value), true, false,
                                               slots[i].reliable, 0)]
              && SendsPorts(step.effects, remote, Ports(env.listener, env.bound.value, 0, 0))
  {
    hide FindMatchingEntry, EncodePorts, DecodePorts;
    FindMatchingEntryIsLookup(slots, remote);
    var f := FindMatchingEntry(slots, remote);
    if !f.matching && f.index != -1 && env.bound.Some? {
      assert IsFirstEmpty(slots, f.index);
      SendsEncoded(remote, env.listener, env.bound.value, 0, 0);
    }
  }

  /** The ports in a packet, under their names: the sender's and ours. */
  ghost predicate IsPacket(data: seq<byte>, theirServer: u16, theirClient: u16, ourServer: u16, ourClient: u16) {
    |data| == 8 && DecodePorts(data) == Ports(theirServer, theirClient, ourServer, ourClient)
  }

  /** A request for an entry whose handshake is in progress saves the sender's ports, sends a datagram to its client port
      and answers with both pairs. */
  lemma RequestIsAnswered(slots: seq<Slot>, data: seq<byte>, x: u16, y: u16, env: Env, i: nat)
    requires TableInv(slots) && env.Valid() && i < |slots| && slots[i].begin != 0
    requires IsPacket(data, x, y, 0, 0) && (x != 0 || y != 0)
    ensures var s := slots[i];
            var step := Apply(slots, Packet(data, s.remote, env));
            && step.slots == slots[i := s.(ports := Ports(x, y, s.ports.localServer, s.ports.localClient))]
            && |step.effects| > 0
            && Challenges(step.effects[..|step.effects| - 1], s.remote, y)
            && SendsPorts(step.effects[|step.effects| - 1..], s.remote,
                          Ports(s.ports.localServer, s.ports.localClient, x, y))
  {
    hide FindMatchingEntry, EncodePorts, DecodePorts;
    var s := slots[i];
    FindMatchingEntryIsLookup(slots, s.remote);
    assert FindMatchingEntry(slots, s.remote) == Found(true, i);
    SendsEncoded(s.remote, s.ports.localServer, s.ports.localClient, x, y);
    var sent := SendPorts(s.remote, EncodePorts(s.ports.localServer, s.ports.localClient, x, y));
    var effects := Apply(slots, Packet(data, s.remote, env)).effects;
    assert effects == ChallengeFirewall(s.remote, Ports(x, y, 0, 0)) + [sent];
    assert effects[|effects| - 1..] == [sent];
  }

  lemma FirstEmptyIsFound(slots: seq<Slot>, remote: Address, i: nat)
    requires TableInv(slots) && NoneFor(slots, remote) && IsFirstEmpty(slots, i)
    ensures FindMatchingEntry(slots, remote) == Found(false, i) && slots[i].remote == 0 && slots[i].begin == 0
  {
    FindMatchingEntryIsLookup(slots, remote);
    assert IsEmpty(slots[i]) && SlotInv(slots[i]);
  }

  /** A request of a peer without an entry takes the first empty one, as dialling does, with the sender's ports saved; it
      sends a datagram to its client port and answers with both pairs. */
  lemma FirstRequestReserves(
      slots: seq<Slot>, data: seq<byte>, x: u16, y: u16, remote: Address, env: Env, i: nat)
    requires TableInv(slots) && remote != 0 && env.Valid() && env.bound.Some?
    requires IsPacket(data, x, y, 0, 0) && (x != 0 || y != 0)
    requires NoneFor(slots, remote) && IsFirstEmpty(slots, i)
    ensures var step, port := Apply(slots, Packet(data, remote, env)), env.bound.value;
            && step.slots == slots[i := Slot(remote, env.now, Ports(x, y, env.listener, port), true, false,
                                             slots[i].reliable, 0)]
            && |step.effects| > 0
            && Challenges(step.effects[..|step.effects| - 1], remote, y)
            && SendsPorts(step.effects[|step.effects| - 1..], remote, Ports(env.listener, port, x, y))
  {
    hide FindMatchingEntry, EncodePorts, DecodePorts, TableInv;
    FirstEmptyIsFound(slots, remote, i);
    assert !slots[i].selfOpen by { assert TableInv(slots); NoPeerNoConnection(slots, i); }
    var effects := Apply(slots, Packet(data, remote, env)).effects;
    SendsEncoded(remote, env.listener, env.bound.value, x, y);
    var sent := SendPorts(remote, EncodePorts(env.listener, env.bound.value, x, y));
    assert effects == ChallengeFirewall(remote, Ports(x, y, 0, 0)) + [sent];
    assert effects[|effects| - 1..] == [sent];
  }

  lemma NoPeerNoConnection(slots: seq<Slot>, i: nat)
    requires TableInv(slots) && i < |slots| && slots[i].remote == 0
    ensures slots[i].begin == 0 && !slots[i].selfOpen
  {
    assert SlotInv(slots[i]);
  }

  /** If binding fails it only saves the ports there and sends the datagram, and if there is no empty entry it does
      nothing. */
  lemma FirstRequestWithoutPort(slots: seq<Slot>, data: seq<byte>, x: u16, y: u16, remote: Address, env: Env)
    requires TableInv(slots) && remote != 0 && env.Valid()
    requires IsPacket(data, x, y, 0, 0) && (x != 0 || y != 0) && NoneFor(slots, remote)
    ensures forall i: nat :: IsFirstEmpty(slots, i) && env.bound.None? ==>
              var step := Apply(slots, Packet(data, remote, env));
              step.slots == slots[i := slots[i].(ports := Ports(x, y, 0, 0))] && Challenges(step.effects, remote, y)
    ensures (forall i: nat :: !IsFirstEmpty(slots, i)) ==> Apply(slots, Packet(data, remote, env)) == Step(slots, [])
  {
    hide FindMatchingEntry, EncodePorts, DecodePorts;
    FindMatchingEntryIsLookup(slots, remote);
    var f := FindMatchingEntry(slots, remote);
    if f.index != -1 {
      assert IsFirstEmpty(slots, f.index);
    }
    forall i: nat | IsFirstEmpty(slots, i) && env.bound.None?
      ensures var step := Apply(slots, Packet(data, remote, env));
              step.slots == slots[i := slots[i].(ports := Ports(x, y, 0, 0))] && Challenges(step.effects, remote, y)
    {
      FirstEmptyIsFound(slots, remote, i);
    }
  }

  /** What opening our connection does: nothing if there is one or no handle is to be had; otherwise the user is asked, and
      either the connection starts from the reserved client port to the peer's listener, taking over the socket, or the
      entry is cleared. */
  ghost predicate Opens(s: Slot, env: Env, s': Slot, effects: seq<Effect>) {
    if s.selfOpen || !env.openOk then s' == s && effects == []
    else if env.accepts then
      && s' == Slot(s.remote, s.begin, s.ports, false, true, s.reliable, s.refCount)
      && effects == [OpenClient(s.remote, s.ports),
                     StartConnection(s.remote, s.ports.localClient, s.ports.remoteServer)]
    else
      IsCleared(s', s.refCount) && effects == [OpenClient(s.remote, s.ports)]
  }

  /** A response for an entry whose handshake is in progress saves the sender's ports, sends a datagram to its client port,
      acknowledges with its own ports only, and opens. */
  lemma ResponseOpens(slots: seq<Slot>, data: seq<byte>, x: u16, y: u16, p: u16, q: u16, env: Env, i: nat)
    requires TableInv(slots) && env.Valid() && i < |slots| && slots[i].begin != 0
    requires IsPacket(data, x, y, p, q) && (x != 0 || y != 0) && (p != 0 || q != 0)
    ensures var s := slots[i];
            var step := Apply(slots, Packet(data, s.remote, env));
            var n := if y == 0 then 0 else 1;
            && |step.slots| == |slots| && step.slots == slots[i := step.slots[i]]
            && |step.effects| > n
            && Challenges(step.effects[..n], s.remote, y)
            && SendsPorts(step.effects[n..n + 1], s.remote, Ports(0, 0, x, y))
            && Opens(s.(ports := Ports(x, y, s.ports.localServer, s.ports.localClient)), env,
                     step.slots[i], step.effects[n + 1..])
  {
    hide FindMatchingEntry, EncodePorts, DecodePorts;
    var s := slots[i];
    FindMatchingEntryIsLookup(slots, s.remote);
    assert FindMatchingEntry(slots, s.remote) == Found(true, i);
    SendsEncoded(s.remote, 0, 0, x, y);
    var n := if y == 0 then 0 else 1;
    var sent := SendPorts(s.remote, EncodePorts(0, 0, x, y));
    var opening := StartClient(s.(ports := Ports(x, y, s.ports.localServer, s.ports.localClient)), s.remote, env).effects;
    var effects := Apply(slots, Packet(data, s.remote, env)).effects;
    assert effects == ChallengeFirewall(s.remote, Ports(x, y, p, q)) + [sent] + opening;
    assert effects[n..n + 1] == [sent] && effects[n + 1..] == opening;
  }

  /** An acknowledgement only opens. */
  lemma AcknowledgementOpens(slots: seq<Slot>, data: seq<byte>, p: u16, q: u16, env: Env, i: nat)
    requires TableInv(slots) && env.Valid() && i < |slots| && slots[i].begin != 0
    requires IsPacket(data, 0, 0, p, q) && (p != 0 || q != 0)
    ensures var s := slots[i];
            var step := Apply(slots, Packet(data, s.remote, env));
            && |step.slots| == |slots| && step.slots == slots[i := step.slots[i]]
            && Opens(s, env, step.slots[i], step.effects)
  {
    hide FindMatchingEntry, EncodePorts, DecodePorts;
    var s := slots[i];
    FindMatchingEntryIsLookup(slots, s.remote);
    assert FindMatchingEntry(slots, s.remote) == Found(true, i);
  }

  /** Everything else is ignored: packets of another length, packets without ports, responses and acknowledgements of
      strangers, and whatever comes for an entry without a handshake in progress. */
  lemma OtherPacketsAreIgnored(slots: seq<Slot>, data: seq<byte>, remote: Address, env: Env)
    requires TableInv(slots) && remote != 0 && env.Valid()
    requires || |data| != 8
             || IsPacket(data, 0, 0, 0, 0)
             || (exists i :: 0 <= i < |slots| && slots[i].remote == remote && slots[i].begin == 0)
             || ((forall i :: 0 <= i < |slots| ==> slots[i].remote != remote)
                 && (DecodePorts(data).localServer != 0 || DecodePorts(data).localClient != 0))
    ensures Apply(slots, Packet(data, remote, env)) == Step(slots, [])
  {
    hide FindMatchingEntry, EncodePorts, DecodePorts;
    FindMatchingEntryIsLookup(slots, remote);
  }

  /** A check of a handshake that has timed out clears the entry, keeping its reference count, and sends nothing. The user
      is called exactly if the peer's ports were known and no more than 59.998 s have passed. */
  lemma TimedOutCheckClears(slots: seq<Slot>, i: nat, now: nat)
    requires i < |slots| && slots[i].begin != 0 && TimesOut(slots[i], now)
    ensures var s, step := slots[i], Apply(slots, Check(i, now));
            && |step.slots| == |slots| && step.slots == slots[i := step.slots[i]]
            && IsCleared(step.slots[i], s.refCount)
            && step.effects == if now - s.begin <= 59_998_000_000 then [CallDisconnect] else []
  {
    hide EncodePorts;
  }

  /** So, unless connections are still counted, the peer can be dialled again. */
  lemma TimedOutPeerCanBeDialled(slots: seq<Slot>, i: nat, now: nat, env: Env)
    requires TableInv(slots) && i < |slots| && slots[i].begin != 0 && TimesOut(slots[i], now)
    requires slots[i].refCount == 0 && env.Valid() && env.bound.Some?
    ensures var slots' := Apply(slots, Check(i, now)).slots;
            && TableInv(slots') && IsEmpty(slots'[i])
            && var again := Apply(slots', Connect(slots[i].remote, env));
               exists j :: 0 <= j < |again.slots| && again.slots[j].remote == slots[i].remote
                           && again.slots[j].begin == env.now
  {
    hide EncodePorts, FindMatchingEntry, ConnectTo, DoCheck;
    var remote, slots' := slots[i].remote, Apply(slots, Check(i, now)).slots;
    TimedOutCheckClears(slots, i, now);
    StepKeepsInv(slots, Check(i, now));
    assert SlotInv(slots[i]) && IsEmpty(slots'[i]);
    FindMatchingEntryIsLookup(slots', remote);
    assert NoneFor(slots', remote);
    var k: nat := FindMatchingEntry(slots', remote).index;
    assert IsFirstEmpty(slots', k);
    ConnectReserves(slots', remote, env);
    var again := Apply(slots', Connect(remote, env)).slots;
    var j: nat :| IsFirstEmpty(slots', j)
      && again == slots'[j := Slot(remote, env.now, Ports(0, 0, env.listener, env.bound.value), true, false,
                                   slots'[j].reliable, 0)];
    assert again[j].remote == remote && again[j].begin == env.now;
  }

  /** Any other check changes nothing. It repeats what the entry knows from 3.998 s on, and nothing before. */
  lemma OtherChecksOnlyRepeat(slots: seq<Slot>, i: nat, now: nat)
    requires i < |slots| && (slots[i].begin == 0 || !TimesOut(slots[i], now))
    ensures var s, step := slots[i], Apply(slots, Check(i, now));
            && step.slots == slots
            && (if s.begin != 0 && now - s.begin >= 3_998_000_000
                then SendsPorts(step.effects, s.remote, Ports(s.ports.localServer, s.ports.localClient,
                                                              s.ports.remoteServer, s.ports.remoteClient))
                else step.effects == [])
  {
    hide EncodePorts, DecodePorts;
    var s := slots[i];
    SendsEncoded(s.remote, s.ports.localServer, s.ports.localClient, s.ports.remoteServer, s.ports.remoteClient);
    assert slots[i := s] == slots;
  }

  /** A connection that comes up ends the handshake and is counted. */
  lemma ConnectedCounts(slots: seq<Slot>, i: nat)
    requires i < |slots|
    ensures var s := slots[i];
            Apply(slots, OnConnected(i)) == Step(slots[i := s.(begin := 0, refCount := (s.refCount + 1) % 0x1_0000_0000)], [])
  {
  }

  /** The user dropping the channel clears the entry, but not its count. */
  lemma DropClears(slots: seq<Slot>, i: nat)
    requires i < |slots|
    ensures var step := Apply(slots, Drop(i));
            |step.slots| == |slots| && step.slots == slots[i := step.slots[i]] && step.effects == []
            && IsCleared(step.slots[i], slots[i].refCount)
  {
  }

  /** The last shutdown clears the entry and calls the user; others count down and release our handle if it was ours. */
  lemma ShutdownCountsDown(slots: seq<Slot>, i: nat, client: bool)
    requires i < |slots|
    ensures var s, step := slots[i], Apply(slots, OnShutdown(i, client));
            |step.slots| == |slots| && step.slots == slots[i := step.slots[i]]
            && (if s.refCount == 1 then IsCleared(step.slots[i], 0) && step.effects == [CallDisconnect]
                else
                  && step.effects == []
                  && step.slots[i] == s.(selfOpen := if client then false else s.selfOpen,
                                         refCount := (s.refCount - 1) % 0x1_0000_0000))
  {
  }

  // ---- How a handshake goes on and how it ends

  /** A response or an acknowledgement of the entry's peer on which we open a connection that the user declines. */
  predicate IsDeclined(s: Slot, a: Action) {
    && a.Packet? && |a.data| == 8 && a.remote == s.remote
    && (var kind := KindOf(DecodePorts(a.data)); kind == Response || kind == Acknowledgement)
    && !s.selfOpen && a.env.openOk && !a.env.accepts
  }

  /** The entry's retry check comes too late. */
  predicate TimesOut(s: Slot, now: nat) {
    || now - s.begin > 59_998_000_000
    || ((s.ports.remoteServer != 0 || s.ports.remoteClient != 0) && now - s.begin > 11_998_000_000)
  }

  predicate EndsHandshake(slots: seq<Slot>, a: Action, i: nat)
    requires i < |slots|
  {
    match a
    case Connect(_, _) => false
    case Packet(_, _, _) => IsDeclined(slots[i], a)
    case Check(j, now) => j == i && TimesOut(slots[i], now)
    case OnConnected(j) => j == i
    case OnShutdown(j, _) => j == i && slots[i].refCount == 1
    case Drop(j) => j == i
  }

  /** A handshake goes on, for the same peer and with the same beginning, until its connection comes up, the user declines
      it or drops the channel, the entry's last connection shuts down or a check finds it timed out. What it knows of
      the peer's ports is not forgotten meanwhile. */
  lemma HandshakeEndsExactlyWhen(slots: seq<Slot>, a: Action, i: nat)
    requires TableInv(slots) && Enabled(slots, a) && i < |slots| && slots[i].begin != 0
    ensures var slots' := Apply(slots, a).slots;
            && |slots'| == |slots|
            && (slots'[i].begin == 0 <==> EndsHandshake(slots, a, i))
            && (slots'[i].begin != 0 ==>
                  && slots'[i].begin == slots[i].begin && slots'[i].remote == slots[i].remote
                  && (KnowsPeerPorts(slots[i]) ==> KnowsPeerPorts(slots'[i])))
  {
    hide FindMatchingEntry, EncodePorts, DecodePorts, ConnectTo, ConsumeRawUdpData;
    match a
    case Connect(remote, env) => ConnectGoesOn(slots, remote, env, i);
    case Packet(data, remote, env) => PacketGoesOn(slots, data, remote, env, i);
    case _ =>
  }

  lemma ConnectGoesOn(slots: seq<Slot>, remote: Address, env: Env, i: nat)
    requires TableInv(slots) && remote != 0 && env.Valid() && i < |slots| && slots[i].begin != 0
    ensures |ConnectTo(slots, remote, env).slots| == |slots| && ConnectTo(slots, remote, env).slots[i] == slots[i]
  {
    hide FindMatchingEntry, EncodePorts;
    FindMatchingEntryIsLookup(slots, remote);
  }

  lemma PacketGoesOn(slots: seq<Slot>, data: seq<byte>, remote: Address, env: Env, i: nat)
    requires TableInv(slots) && remote != 0 && env.Valid() && i < |slots| && slots[i].begin != 0
    ensures var slots' := ConsumeRawUdpData(slots, data, remote, env).slots;
            && |slots'| == |slots|
            && (slots'[i].begin == 0 <==> IsDeclined(slots[i], Packet(data, remote, env)))
            && (slots'[i].begin != 0 ==>
                  && slots'[i].begin == slots[i].begin && slots'[i].remote == slots[i].remote
                  && (KnowsPeerPorts(slots[i]) ==> KnowsPeerPorts(slots'[i])))
  {
    hide FindMatchingEntry, EncodePorts, DecodePorts;
    FindMatchingEntryIsLookup(slots, remote);
    var f := FindMatchingEntry(slots, remote);
    if slots[i].remote == remote {
      assert f.matching && f.index == i;
    }
  }

  /** From table k to table n of a run, entry i has a handshake in progress. */
  ghost predicate InHandshake(tables: seq<seq<Slot>>, actions: seq<Action>, i: nat, k: nat, n: nat) {
    && IsRun(tables, actions) && k <= n <= |actions| && i < MAX_CONNECTIONS
    && forall j :: k <= j <= n ==> i < |tables[j]| && tables[j][i].begin != 0
  }

  lemma {:induction false} SameHandshake(
      tables: seq<seq<Slot>>, actions: seq<Action>, i: nat, k: nat, j: nat, n: nat)
    requires InHandshake(tables, actions, i, k, n) && k <= j <= n
    ensures tables[j][i].begin == tables[k][i].begin
    ensures KnowsPeerPorts(tables[k][i]) ==> KnowsPeerPorts(tables[j][i])
  {
    hide Apply, Enabled, KnowsPeerPorts;
    if k < j {
      SameHandshake(tables, actions, i, k, j - 1, n);
      RunKeepsInv(tables, actions, j - 1);
      HandshakeEndsExactlyWhen(tables[j - 1], actions[j - 1], i);
    }
  }

  // ---- The socket that holds the client port

  /** A connection of our own to the peer is started. */
  ghost predicate Starts(effects: seq<Effect>, peer: Address) {
    exists e :: e in effects && e.StartConnection? && e.remote == peer
  }

  lemma StepReleasesExactlyWhen(slots: seq<Slot>, a: Action, i: nat)
    requires TableInv(slots) && Enabled(slots, a) && i < |slots| == |Apply(slots, a).slots|
    requires slots[i].begin != 0 && Apply(slots, a).slots[i].begin != 0
    ensures Apply(slots, a).slots[i].transient <==>
            slots[i].transient && !Starts(Apply(slots, a).effects, slots[i].remote)
  {
    hide FindMatchingEntry, EncodePorts, DecodePorts;
    match a
    case Connect(remote, _) => FindMatchingEntryIsLookup(slots, remote);
    case Packet(data, remote, env) => PacketReleasesExactlyWhen(slots, data, remote, env, i);
    case _ =>
  }

  lemma PacketReleasesExactlyWhen(slots: seq<Slot>, data: seq<byte>, remote: Address, env: Env, i: nat)
    requires TableInv(slots) && remote != 0 && env.Valid()
    requires i < |slots| == |ConsumeRawUdpData(slots, data, remote, env).slots|
    requires slots[i].begin != 0 && ConsumeRawUdpData(slots, data, remote, env).slots[i].begin != 0
    ensures var step := ConsumeRawUdpData(slots, data, remote, env);
            step.slots[i].transient <==> slots[i].transient && !Starts(step.effects, slots[i].remote)
  {
    hide FindMatchingEntry, EncodePorts, DecodePorts, Receive2nd, StartClient;
    FindMatchingEntryIsLookup(slots, remote);
    var f := FindMatchingEntry(slots, remote);
    if |data| == 8 && f.matching && slots[f.index].begin != 0 {
      var s, p := slots[f.index], DecodePorts(data);
      StartReleases(s, remote, env);
      StartReleases(SaveRemote(s, p), remote, env);
      ResponseStarts(s, p, remote, env);
    }
  }

  lemma StartReleases(s: Slot, remote: Address, env: Env)
    ensures var r := StartClient(s, remote, env);
            && (r.slot.transient <==> s.transient && !Starts(r.effects, remote) && r.slot != Reset(s))
            && (forall e :: e in r.effects && e.StartConnection? ==> e.remote == remote)
            && (r.slot == Reset(s) || r.slot.begin == s.begin)
  {
    var r := StartClient(s, remote, env);
    if |r.effects| == 2 {
      assert r.effects[1] in r.effects;
    }
  }

  lemma ResponseStarts(s: Slot, p: Ports, remote: Address, env: Env)
    ensures var r, started := Receive2nd(s, p, remote, env), StartClient(SaveRemote(s, p), remote, env);
            && r.slot == started.slot
            && forall e: Effect :: e.StartConnection? ==> (e in r.effects <==> e in started.effects)
  {
    hide EncodePorts, StartClient;
  }

  /** In every run an entry holds its client port's socket from the beginning of a handshake, and for as long as it goes on,
      exactly until a connection to the peer is started from that port. */
  lemma {:induction false} SocketHeldUntilStart(
      tables: seq<seq<Slot>>, actions: seq<Action>, i: nat, k: nat, n: nat)
    requires IsRun(tables, actions) && k < n <= |actions| && i < |tables[k]| && tables[k][i].begin == 0
    requires InHandshake(tables, actions, i, k + 1, n)
    ensures tables[n][i].transient <==>
            forall j :: k < j < n ==> !Starts(Apply(tables[j], actions[j]).effects, tables[k + 1][i].remote)
  {
    hide Apply, Enabled, Starts;
    RunKeepsInv(tables, actions, n - 1);
    RunKeepsInv(tables, actions, n);
    if n == k + 1 {
      HandshakeBeginsWithSocket(tables[k], actions[k], i);
    } else {
      SocketHeldUntilStart(tables, actions, i, k, n - 1);
      StepReleasesExactlyWhen(tables[n - 1], actions[n - 1], i);
      SamePeer(tables, actions, i, k + 1, n - 1, n);
    }
  }

  lemma {:induction false} SamePeer(tables: seq<seq<Slot>>, actions: seq<Action>, i: nat, k: nat, j: nat, n: nat)
    requires InHandshake(tables, actions, i, k, n) && k <= j <= n
    ensures tables[j][i].remote == tables[k][i].remote
  {
    hide Apply, Enabled;
    if k < j {
      SamePeer(tables, actions, i, k, j - 1, n);
      RunKeepsInv(tables, actions, j - 1);
      HandshakeEndsExactlyWhen(tables[j - 1], actions[j - 1], i);
    }
  }

  lemma HandshakeBeginsWithSocket(slots: seq<Slot>, a: Action, i: nat)
    requires TableInv(slots) && Enabled(slots, a) && i < |slots| == |Apply(slots, a).slots|
    requires slots[i].begin == 0 && Apply(slots, a).slots[i].begin != 0
    ensures Apply(slots, a).slots[i].transient && !Apply(slots, a).slots[i].selfOpen
  {
    hide FindMatchingEntry, EncodePorts, DecodePorts;
    match a
    case Connect(remote, _) => FindMatchingEntryIsLookup(slots, remote);
    case Packet(_, remote, _) => FindMatchingEntryIsLookup(slots, remote);
    case _ =>
  }

  // ---- Retries

  predicate Checks(a: Action, i: nat) {
    a.Check? && a.i == i
  }

  /** The daemon's checks of an entry come at least four seconds apart. */
  ghost predicate ChecksApart(actions: seq<Action>, i: nat, k: nat, n: nat)
    requires k <= n <= |actions|
  {
    forall j, l :: k <= j < l < n && Checks(actions[j], i) && Checks(actions[l], i) ==>
      actions[l].now >= actions[j].now + 4_000_000_000
  }

  predicate IsRetry(slots: seq<Slot>, a: Action, i: nat) {
    Checks(a, i) && i < |slots| && Judge(slots[i], a.now) == Retry
  }

  /** The retries of entry i between table k and table n. */
  function Retries(tables: seq<seq<Slot>>, actions: seq<Action>, i: nat, k: nat, n: nat): nat
    requires k <= n <= |actions| < |tables|
  {
    if n == k then 0
    else Retries(tables, actions, i, k, n - 1) + (if IsRetry(tables[n - 1], actions[n - 1], i) then 1 else 0)
  }

  /** The n-th retry comes at least 3.998 s and n - 1 gaps of four seconds after the beginning. */
  lemma {:induction false} LastRetry(tables: seq<seq<Slot>>, actions: seq<Action>, i: nat, k: nat, n: nat)
      returns (j: nat)
    requires InHandshake(tables, actions, i, k, n) && ChecksApart(actions, i, k, n)
    requires Retries(tables, actions, i, k, n) > 0
    ensures k <= j < n && IsRetry(tables[j], actions[j], i)
    ensures actions[j].now - tables[k][i].begin
         >= RETRY_AFTER + 4_000_000_000 * (Retries(tables, actions, i, k, n) - 1)
  {
    hide Apply, Enabled, KnowsPeerPorts;
    var last := IsRetry(tables[n - 1], actions[n - 1], i);
    if Retries(tables, actions, i, k, n - 1) > 0 {
      j := LastRetry(tables, actions, i, k, n - 1);
    }
    if last {
      SameHandshake(tables, actions, i, k, n - 1, n);
      j := n - 1;
    }
  }

  /** In every run, with an entry's checks at least four seconds apart, a handshake is retried at most 15 times, and at
      most 3 times if the peer's ports are known from the start. */
  lemma RetriesAreBounded(tables: seq<seq<Slot>>, actions: seq<Action>, i: nat, k: nat, n: nat)
    requires InHandshake(tables, actions, i, k, n) && ChecksApart(actions, i, k, n)
    ensures Retries(tables, actions, i, k, n) <= (if KnowsPeerPorts(tables[k][i]) then 3 else 15)
  {
    hide Apply, Enabled, Initial;
    if Retries(tables, actions, i, k, n) > 0 {
      var j := LastRetry(tables, actions, i, k, n);
      SameHandshake(tables, actions, i, k, j, n);
    }
  }

  /** A first action that takes entry 0, and n checks of it every four seconds from 3.998 s on. */
  function ThenChecks(a: Action, begin: nat, n: nat): (actions: seq<Action>)
    ensures |actions| == n + 1 && actions[0] == a
  {
    [a] + seq(n, j requires 0 <= j => Check(0, begin + RETRY_AFTER + 4_000_000_000 * j))
  }

  lemma CheckRetries(slots: seq<Slot>, now: nat)
    requires slots != [] && Judge(slots[0], now) == Retry
    ensures Enabled(slots, Check(0, now)) && Apply(slots, Check(0, now)).slots == slots
  {
    hide EncodePorts;
    assert slots[0 := slots[0]] == slots;
  }

  lemma {:induction false} EveryCheckRetries(
      a: Action, slots: seq<Slot>, n: nat) returns (tables: seq<seq<Slot>>, actions: seq<Action>)
    requires Enabled(Initial(), a) && slots == Apply(Initial(), a).slots
    requires |slots| == MAX_CONNECTIONS && slots[0].begin != 0
    requires n <= (if KnowsPeerPorts(slots[0]) then 3 else 15)
    ensures actions == ThenChecks(a, slots[0].begin, n)
    ensures InHandshake(tables, actions, 0, 1, n + 1) && Retries(tables, actions, 0, 1, n + 1) == n
    ensures tables[1] == tables[n + 1] == slots
  {
    hide Apply, Enabled, Initial, KnowsPeerPorts;
    actions := ThenChecks(a, slots[0].begin, n);
    if n == 0 {
      tables := [Initial(), slots];
    } else {
      var before, init := EveryCheckRetries(a, slots, n - 1);
      var now := slots[0].begin + RETRY_AFTER + 4_000_000_000 * (n - 1);
      assert actions == init + [Check(0, now)];
      assert Judge(slots[0], now) == Retry;
      CheckRetries(slots, now);
      tables := before + [slots];
      RetriesOfPrefix(before, init, tables, actions, 0, 1, n);
    }
  }

  lemma {:induction false} RetriesOfPrefix(
      tables: seq<seq<Slot>>, actions: seq<Action>, tables': seq<seq<Slot>>, actions': seq<Action>,
      i: nat, k: nat, n: nat)
    requires tables <= tables' && actions <= actions'
    requires k <= n <= |actions| < |tables| && |actions'| < |tables'|
    ensures Retries(tables', actions', i, k, n) == Retries(tables, actions, i, k, n)
  {
    if n > k {
      RetriesOfPrefix(tables, actions, tables', actions', i, k, n - 1);
    }
  }

  /** Both bounds are reached: by dialling any peer and by the request of any peer. */
  lemma RetryBoundsAreReached(remote: Address, env: Env, x: u16, y: u16)
      returns (tables: seq<seq<Slot>>, actions: seq<Action>, tables': seq<seq<Slot>>, actions': seq<Action>)
    requires remote != 0 && env.Valid() && env.bound.Some? && (x != 0 || y != 0)
    ensures InHandshake(tables, actions, 0, 1, 16) && ChecksApart(actions, 0, 1, 16)
    ensures actions[0] == Connect(remote, env) && Retries(tables, actions, 0, 1, 16) == 15
    ensures InHandshake(tables', actions', 0, 1, 4) && ChecksApart(actions', 0, 1, 4)
    ensures actions'[0] == Packet(EncodePorts(x, y, 0, 0), remote, env) && Retries(tables', actions', 0, 1, 4) == 3
    ensures KnowsPeerPorts(tables'[1][0])
  {
    hide EncodePorts, DecodePorts, FindMatchingEntry, Retries;
    var dial, request := Connect(remote, env), Packet(EncodePorts(x, y, 0, 0), remote, env);
    FirstEntryIsFound(remote);
    PortsRoundTrip(x, y, 0, 0);
    tables, actions := EveryCheckRetries(dial, Apply(Initial(), dial).slots, 15);
    tables', actions' := EveryCheckRetries(request, Apply(Initial(), request).slots, 3);
  }

  lemma FirstEntryIsFound(remote: Address)
    requires remote != 0
    ensures FindMatchingEntry(Initial(), remote) == Found(false, 0)
  {
    FindMatchingEntryIsLookup(Initial(), remote);
    assert IsEmpty(Initial()[0]);
  }

  // ---- Time-outs

  /** The clock shows when each action takes place; it does not go back. */
  ghost predicate Clocked(actions: seq<Action>, clock: seq<nat>) {
    && |clock| == |actions|
    && (forall j, l :: 0 <= j <= l < |clock| ==> clock[j] <= clock[l])
    && forall j :: 0 <= j < |actions| ==>
         match actions[j]
         case Connect(_, env) => env.now == clock[j]
         case Packet(_, _, env) => env.now == clock[j]
         case Check(_, now) => now == clock[j]
         case _ => true
  }

  /** More than a delay after any action, a check of the entry has come in between, within the delay. */
  ghost predicate CheckedEvery(actions: seq<Action>, clock: seq<nat>, i: nat, delay: nat)
    requires |clock| == |actions|
  {
    forall k, n :: 0 <= k < n < |actions| && clock[n] > clock[k] + delay ==>
      exists c :: k < c < n && Checks(actions[c], i) && clock[c] + delay >= clock[n]
  }

  /** A handshake begins at the time of its first action. */
  lemma HandshakeBeginsNow(slots: seq<Slot>, a: Action, i: nat)
    requires TableInv(slots) && Enabled(slots, a) && i < |slots| == |Apply(slots, a).slots|
    requires slots[i].begin == 0 && Apply(slots, a).slots[i].begin != 0
    ensures (a.Connect? || a.Packet?) && Apply(slots, a).slots[i].begin == a.env.now
  {
    hide FindMatchingEntry, EncodePorts, DecodePorts;
    match a
    case Connect(remote, _) => FindMatchingEntryIsLookup(slots, remote);
    case Packet(_, remote, _) => FindMatchingEntryIsLookup(slots, remote);
    case _ =>
  }

  /** No check within a handshake comes after its time-out. */
  lemma NoLateCheck(tables: seq<seq<Slot>>, actions: seq<Action>, i: nat, k: nat, c: nat, n: nat)
    requires InHandshake(tables, actions, i, k, n) && k <= c < n && Checks(actions[c], i)
    ensures !TimesOut(tables[c][i], actions[c].now)
  {
    hide Apply, TimesOut;
    RunKeepsInv(tables, actions, c);
    HandshakeEndsExactlyWhen(tables[c], actions[c], i);
    assert tables[c + 1][i].begin != 0;
  }

  /** A handshake is looked at, in time, whenever it has lasted for more than the delay. */
  lemma LatestCheck(
      tables: seq<seq<Slot>>, actions: seq<Action>, clock: seq<nat>, i: nat, delay: nat, k: nat, n: nat)
      returns (c: nat)
    requires IsRun(tables, actions) && Clocked(actions, clock) && CheckedEvery(actions, clock, i, delay)
    requires k < n < |actions| && i < |tables[k]| && tables[k][i].begin == 0
    requires InHandshake(tables, actions, i, k + 1, n)
    requires clock[n] > clock[k] + delay
    ensures k < c < n && clock[c] + delay >= clock[n]
    ensures var s := tables[c][i]; s.begin == clock[k] && !TimesOut(s, clock[c])
  {
    hide Apply, Enabled, KnowsPeerPorts, TimesOut, TableInv;
    RunKeepsInv(tables, actions, k);
    RunKeepsInv(tables, actions, k + 1);
    HandshakeBeginsNow(tables[k], actions[k], i);
    c :| k < c < n && Checks(actions[c], i) && clock[c] + delay >= clock[n];
    SameHandshake(tables, actions, i, k + 1, c, n);
    NoLateCheck(tables, actions, i, k + 1, c, n);
  }

  /** In every run in which an entry is checked at least every delay, a handshake that action k begins is over no later
      than the delay after 59.998 s, and, if the peer's ports are known at table m, no later than the delay after both
      11.998 s and the time of action m. */
  lemma NoHandshakeOutlivesTheStops(
      tables: seq<seq<Slot>>, actions: seq<Action>, clock: seq<nat>, i: nat, delay: nat, k: nat, m: nat, n: nat)
    requires IsRun(tables, actions) && Clocked(actions, clock) && CheckedEvery(actions, clock, i, delay)
    requires k < m <= n < |actions| && i < |tables[k]| && tables[k][i].begin == 0
    requires InHandshake(tables, actions, i, k + 1, n)
    ensures clock[n] <= clock[k] + 59_998_000_000 + delay
    ensures KnowsPeerPorts(tables[m][i]) ==> clock[n] <= Receiver.Max(clock[k] + 11_998_000_000, clock[m]) + delay
  {
    hide Apply, Enabled, Initial, CheckedEvery;
    if clock[n] > clock[k] + delay {
      var c := LatestCheck(tables, actions, clock, i, delay, k, n);
      if KnowsPeerPorts(tables[m][i]) && clock[c] > clock[m] {
        SameHandshake(tables, actions, i, m, c, n);
      }
    }
  }
}
