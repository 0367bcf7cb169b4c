/** The port exchange among any number of sessions over a network that loses, duplicates and reorders packets. Between two
    sessions neither of which has reset its entry for the other, whoever opens a connection holds exactly the ports its
    peer has reserved, whatever happens to other entries. */
module PortAgreement {
  import opened Words
  import opened Session
  import opened SlotTable

  /** A packet that was sent. Until it expires it may arrive any number of times, or never. */
  datatype Datagram = Datagram(src: Address, dst: Address, data: seq<byte>)

  /** A session passed StartClient's guard and opened a connection with these ports saved. */
  datatype Opening = Opening(at: Address, remote: Address, ports: Ports)

  /** A session and the peer one of its entries is for. */
  type Pair = (Address, Address)

  /** reset records the entries that have lost their peer so far, and failed those whose own connection was shut down with
      the handshake still in progress. */
  datatype World = World(
    tables: map<Address, seq<Slot>>,
    listeners: map<Address, u16>,
    net: set<Datagram>,
    openings: seq<Opening>,
    reset: set<Pair>,
    failed: set<Pair>)

  datatype Move =
    | Dial(at: Address, remote: Address, env: Env)
    | Deliver(packet: Datagram, env: Env)
    | Stray(at: Address, from: Address, data: seq<byte>, env: Env)
    | Recheck(at: Address, i: nat, now: nat)
    | Report(at: Address, i: nat)
    | Shut(at: Address, i: nat, client: bool)
    | Discard(at: Address, i: nat)
    | Expire(packet: Datagram)

  predicate EnvAt(w: World, at: Address, env: Env) {
    at in w.listeners && env.Valid() && env.listener == w.listeners[at]
  }

  /** Packets arrive from sessions that sent them, or from elsewhere with any contents; retry checks, connection events
      and the user dropping a channel can happen at any time. */
  predicate Enabled(w: World, m: Move) {
    match m
    case Dial(at, remote, env) => at in w.tables && remote != 0 && EnvAt(w, at, env)
    case Deliver(d, env) => d in w.net && d.dst in w.tables && EnvAt(w, d.dst, env)
    case Stray(at, from, _, env) => at in w.tables && from != 0 && from !in w.tables && EnvAt(w, at, env)
    case Recheck(at, i, _) => at in w.tables && i < |w.tables[at]|
    case Report(at, i) => at in w.tables && i < |w.tables[at]|
    case Shut(at, i, _) => at in w.tables && i < |w.tables[at]|
    case Discard(at, i) => at in w.tables && i < |w.tables[at]|
    case Expire(d) => d in w.net && d.src in w.tables
  }

  function StepAt(w: World, m: Move): (Address, Step)
    requires Enabled(w, m)
  {
    match m
    case Dial(at, remote, env) => (at, ConnectTo(w.tables[at], remote, env))
    case Deliver(d, env) => (d.dst, ConsumeRawUdpData(w.tables[d.dst], d.data, d.src, env))
    case Stray(at, from, data, env) => (at, ConsumeRawUdpData(w.tables[at], data, from, env))
    case Recheck(at, i, now) => (at, Put(w.tables[at], i, DoCheck(w.tables[at][i], now)))
    case Report(at, i) => (at, Put(w.tables[at], i, Result(Connected(w.tables[at][i]), [])))
    case Shut(at, i, client) => (at, Put(w.tables[at], i, ShutdownComplete(w.tables[at][i], client)))
    case Discard(at, i) => (at, Put(w.tables[at], i, Result(Reset(w.tables[at][i]), [])))
    case Expire(d) => (d.src, Step(w.tables[d.src], []))
  }

  function PacketsOf(at: Address, effects: seq<Effect>): set<Datagram> {
    set e | e in effects && e.SendPorts? :: Datagram(at, e.to, e.data)
  }

  function OpeningsOf(at: Address, effects: seq<Effect>): seq<Opening> {
    if effects == [] then []
    else (if effects[0].OpenClient? then [Opening(at, effects[0].remote, effects[0].ports)] else [])
         + OpeningsOf(at, effects[1..])
  }

  /** The entries that lose their peer. */
  function Released(at: Address, slots: seq<Slot>, slots': seq<Slot>): set<Pair> {
    set i | 0 <= i < |slots| && i < |slots'| && slots[i].remote != 0 && slots'[i].remote != slots[i].remote
      :: (at, slots[i].remote)
  }

  /** The entry whose own connection is shut down before it came up. */
  function Failures(w: World, m: Move): set<Pair>
    requires Enabled(w, m)
  {
    if m.Shut? && m.client && w.tables[m.at][m.i].begin != 0 then {(m.at, w.tables[m.at][m.i].remote)} else {}
  }

  function Expired(m: Move): set<Datagram> {
    if m.Expire? then {m.packet} else {}
  }

  function Next(w: World, m: Move): World
    requires Enabled(w, m)
  {
    var (at, step) := StepAt(w, m);
    w.(tables := w.tables[at := step.slots],
       net := w.net + PacketsOf(at, step.effects) - Expired(m),
       openings := w.openings + OpeningsOf(at, step.effects),
       reset := w.reset + Released(at, w.tables[at], step.slots),
       failed := w.failed + Failures(w, m))
  }

  /** Neither session has reset its entry for the other. */
  predicate Intact(w: World, a: Address, b: Address) {
    (a, b) !in w.reset && (b, a) !in w.reset
  }

  // ---- Entries

  /** The entry a session has for a peer. */
  function EntryIn(slots: seq<Slot>, peer: Address): Option<Slot> {
    FindMatchingEntryIsLookup(slots, peer);
    var f := FindMatchingEntry(slots, peer);
    if f.matching then Some(slots[f.index]) else None
  }

  function Entry(w: World, at: Address, peer: Address): Option<Slot> {
    if at in w.tables then EntryIn(w.tables[at], peer) else None
  }

  lemma EntryIsTheSlot(slots: seq<Slot>, i: nat)
    requires TableInv(slots) && i < |slots| && slots[i].remote != 0
    ensures EntryIn(slots, slots[i].remote) == Some(slots[i])
  {
    hide FindMatchingEntry, SlotInv;
    FindMatchingEntryIsLookup(slots, slots[i].remote);
  }

  /** Changing one entry changes what is found for its old and new peer only. */
  lemma EntryAfterChange(slots: seq<Slot>, i: nat, s': Slot, peer: Address)
    requires i < |slots| && peer != 0 && TableInv(slots) && TableInv(slots[i := s'])
    requires slots[i].remote == s'.remote || slots[i].remote == 0 || s'.remote == 0
    ensures EntryIn(slots[i := s'], peer)
         == (if peer == s'.remote then Some(s') else if peer == slots[i].remote then None else EntryIn(slots, peer))
  {
    hide FindMatchingEntry, SlotInv;
    var slots' := slots[i := s'];
    FindMatchingEntryIsLookup(slots, peer);
    FindMatchingEntryIsLookup(slots', peer);
    var f, f' := FindMatchingEntry(slots, peer), FindMatchingEntry(slots', peer);
    if f.matching && f.index != i {
      assert slots'[f.index].remote == peer;
    }
    if f'.matching && f'.index != i {
      assert slots[f'.index].remote == peer;
    }
    assert slots'[i] == s';
  }

  // ---- The invariant

  /** What two entries for each other agree on once one of them knows ports: it knows those the other reserved. */
  predicate KnowsReserved(s: Slot, t: Option<Slot>) {
    KnowsPeerPorts(s) ==>
      && t.Some?
      && s.ports.remoteServer == t.value.ports.localServer
      && s.ports.remoteClient == t.value.ports.localClient
  }

  predicate EntryInv(w: World, at: Address, peer: Address) {
    at in w.tables && Entry(w, at, peer).Some? ==>
      var s := Entry(w, at, peer).value;
      && at in w.listeners && w.listeners[at] != 0 && s.ports.localServer == w.listeners[at]
      && (peer in w.tables && Intact(w, at, peer) ==> KnowsReserved(s, Entry(w, peer, at)))
  }

  predicate Theirs(p: Ports) {
    p.remoteServer != 0 || p.remoteClient != 0
  }

  predicate Ours(p: Ports) {
    p.localServer != 0 || p.localClient != 0
  }

  /** A packet between intact entries carries its sender's reserved ports or none, and its receiver's or none; a response
      shows that its sender knows the receiver's ports, and an acknowledgement that its receiver knows the
      sender's. s and t are the sender's and the receiver's entries for each other. */
  predicate PortsInv(p: Ports, s: Option<Slot>, t: Option<Slot>) {
    && s.Some?
    && (Theirs(p) ==> p.remoteServer == s.value.ports.localServer && p.remoteClient == s.value.ports.localClient)
    && (Ours(p) ==>
          && t.Some?
          && p.localServer == t.value.ports.localServer && p.localClient == t.value.ports.localClient
          && (if Theirs(p) then KnowsPeerPorts(s.value) else KnowsPeerPorts(t.value)))
  }

  predicate PacketInv(w: World, d: Datagram) {
    && |d.data| == 8 && d.src in w.tables && d.src != 0 && d.dst != 0
    && (d.dst in w.tables && Intact(w, d.src, d.dst) ==>
          PortsInv(DecodePorts(d.data), Entry(w, d.src, d.dst), Entry(w, d.dst, d.src)))
  }

  /** Nothing opens another connection: there is one, or the handshake is over. */
  predicate Opened(s: Slot) {
    s.selfOpen || s.begin == 0
  }

  predicate MayReopen(w: World, pair: Pair) {
    pair in w.reset || pair in w.failed
  }

  /** An opening rules out another one by the same entry, and was made with the peer's reserved ports. */
  predicate OpeningInv(w: World, o: Opening) {
    && o.remote != 0 && o.at in w.tables
    && (!MayReopen(w, (o.at, o.remote)) ==> Entry(w, o.at, o.remote).Some? && Opened(Entry(w, o.at, o.remote).value))
    && (o.remote in w.tables && Intact(w, o.at, o.remote) ==>
          && Entry(w, o.remote, o.at).Some?
          && var t := Entry(w, o.remote, o.at).value;
             o.ports.remoteServer == t.ports.localServer && o.ports.remoteClient == t.ports.localClient)
  }

  predicate OpeningsApart(w: World, o: Opening, p: Opening) {
    o.at == p.at && o.remote == p.remote ==> MayReopen(w, (o.at, o.remote))
  }

  ghost predicate Inv(w: World) {
    && 0 !in w.tables
    && (forall a :: a in w.tables ==> TableInv(w.tables[a]) && a in w.listeners && w.listeners[a] != 0)
    && (forall a, b :: b != 0 ==> EntryInv(w, a, b))
    && (forall d :: d in w.net ==> PacketInv(w, d))
    && (forall k :: 0 <= k < |w.openings| ==> OpeningInv(w, w.openings[k]))
    && (forall j, k :: 0 <= j < k < |w.openings| ==> OpeningsApart(w, w.openings[j], w.openings[k]))
  }

  // ---- What a handler may do to an entry

  /** How an entry develops that keeps its peer: its local ports stay, and what is known stays known. */
  predicate Evolves(o: Option<Slot>, o': Option<Slot>) {
    o.Some? ==>
      && o'.Some?
      && o'.value.ports.localServer == o.value.ports.localServer
      && o'.value.ports.localClient == o.value.ports.localClient
      && (KnowsPeerPorts(o.value) ==> KnowsPeerPorts(o'.value))
  }

  predicate StaysOpened(o: Option<Slot>, o': Option<Slot>) {
    o.Some? && Opened(o.value) ==> o'.Some? && Opened(o'.value)
  }

  /** The peer's entry for us; a session may also be its own peer. */
  function Back(w: World, at: Address, s': Slot): Option<Slot> {
    if s'.remote == at then Some(s') else Entry(w, s'.remote, at)
  }

  /** The peer of an entry that changes: the one it has afterwards, or the one it lost. */
  function PeerOf(s: Slot, s': Slot): Address {
    if s'.remote != 0 then s'.remote else s.remote
  }

  predicate GoodEffect(w: World, at: Address, s: Slot, s': Slot, e: Effect) {
    match e
    case SendPorts(to, data) =>
      && to != 0 && to == PeerOf(s, s') && |data| == 8
      && (s'.remote != 0 && to in w.tables && Intact(w, at, to) ==>
            PortsInv(DecodePorts(data), Some(s'), Back(w, at, s')))
    case OpenClient(remote, ports) =>
      && remote != 0 && remote == PeerOf(s, s')
      && (s'.remote != 0 ==>
            && !Opened(s) && s.remote == remote && Opened(s')
            && (remote in w.tables && Intact(w, at, remote) ==>
                  && Back(w, at, s').Some?
                  && ports.remoteServer == Back(w, at, s').value.ports.localServer
                  && ports.remoteClient == Back(w, at, s').value.ports.localClient))
    case _ => true
  }

  /** The entry keeps its peer, loses it, or gains one that had no entry; with a peer, it develops as above. f holds the
      entry if its own connection fails. */
  ghost predicate GoodChange(w: World, at: Address, i: nat, r: Result, f: set<Pair>) {
    && at in w.tables && i < |w.tables[at]|
    && var s, s' := w.tables[at][i], r.slot;
       && SlotInv(s')
       && (s.remote == s'.remote || s'.remote == 0 || (s.remote == 0 && Entry(w, at, s'.remote).None?))
       && (s'.remote != 0 ==>
             && at in w.listeners && s'.ports.localServer == w.listeners[at]
             && (s.remote != 0 ==> Evolves(Some(s), Some(s')))
             && (s.remote != 0 && (at, s.remote) !in f ==> StaysOpened(Some(s), Some(s')))
             && (s'.remote in w.tables && Intact(w, at, s'.remote) ==> KnowsReserved(s', Back(w, at, s'))))
       && (forall e :: e in r.effects ==> GoodEffect(w, at, s, s', e))
       && |OpeningsOf(at, r.effects)| <= 1
  }

  function ReleasedOne(at: Address, s: Slot, s': Slot): set<Pair> {
    if s.remote != 0 && s'.remote != s.remote then {(at, s.remote)} else {}
  }

  lemma OneReleased(at: Address, slots: seq<Slot>, i: nat, s': Slot)
    requires i < |slots|
    ensures Released(at, slots, slots[i := s']) == ReleasedOne(at, slots[i], s')
  {
  }

  function Changed(w: World, at: Address, i: nat, r: Result, f: set<Pair>): World
    requires at in w.tables && i < |w.tables[at]|
  {
    w.(tables := w.tables[at := w.tables[at][i := r.slot]],
       net := w.net + PacketsOf(at, r.effects),
       openings := w.openings + OpeningsOf(at, r.effects),
       reset := w.reset + ReleasedOne(at, w.tables[at][i], r.slot),
       failed := w.failed + f)
  }

  lemma {:induction false} OpeningsComeFromEffects(at: Address, effects: seq<Effect>)
    ensures forall k :: 0 <= k < |OpeningsOf(at, effects)| ==>
      var o := OpeningsOf(at, effects)[k]; o.at == at && OpenClient(o.remote, o.ports) in effects
  {
    if effects != [] {
      OpeningsComeFromEffects(at, effects[1..]);
    }
  }

  /** What is found after a change. */
  lemma EntriesAfter(w: World, at: Address, i: nat, r: Result, f: set<Pair>)
    requires Inv(w) && GoodChange(w, at, i, r, f)
    ensures var w' := Changed(w, at, i, r, f);
            && TableInv(w'.tables[at])
            && forall a, b :: b != 0 ==>
                 Entry(w', a, b) == (if a == at && b == r.slot.remote then Some(r.slot)
                                     else if a == at && b == w.tables[at][i].remote then None
                                     else Entry(w, a, b))
  {
    hide EntryInv, PacketInv, OpeningInv, EntryIn, GoodEffect, KnowsReserved, SlotInv;
    var slots, slots' := w.tables[at], w.tables[at][i := r.slot];
    assert TableInv(slots') by {
      if slots[i].remote != r.slot.remote && r.slot.remote != 0 {
        NoneMeansAbsent(slots, r.slot.remote);
      }
    }
    forall b | b != 0
      ensures EntryIn(slots', b) == (if b == r.slot.remote then Some(r.slot)
                                     else if b == slots[i].remote then None else EntryIn(slots, b))
    {
      EntryAfterChange(slots, i, r.slot, b);
    }
  }

  lemma NoneMeansAbsent(slots: seq<Slot>, peer: Address)
    requires EntryIn(slots, peer).None?
    ensures forall j :: 0 <= j < |slots| ==> slots[j].remote != peer
  {
    FindMatchingEntryIsLookup(slots, peer);
  }

  /** Entries that are not reset develop, and stay opened unless their connection fails. */
  lemma EntriesEvolve(w: World, at: Address, i: nat, r: Result, f: set<Pair>)
    requires Inv(w) && GoodChange(w, at, i, r, f)
    ensures var w' := Changed(w, at, i, r, f);
            && (forall a: Address, b: Address :: b != 0 && (a, b) !in w'.reset ==>
                  Evolves(Entry(w, a, b), Entry(w', a, b)))
            && (forall a: Address, b: Address :: b != 0 && !MayReopen(w', (a, b)) ==>
                  StaysOpened(Entry(w, a, b), Entry(w', a, b)))
  {
    hide EntryInv, PacketInv, OpeningInv, EntryIn, GoodEffect, KnowsReserved;
    EntriesAfter(w, at, i, r, f);
    var slots := w.tables[at];
    if slots[i].remote != 0 {
      EntryIsTheSlot(slots, i);
    }
  }

  lemma ChangeKeepsEntryInv(w: World, at: Address, i: nat, r: Result, f: set<Pair>, a: Address, b: Address)
    requires Inv(w) && GoodChange(w, at, i, r, f) && b != 0
    ensures EntryInv(Changed(w, at, i, r, f), a, b)
  {
    hide PacketInv, OpeningInv, EntryIn, GoodEffect;
    EntriesAfter(w, at, i, r, f);
    EntriesEvolve(w, at, i, r, f);
    assert EntryInv(w, a, b);
    assert a in w.tables ==> a != 0;
  }

  lemma PortsInvEvolves(p: Ports, s: Option<Slot>, t: Option<Slot>, s': Option<Slot>, t': Option<Slot>)
    requires PortsInv(p, s, t) && Evolves(s, s') && Evolves(t, t')
    ensures PortsInv(p, s', t')
  {
  }

  lemma ChangeKeepsPacketInv(w: World, at: Address, i: nat, r: Result, f: set<Pair>, d: Datagram)
    requires Inv(w) && GoodChange(w, at, i, r, f) && d in Changed(w, at, i, r, f).net
    ensures PacketInv(Changed(w, at, i, r, f), d)
  {
    hide EntryInv, OpeningInv, EntryIn, DecodePorts, PortsInv, Evolves;
    var w' := Changed(w, at, i, r, f);
    EntriesAfter(w, at, i, r, f);
    EntriesEvolve(w, at, i, r, f);
    if d in w.net {
      assert PacketInv(w, d);
      if d.dst in w.tables && Intact(w', d.src, d.dst) {
        PortsInvEvolves(DecodePorts(d.data), Entry(w, d.src, d.dst), Entry(w, d.dst, d.src),
                        Entry(w', d.src, d.dst), Entry(w', d.dst, d.src));
      }
    } else {
      var e :| e in r.effects && e.SendPorts? && d == Datagram(at, e.to, e.data);
      assert GoodEffect(w, at, w.tables[at][i], r.slot, e);
    }
  }

  lemma ChangeKeepsOpeningInv(w: World, at: Address, i: nat, r: Result, f: set<Pair>, k: nat)
    requires Inv(w) && GoodChange(w, at, i, r, f) && k < |Changed(w, at, i, r, f).openings|
    ensures OpeningInv(Changed(w, at, i, r, f), Changed(w, at, i, r, f).openings[k])
  {
    hide EntryInv, PacketInv, EntryIn, PortsInv;
    var w' := Changed(w, at, i, r, f);
    EntriesAfter(w, at, i, r, f);
    EntriesEvolve(w, at, i, r, f);
    var o := w'.openings[k];
    if k < |w.openings| {
      assert o == w.openings[k] && OpeningInv(w, o);
      assert o.at in w.tables ==> o.at != 0;
    } else {
      OpeningsComeFromEffects(at, r.effects);
      assert GoodEffect(w, at, w.tables[at][i], r.slot, OpenClient(o.remote, o.ports));
    }
  }

  lemma ChangeKeepsOpeningsApart(w: World, at: Address, i: nat, r: Result, f: set<Pair>, j: nat, k: nat)
    requires Inv(w) && GoodChange(w, at, i, r, f) && j < k < |Changed(w, at, i, r, f).openings|
    ensures var w' := Changed(w, at, i, r, f);
            OpeningsApart(w', w'.openings[j], w'.openings[k])
  {
    hide EntryInv, PacketInv, EntryIn, PortsInv, Evolves;
    var w' := Changed(w, at, i, r, f);
    if k < |w.openings| {
      assert OpeningsApart(w, w.openings[j], w.openings[k]);
    } else {
      OpeningsComeFromEffects(at, r.effects);
      var o := w'.openings[k];
      assert GoodEffect(w, at, w.tables[at][i], r.slot, OpenClient(o.remote, o.ports));
      assert j < |w.openings| && OpeningInv(w, w.openings[j]);
      if r.slot.remote != 0 {
        EntryIsTheSlot(w.tables[at], i);
      }
    }
  }

  lemma ChangeKeepsInv(w: World, at: Address, i: nat, r: Result, f: set<Pair>)
    requires Inv(w) && GoodChange(w, at, i, r, f)
    ensures Inv(Changed(w, at, i, r, f))
  {
    var w' := Changed(w, at, i, r, f);
    EntriesAfter(w, at, i, r, f);
    hide EntryInv, PacketInv, OpeningInv, OpeningsApart, GoodChange, TableInv, PacketsOf, OpeningsOf;
    forall a, b | b != 0 ensures EntryInv(w', a, b) {
      ChangeKeepsEntryInv(w, at, i, r, f, a, b);
    }
    forall d | d in w'.net ensures PacketInv(w', d) {
      ChangeKeepsPacketInv(w, at, i, r, f, d);
    }
    forall k | 0 <= k < |w'.openings| ensures OpeningInv(w', w'.openings[k]) {
      ChangeKeepsOpeningInv(w, at, i, r, f, k);
    }
    forall j, k | 0 <= j < k < |w'.openings| ensures OpeningsApart(w', w'.openings[j], w'.openings[k]) {
      ChangeKeepsOpeningsApart(w, at, i, r, f, j, k);
    }
  }

  // ---- Every move is a good change

  /** A step that leaves the world as it is, or changes one entry well. */
  ghost predicate GoodStep(w: World, at: Address, step: Step, f: set<Pair>) {
    at in w.tables &&
    (|| (step == Step(w.tables[at], []) && f == {})
     || exists i: nat, r: Result :: GoodChange(w, at, i, r, f) && step == Put(w.tables[at], i, r))
  }

  lemma NextIsChanged(w: World, m: Move, i: nat, r: Result)
    requires Enabled(w, m) && !m.Expire?
    requires var (at, step) := StepAt(w, m);
             at in w.tables && i < |w.tables[at]| && step == Put(w.tables[at], i, r)
    ensures Next(w, m) == Changed(w, StepAt(w, m).0, i, r, Failures(w, m))
  {
    hide StepAt, Enabled, Failures, OpeningsOf, PacketsOf, Released;
    var at := StepAt(w, m).0;
    OneReleased(at, w.tables[at], i, r.slot);
    assert w.net + PacketsOf(at, r.effects) - Expired(m) == w.net + PacketsOf(at, r.effects);
  }

  lemma StepOfNothing(w: World, m: Move)
    requires Enabled(w, m) && !m.Expire? && Failures(w, m) == {}
    requires var (at, step) := StepAt(w, m); at in w.tables && step == Step(w.tables[at], [])
    ensures Next(w, m) == w
  {
    hide StepAt, Enabled, Failures;
    var at := StepAt(w, m).0;
    assert w.tables[at := w.tables[at]] == w.tables;
    assert Released(at, w.tables[at], w.tables[at]) == {};
    assert PacketsOf(at, []) == {} && OpeningsOf(at, []) == [];
  }

  lemma GoodStepKeepsInv(w: World, m: Move)
    requires Inv(w) && Enabled(w, m) && GoodStep(w, StepAt(w, m).0, StepAt(w, m).1, Failures(w, m)) && !m.Expire?
    ensures Inv(Next(w, m))
  {
    var (at, step) := StepAt(w, m);
    var f := Failures(w, m);
    hide Inv, StepAt, Enabled, GoodChange, Failures, Next;
    if step == Step(w.tables[at], []) && f == {} {
      StepOfNothing(w, m);
    } else {
      var i: nat, r: Result :| GoodChange(w, at, i, r, f) && step == Put(w.tables[at], i, r);
      assert at in w.tables && i < |w.tables[at]| by { GoodChangeInRange(w, at, i, r, f); }
      ChangeKeepsInv(w, at, i, r, f);
      NextIsChanged(w, m, i, r);
    }
  }

  lemma GoodChangeInRange(w: World, at: Address, i: nat, r: Result, f: set<Pair>)
    requires GoodChange(w, at, i, r, f)
    ensures at in w.tables && i < |w.tables[at]|
  {
  }

  lemma MatchIsEntry(w: World, at: Address, peer: Address)
    requires Inv(w) && at in w.tables && peer != 0
    ensures var slots := w.tables[at];
            var f := FindMatchingEntry(slots, peer);
            && (f.matching ==> 0 <= f.index < |slots| && slots[f.index].remote == peer
                               && Entry(w, at, peer) == Some(slots[f.index]))
            && (!f.matching ==> Entry(w, at, peer).None? && (f.index == -1 || 0 <= f.index < |slots|))
            && (!f.matching && f.index >= 0 ==> IsEmpty(slots[f.index]) && slots[f.index].remote == 0)
  {
    hide EntryInv, PacketInv, OpeningInv;
    var slots := w.tables[at];
    var f := FindMatchingEntry(slots, peer);
    FindMatchingEntryIsLookup(slots, peer);
  }

  lemma SlotOfPeer(w: World, at: Address, i: nat)
    requires Inv(w) && at in w.tables && i < |w.tables[at]| && w.tables[at][i].remote != 0
    ensures var s := w.tables[at][i];
            && Entry(w, at, s.remote) == Some(s)
            && at in w.listeners && w.listeners[at] != 0 && s.ports.localServer == w.listeners[at]
            && (s.remote in w.tables && Intact(w, at, s.remote) ==> KnowsReserved(s, Entry(w, s.remote, at)))
  {
    hide PacketInv, OpeningInv, EntryIn;
    EntryIsTheSlot(w.tables[at], i);
    assert EntryInv(w, at, w.tables[at][i].remote);
  }

  lemma {:induction false} OpeningsConcat(at: Address, a: seq<Effect>, b: seq<Effect>)
    ensures OpeningsOf(at, a + b) == OpeningsOf(at, a) + OpeningsOf(at, b)
  {
    if a == [] {
      assert a + b == b;
    } else {
      OpeningsConcat(at, a[1..], b);
      var here := if a[0].OpenClient? then [Opening(at, a[0].remote, a[0].ports)] else [];
      assert (a + b)[0] == a[0] && (a + b)[1..] == a[1..] + b;
      assert OpeningsOf(at, a + b) == here + OpeningsOf(at, a[1..] + b);
      assert OpeningsOf(at, a) == here + OpeningsOf(at, a[1..]);
    }
  }

  lemma {:induction false} NoOpenings(at: Address, effects: seq<Effect>)
    requires forall k :: 0 <= k < |effects| ==> !effects[k].OpenClient?
    ensures OpeningsOf(at, effects) == []
  {
    if effects != [] {
      NoOpenings(at, effects[1..]);
    }
  }

  /** What ConnectTo does to the free entry it finds. */
  function Dialled(s: Slot, remote: Address, env: Env): Result
    requires env.bound.Some?
  {
    Result(Reserve(s, remote, env.listener, env.bound.value, env.now),
           [SendPorts(remote, EncodePorts(env.listener, env.bound.value, 0, 0))])
  }

  lemma DialledIsGood(w: World, at: Address, i: nat, remote: Address, env: Env)
    requires Inv(w) && Enabled(w, Dial(at, remote, env)) && env.bound.Some? && Entry(w, at, remote).None?
    requires i < |w.tables[at]| && IsEmpty(w.tables[at][i]) && w.tables[at][i].remote == 0
    ensures GoodChange(w, at, i, Dialled(w.tables[at][i], remote, env), {})
  {
    hide Inv, EncodePorts, DecodePorts, EntryIn;
    InvAt(w, at, i);
    PortsRoundTrip(env.listener, env.bound.value, 0, 0);
    NoOpenings(at, Dialled(w.tables[at][i], remote, env).effects);
  }

  lemma DialIsGood(w: World, at: Address, remote: Address, env: Env)
    requires Inv(w) && Enabled(w, Dial(at, remote, env))
    ensures GoodStep(w, at, ConnectTo(w.tables[at], remote, env), {})
  {
    hide Inv, FindMatchingEntry, EncodePorts, EntryIn, GoodChange;
    MatchIsEntry(w, at, remote);
    var f := FindMatchingEntry(w.tables[at], remote);
    if !f.matching && f.index != -1 && env.bound.Some? {
      DialledIsGood(w, at, f.index, remote, env);
    }
  }

  lemma RecheckIsGood(w: World, at: Address, i: nat, now: nat)
    requires Inv(w) && Enabled(w, Recheck(at, i, now))
    ensures GoodChange(w, at, i, DoCheck(w.tables[at][i], now), {})
  {
    hide EntryInv, PacketInv, OpeningInv, EncodePorts, DecodePorts, EntryIn;
    var s := w.tables[at][i];
    var r := DoCheck(s, now);
    assert SlotInv(s);
    if s.remote != 0 {
      SlotOfPeer(w, at, i);
      PortsRoundTrip(s.ports.localServer, s.ports.localClient, s.ports.remoteServer, s.ports.remoteClient);
    }
    NoOpenings(at, r.effects);
  }

  lemma ReportIsGood(w: World, at: Address, i: nat)
    requires Inv(w) && Enabled(w, Report(at, i))
    ensures GoodChange(w, at, i, Result(Connected(w.tables[at][i]), []), {})
  {
    hide EntryInv, PacketInv, OpeningInv, EntryIn;
    if w.tables[at][i].remote != 0 {
      SlotOfPeer(w, at, i);
    }
  }

  lemma DiscardIsGood(w: World, at: Address, i: nat)
    requires Inv(w) && Enabled(w, Discard(at, i))
    ensures GoodChange(w, at, i, Result(Reset(w.tables[at][i]), []), {})
  {
    hide EntryInv, PacketInv, OpeningInv, EntryIn;
  }

  lemma ShutIsGood(w: World, at: Address, i: nat, client: bool)
    requires Inv(w) && Enabled(w, Shut(at, i, client))
    ensures GoodChange(w, at, i, ShutdownComplete(w.tables[at][i], client), Failures(w, Shut(at, i, client)))
  {
    hide EntryInv, PacketInv, OpeningInv, EntryIn;
    assert SlotInv(w.tables[at][i]);
    NoOpenings(at, ShutdownComplete(w.tables[at][i], client).effects);
    if w.tables[at][i].remote != 0 {
      SlotOfPeer(w, at, i);
    }
  }

  /** What the receiver may rely on about ports from a session it is intact with; other ports can be anything. */
  predicate Arrives(w: World, at: Address, from: Address, p: Ports) {
    from != 0 && (from in w.tables && Intact(w, at, from) ==> PortsInv(p, Entry(w, from, at), Entry(w, at, from)))
  }

  /** The entry a packet is handled with: the sender's, with its handshake in progress, or a free one. */
  predicate Handles(w: World, at: Address, i: nat, from: Address) {
    && at in w.tables && i < |w.tables[at]|
    && var s := w.tables[at][i];
       || (s.remote == from && s.begin != 0)
       || (s.remote == 0 && IsEmpty(s) && Entry(w, at, from).None?)
  }

  /** A request for the entry of a handshake in progress. */
  lemma RequestAgainIsGood(w: World, at: Address, i: nat, p: Ports, from: Address, env: Env)
    requires Inv(w) && EnvAt(w, at, env) && Handles(w, at, i, from) && Arrives(w, at, from, p)
    requires KindOf(p) == Request && w.tables[at][i].begin != 0
    ensures GoodChange(w, at, i, Receive1st(w.tables[at][i], p, from, env), {})
  {
    hide Inv, EncodePorts, DecodePorts, EntryIn;
    var s := w.tables[at][i];
    InvAt(w, at, i);
    SlotOfPeer(w, at, i);
    PortsRoundTrip(s.ports.localServer, s.ports.localClient, p.remoteServer, p.remoteClient);
    NoOpenings(at, Receive1st(s, p, from, env).effects);
  }

  /** A request of a new peer: it gets the entry if binding succeeds. */
  lemma FirstRequestIsGood(w: World, at: Address, i: nat, p: Ports, from: Address, env: Env)
    requires Inv(w) && EnvAt(w, at, env) && Handles(w, at, i, from) && Arrives(w, at, from, p)
    requires KindOf(p) == Request && w.tables[at][i].begin == 0
    ensures GoodChange(w, at, i, Receive1st(w.tables[at][i], p, from, env), {})
  {
    hide Inv, EncodePorts, DecodePorts, EntryIn, PortsInv, Intact, IsEmpty, OpeningsOf;
    var s := w.tables[at][i];
    InvAt(w, at, i);
    var r := Receive1st(s, p, from, env);
    NoOpenings(at, r.effects);
    if env.bound.Some? {
      var answer := EncodePorts(env.listener, env.bound.value, p.remoteServer, p.remoteClient);
      assert r.effects == ChallengeFirewall(from, p) + [SendPorts(from, answer)];
      PortsRoundTrip(env.listener, env.bound.value, p.remoteServer, p.remoteClient);
      if from in w.tables && Intact(w, at, from) {
        FirstAnswer(w, at, p, from, env, r.slot);
      }
    }
  }

  lemma FirstAnswer(w: World, at: Address, p: Ports, from: Address, env: Env, s': Slot)
    requires Arrives(w, at, from, p) && from in w.tables && Intact(w, at, from) && KindOf(p) == Request
    requires EnvAt(w, at, env) && env.bound.Some? && Entry(w, at, from).None? && s'.remote == from
    requires s'.ports == Ports(p.remoteServer, p.remoteClient, env.listener, env.bound.value)
    ensures KnowsReserved(s', Back(w, at, s'))
    ensures PortsInv(Ports(env.listener, env.bound.value, p.remoteServer, p.remoteClient), Some(s'), Back(w, at, s'))
  {
    hide EntryIn;
  }

  lemma InvAt(w: World, at: Address, i: nat)
    requires Inv(w) && at in w.tables && i < |w.tables[at]|
    ensures SlotInv(w.tables[at][i]) && 0 !in w.tables
  {
    hide EntryInv, PacketInv, OpeningInv;
  }

  lemma AnswerIsSent(s: Slot, p: Ports, from: Address, env: Env)
    ensures var r := Receive1st(s, p, from, env);
            if s.begin != 0 || env.bound.Some? then
              SendPorts(from, EncodePorts(r.slot.ports.localServer, r.slot.ports.localClient,
                                          p.remoteServer, p.remoteClient)) in r.effects
            else
              forall e :: e in r.effects ==> !e.SendPorts?
  {
    hide EncodePorts;
    var effects := Receive1st(s, p, from, env).effects;
    assert effects != [] ==> effects[|effects| - 1] in effects;
  }

  lemma Receive1stIsGood(w: World, at: Address, i: nat, p: Ports, from: Address, env: Env)
    requires Inv(w) && EnvAt(w, at, env) && Handles(w, at, i, from) && Arrives(w, at, from, p)
    requires KindOf(p) == Request
    ensures GoodChange(w, at, i, Receive1st(w.tables[at][i], p, from, env), {})
    ensures var s, r := w.tables[at][i], Receive1st(w.tables[at][i], p, from, env);
            if s.begin != 0 || env.bound.Some? then
              SendPorts(from, EncodePorts(r.slot.ports.localServer, r.slot.ports.localClient,
                                          p.remoteServer, p.remoteClient)) in r.effects
            else
              forall e :: e in r.effects ==> !e.SendPorts?
  {
    hide Inv, GoodChange, Receive1st, Arrives;
    AnswerIsSent(w.tables[at][i], p, from, env);
    if w.tables[at][i].begin != 0 {
      RequestAgainIsGood(w, at, i, p, from, env);
    } else {
      FirstRequestIsGood(w, at, i, p, from, env);
    }
  }

  lemma StartEffects(s: Slot, from: Address, env: Env, at: Address)
    ensures var r := StartClient(s, from, env);
            && |OpeningsOf(at, r.effects)| <= 1
            && (|| r.slot == Reset(s)
                || (r.slot.ports == s.ports && r.slot.remote == s.remote && r.slot.begin == s.begin
                    && (s.selfOpen ==> r.slot.selfOpen)))
            && forall e :: e in r.effects ==>
                 || e == StartConnection(from, s.ports.localClient, s.ports.remoteServer)
                 || (e == OpenClient(from, s.ports) && !s.selfOpen && (r.slot.selfOpen || r.slot == Reset(s)))
  {
    var effects := StartClient(s, from, env).effects;
    if |effects| == 2 {
      assert effects == [effects[0]] + [effects[1]];
      OpeningsConcat(at, [effects[0]], [effects[1]]);
      NoOpenings(at, [effects[1]]);
      assert [effects[0]][1..] == [];
    } else if |effects| == 1 {
      assert effects[1..] == [];
    }
  }

  lemma Receive2ndIsGood(w: World, at: Address, i: nat, p: Ports, from: Address, env: Env)
    requires Inv(w) && EnvAt(w, at, env) && Handles(w, at, i, from) && Arrives(w, at, from, p)
    requires KindOf(p) == Response && w.tables[at][i].remote == from
    ensures GoodChange(w, at, i, Receive2nd(w.tables[at][i], p, from, env), {})
  {
    hide EntryInv, PacketInv, OpeningInv, EncodePorts, DecodePorts, EntryIn, StartClient, OpeningsOf;
    var s := w.tables[at][i];
    var r := Receive2nd(s, p, from, env);
    assert SlotInv(s);
    SlotOfPeer(w, at, i);
    PortsRoundTrip(0, 0, p.remoteServer, p.remoteClient);
    var before := ChallengeFirewall(from, p) + [SendPorts(from, EncodePorts(0, 0, p.remoteServer, p.remoteClient))];
    var started := StartClient(SaveRemote(s, p), from, env);
    StartEffects(SaveRemote(s, p), from, env, at);
    OpeningsConcat(at, before, started.effects);
    NoOpenings(at, before);
    assert r.effects == before + started.effects;
  }

  lemma StartClientIsGood(w: World, at: Address, i: nat, p: Ports, from: Address, env: Env)
    requires Inv(w) && EnvAt(w, at, env) && Handles(w, at, i, from) && Arrives(w, at, from, p)
    requires KindOf(p) == Acknowledgement && w.tables[at][i].remote == from
    ensures GoodChange(w, at, i, StartClient(w.tables[at][i], from, env), {})
  {
    hide EntryInv, PacketInv, OpeningInv, EncodePorts, DecodePorts, EntryIn, StartClient, OpeningsOf;
    var s := w.tables[at][i];
    assert SlotInv(s);
    SlotOfPeer(w, at, i);
    StartEffects(s, from, env, at);
  }

  lemma ArrivalIsGood(w: World, at: Address, from: Address, data: seq<byte>, env: Env)
    requires Inv(w) && at in w.tables && EnvAt(w, at, env) && from != 0
    requires |data| == 8 ==> Arrives(w, at, from, DecodePorts(data))
    ensures GoodStep(w, at, ConsumeRawUdpData(w.tables[at], data, from, env), {})
  {
    hide Inv, FindMatchingEntry, DecodePorts, EntryIn, Receive1st, Receive2nd, StartClient, GoodChange, PortsInv;
    MatchIsEntry(w, at, from);
    var slots := w.tables[at];
    FindMatchingEntryIsLookup(slots, from);
    var f := FindMatchingEntry(slots, from);
    if |data| == 8 && f.index != -1 {
      var i: nat, p := f.index, DecodePorts(data);
      var s := slots[i];
      if Handles(w, at, i, from) {
        match KindOf(p)
        case Request =>
          Receive1stIsGood(w, at, i, p, from, env);
        case Response =>
          if f.matching {
            Receive2ndIsGood(w, at, i, p, from, env);
          }
        case Acknowledgement =>
          if f.matching {
            StartClientIsGood(w, at, i, p, from, env);
          }
        case Nothing =>
      }
    }
  }

  lemma MoveIsGood(w: World, m: Move)
    requires Inv(w) && Enabled(w, m)
    ensures GoodStep(w, StepAt(w, m).0, StepAt(w, m).1, Failures(w, m))
  {
    match m
    case Dial(at, remote, env) => DialIsGood(w, at, remote, env);
    case Deliver(d, env) =>
      hide EntryInv, OpeningInv, EntryIn, DecodePorts, PortsInv, ConsumeRawUdpData, GoodStep;
      assert PacketInv(w, d);
      ArrivalIsGood(w, d.dst, d.src, d.data, env);
    case Stray(at, from, data, env) => ArrivalIsGood(w, at, from, data, env);
    case Recheck(at, i, now) => RecheckIsGood(w, at, i, now);
    case Report(at, i) => ReportIsGood(w, at, i);
    case Shut(at, i, client) => ShutIsGood(w, at, i, client);
    case Discard(at, i) => DiscardIsGood(w, at, i);
    case Expire(_) =>
  }

  // ---- Runs

  /** Any number of sessions with fresh tables, bound listeners and an empty network. */
  predicate IsStart(w: World) {
    && 0 !in w.tables
    && (forall a :: a in w.tables ==> w.tables[a] == Initial() && a in w.listeners && w.listeners[a] != 0)
    && w.net == {} && w.openings == [] && w.reset == {} && w.failed == {}
  }

  lemma StartInv(w: World)
    requires IsStart(w)
    ensures Inv(w)
  {
    forall a, b | b != 0 ensures EntryInv(w, a, b) {
      if a in w.tables {
        FindMatchingEntryIsLookup(w.tables[a], b);
      }
    }
  }

  ghost predicate IsHistory(worlds: seq<World>, moves: seq<Move>) {
    && |worlds| == |moves| + 1
    && IsStart(worlds[0])
    && forall k :: 0 <= k < |moves| ==> Enabled(worlds[k], moves[k]) && worlds[k + 1] == Next(worlds[k], moves[k])
  }

  lemma MoveKeepsInv(w: World, m: Move)
    requires Inv(w) && Enabled(w, m)
    ensures Inv(Next(w, m))
  {
    hide Inv, Enabled, Next, StepAt, GoodStep, Failures;
    if m.Expire? {
      ExpireKeepsInv(w, m.packet);
    } else {
      MoveIsGood(w, m);
      GoodStepKeepsInv(w, m);
    }
  }

  lemma ExpireIsLoss(w: World, d: Datagram)
    requires Enabled(w, Expire(d))
    ensures Next(w, Expire(d)) == w.(net := w.net - {d})
  {
    assert w.tables[d.src := w.tables[d.src]] == w.tables;
    assert Released(d.src, w.tables[d.src], w.tables[d.src]) == {};
  }

  lemma ExpireKeepsInv(w: World, d: Datagram)
    requires Inv(w) && Enabled(w, Expire(d))
    ensures Inv(Next(w, Expire(d)))
  {
    hide EntryIn, Next, TableInv;
    ExpireIsLoss(w, d);
    var w' := w.(net := w.net - {d});
    assert forall a, b :: b != 0 && EntryInv(w, a, b) ==> EntryInv(w', a, b);
    assert forall p :: PacketInv(w, p) ==> PacketInv(w', p);
    assert forall o :: OpeningInv(w, o) ==> OpeningInv(w', o);
    assert forall o, p :: OpeningsApart(w, o, p) ==> OpeningsApart(w', o, p);
  }

  lemma {:induction false} HistoryKeepsInv(worlds: seq<World>, moves: seq<Move>, k: nat)
    requires IsHistory(worlds, moves) && k <= |moves|
    ensures Inv(worlds[k])
  {
    hide Inv, Enabled, Next, IsStart;
    if k == 0 {
      StartInv(worlds[0]);
    } else {
      HistoryKeepsInv(worlds, moves, k - 1);
      MoveKeepsInv(worlds[k - 1], moves[k - 1]);
    }
  }

  /** Agreement, in every run among any number of sessions, with packets lost, duplicated and reordered, retries, resets,
      simultaneous dialling and stray traffic: whenever a session has opened a connection to another one, and neither
      has reset its entry for the other, the server and client ports it had saved are exactly those that the other one
      has reserved for it. */
  lemma OpenersHoldReservedPorts(worlds: seq<World>, moves: seq<Move>, k: nat, n: nat)
    requires IsHistory(worlds, moves) && k <= |moves| && n < |worlds[k].openings|
    requires var o := worlds[k].openings[n]; o.remote in worlds[k].tables && Intact(worlds[k], o.at, o.remote)
    ensures var o := worlds[k].openings[n];
            && Entry(worlds[k], o.remote, o.at).Some?
            && var t := Entry(worlds[k], o.remote, o.at).value;
               o.ports.remoteServer == t.ports.localServer && o.ports.remoteClient == t.ports.localClient
  {
    HistoryKeepsInv(worlds, moves, k);
    assert OpeningInv(worlds[k], worlds[k].openings[n]);
  }

  /** And a session that opens two connections to the same peer has reset its entry in between, or its connection was
      shut down before it came up. */
  lemma AtMostOneOpeningPerPeer(worlds: seq<World>, moves: seq<Move>, k: nat, m: nat, n: nat)
    requires IsHistory(worlds, moves) && k <= |moves| && m < n < |worlds[k].openings|
    requires worlds[k].openings[m].at == worlds[k].openings[n].at
    requires worlds[k].openings[m].remote == worlds[k].openings[n].remote
    ensures var pair := (worlds[k].openings[m].at, worlds[k].openings[m].remote);
            pair in worlds[k].reset || pair in worlds[k].failed
  {
    HistoryKeepsInv(worlds, moves, k);
    assert OpeningsApart(worlds[k], worlds[k].openings[m], worlds[k].openings[n]);
  }
}
