/** Runs of the port exchange that do happen: the three packets that connect two sessions, the way to finish any exchange
    that is under way, and what goes wrong once an entry was reset or a connection failed. */
module PortExchanges {
  import opened Words
  import opened Session
  import SlotTable
  import opened PortAgreement

  ghost predicate Leads(w: World, moves: seq<Move>, w': World)
    decreases |moves|
  {
    if moves == [] then w' == w else Enabled(w, moves[0]) && Leads(Next(w, moves[0]), moves[1..], w')
  }

  lemma {:induction false} LeadsFurther(w: World, moves: seq<Move>, w1: World, m: Move)
    requires Leads(w, moves, w1) && Enabled(w1, m)
    ensures Leads(w, moves + [m], Next(w1, m))
    decreases |moves|
  {
    hide Enabled, Next;
    if moves == [] {
      assert ([] + [m])[1..] == [];
      assert Leads(Next(w1, m), [], Next(w1, m));
    } else {
      LeadsFurther(Next(w, moves[0]), moves[1..], w1, m);
      assert (moves + [m])[1..] == moves[1..] + [m];
    }
  }

  lemma {:induction false} LeadsOn(w: World, moves: seq<Move>, w1: World, more: seq<Move>, w2: World)
    requires Leads(w, moves, w1) && Leads(w1, more, w2)
    ensures Leads(w, moves + more, w2)
    decreases |moves|
  {
    hide Enabled, Next;
    if moves == [] {
      assert [] + more == more;
    } else {
      LeadsOn(Next(w, moves[0]), moves[1..], w1, more, w2);
      assert (moves + more)[1..] == moves[1..] + more;
    }
  }

  ghost predicate HasFreeEntry(w: World, at: Address) {
    at in w.tables && exists i :: 0 <= i < |w.tables[at]| && IsEmpty(w.tables[at][i])
  }

  /** Only the entry of at for peer, the network and the openings may differ. */
  ghost predicate OnlyChanges(w: World, w': World, at: Address, peer: Address) {
    && w'.listeners == w.listeners && w'.tables.Keys == w.tables.Keys && w.net <= w'.net
    && w'.reset == w.reset && w'.failed == w.failed
    && (forall a: Address, b: Address :: b != 0 && !(a == at && b == peer) ==> Entry(w', a, b) == Entry(w, a, b))
    && (forall a: Address :: a in w.tables && a != at ==> w'.tables[a] == w.tables[a])
  }

  // ---- Single moves

  /** A move that changes one entry well. */
  lemma AfterChange(w: World, m: Move, i: nat, r: Result)
    requires Inv(w) && Enabled(w, m) && !m.Expire?
    requires var at := StepAt(w, m).0;
             && GoodChange(w, at, i, r, Failures(w, m))
             && at in w.tables && i < |w.tables[at]| && StepAt(w, m).1 == Put(w.tables[at], i, r)
    ensures var at, w' := StepAt(w, m).0, Next(w, m);
            && Inv(w')
            && w' == Changed(w, at, i, r, Failures(w, m))
            && (forall a, b :: b != 0 ==>
                  Entry(w', a, b) == (if a == at && b == r.slot.remote then Some(r.slot)
                                      else if a == at && b == w.tables[at][i].remote then None
                                      else Entry(w, a, b)))
  {
    hide Inv, GoodChange, StepAt, Enabled, Failures, Next;
    var at := StepAt(w, m).0;
    NextIsChanged(w, m, i, r);
    ChangeKeepsInv(w, at, i, r, Failures(w, m));
    EntriesAfter(w, at, i, r, Failures(w, m));
  }

  lemma PacketArrives(w: World, d: Datagram)
    requires Inv(w) && d in w.net && d.dst in w.tables
    ensures |d.data| == 8 && Arrives(w, d.dst, d.src, DecodePorts(d.data))
  {
    hide EntryInv, OpeningInv, EntryIn, DecodePorts, PortsInv;
    assert PacketInv(w, d);
  }

  lemma FreeEntryIsFound(w: World, at: Address, peer: Address)
    requires Inv(w) && peer != 0 && HasFreeEntry(w, at) && Entry(w, at, peer).None?
    ensures var f := FindMatchingEntry(w.tables[at], peer);
            && !f.matching && 0 <= f.index < |w.tables[at]| && IsEmpty(w.tables[at][f.index])
            && w.tables[at][f.index].remote == 0
  {
    hide Inv;
    MatchIsEntry(w, at, peer);
    FindMatchingEntryIsLookup(w.tables[at], peer);
  }

  lemma DialMove(w: World, a: Address, b: Address, env: Env)
    requires Inv(w) && Enabled(w, Dial(a, b, env)) && HasFreeEntry(w, a) && Entry(w, a, b).None? && env.bound.Some?
    ensures var w' := Next(w, Dial(a, b, env));
            && Inv(w') && OnlyChanges(w, w', a, b) && w'.openings == w.openings
            && Datagram(a, b, EncodePorts(env.listener, env.bound.value, 0, 0)) in w'.net
            && Entry(w', a, b).Some?
            && var s' := Entry(w', a, b).value;
               && s'.remote == b && s'.begin == env.now && s'.refCount == 0 && !s'.selfOpen
               && s'.ports == Ports(0, 0, env.listener, env.bound.value)
  {
    hide Inv, FindMatchingEntry, EncodePorts, EntryIn, GoodChange;
    FreeEntryIsFound(w, a, b);
    var i := FindMatchingEntry(w.tables[a], b).index;
    InvAt(w, a, i);
    var r := Dialled(w.tables[a][i], b, env);
    DialledIsGood(w, a, i, b, env);
    AfterChange(w, Dial(a, b, env), i, r);
    NoOpenings(a, r.effects);
    assert r.effects[0] in r.effects;
  }

  /** The peer has an entry for us with its handshake in progress, or can make one. */
  ghost predicate CanAnswer(w: World, b: Address, a: Address, env: Env) {
    && b in w.tables && EnvAt(w, b, env) && env.openOk && env.accepts
    && (if Entry(w, b, a).Some? then Entry(w, b, a).value.begin != 0 else HasFreeEntry(w, b) && env.bound.Some?)
  }

  /** The entry a request is answered with. */
  function AnsweringPorts(o: Option<Slot>, p: Ports, env: Env): Ports
    requires o.Some? || env.bound.Some?
  {
    if o.Some? then Ports(p.remoteServer, p.remoteClient, o.value.ports.localServer, o.value.ports.localClient)
    else Ports(p.remoteServer, p.remoteClient, env.listener, env.bound.value)
  }

  lemma RequestMove(w: World, a: Address, b: Address, x: u16, y: u16, env: Env)
    requires Inv(w) && a != 0 && (x != 0 || y != 0) && CanAnswer(w, b, a, env)
    requires Datagram(a, b, EncodePorts(x, y, 0, 0)) in w.net
    ensures var m := Deliver(Datagram(a, b, EncodePorts(x, y, 0, 0)), env);
            && Enabled(w, m)
            && var w', o := Next(w, m), Entry(w, b, a);
               && Inv(w') && OnlyChanges(w, w', b, a) && w'.openings == w.openings
               && Entry(w', b, a).Some?
               && var t' := Entry(w', b, a).value;
                  && t'.ports == AnsweringPorts(o, Ports(x, y, 0, 0), env)
                  && t'.begin != 0 && t'.remote == a
                  && (if o.Some? then t'.selfOpen == o.value.selfOpen && t'.refCount == o.value.refCount
                      else !t'.selfOpen && t'.refCount == 0)
                  && Datagram(b, a, EncodePorts(t'.ports.localServer, t'.ports.localClient, x, y)) in w'.net
                  && (y != 0 ==> Challenge(a, y) in StepAt(w, m).1.effects)
  {
    hide Inv, FindMatchingEntry, EncodePorts, DecodePorts, EntryIn, GoodChange, OpeningsOf, PortsInv;
    var d, p := Datagram(a, b, EncodePorts(x, y, 0, 0)), Ports(x, y, 0, 0);
    PortsRoundTrip(x, y, 0, 0);
    PacketArrives(w, d);
    MatchIsEntry(w, b, a);
    if Entry(w, b, a).None? {
      FreeEntryIsFound(w, b, a);
    }
    var i := FindMatchingEntry(w.tables[b], a).index;
    InvAt(w, b, i);
    var r := Receive1st(w.tables[b][i], p, a, env);
    Receive1stIsGood(w, b, i, p, a, env);
    AfterChange(w, Deliver(d, env), i, r);
    NoOpenings(b, r.effects);
    assert r.effects[|r.effects| - 1] in r.effects;
    assert y != 0 ==> r.effects[0] in r.effects;
  }

  /** What opening adds to the openings. */
  function OpeningBy(s: Slot, at: Address, peer: Address, ports: Ports): seq<Opening> {
    if s.selfOpen then [] else [Opening(at, peer, ports)]
  }

  lemma StartsOne(s: Slot, from: Address, env: Env, at: Address)
    requires env.openOk && env.accepts
    ensures var r := StartClient(s, from, env);
            && OpeningsOf(at, r.effects) == OpeningBy(s, at, from, s.ports)
            && r.slot == (if s.selfOpen then s else s.(selfOpen := true, transient := false))
            && (!s.selfOpen ==> StartConnection(from, s.ports.localClient, s.ports.remoteServer) in r.effects)
  {
    if !s.selfOpen {
      var open, start := OpenClient(from, s.ports), StartConnection(from, s.ports.localClient, s.ports.remoteServer);
      assert StartClient(s, from, env).effects == [open] + [start];
      OpeningsConcat(at, [open], [start]);
      NoOpenings(at, [start]);
      assert [open][1..] == [];
    }
  }

  /** A response finds its receiver's handshake in progress. */
  lemma ResponseMove(w: World, b: Address, a: Address, x: u16, y: u16, p: u16, q: u16, env: Env)
    requires Inv(w) && b != 0 && (x != 0 || y != 0) && (p != 0 || q != 0)
    requires a in w.tables && EnvAt(w, a, env) && env.openOk && env.accepts
    requires Entry(w, a, b).Some? && Entry(w, a, b).value.begin != 0
    requires Datagram(b, a, EncodePorts(x, y, p, q)) in w.net
    ensures var m := Deliver(Datagram(b, a, EncodePorts(x, y, p, q)), env);
            && Enabled(w, m)
            && var w', s := Next(w, m), Entry(w, a, b).value;
               var ports := s.ports.(remoteServer := x, remoteClient := y);
               && Inv(w') && OnlyChanges(w, w', a, b)
               && w'.openings == w.openings + OpeningBy(s, a, b, ports)
               && Entry(w', a, b).Some?
               && var s' := Entry(w', a, b).value;
                  && s'.ports == ports && s'.selfOpen && s'.begin == s.begin && s'.refCount == s.refCount
                  && Datagram(a, b, EncodePorts(0, 0, x, y)) in w'.net
                  && (y != 0 ==> Challenge(b, y) in StepAt(w, m).1.effects)
                  && (!s.selfOpen ==> StartConnection(b, s.ports.localClient, x) in StepAt(w, m).1.effects)
  {
    hide Inv, FindMatchingEntry, EncodePorts, DecodePorts, EntryIn, GoodChange, StartClient, OpeningsOf;
    var d, ps := Datagram(b, a, EncodePorts(x, y, p, q)), Ports(x, y, p, q);
    PortsRoundTrip(x, y, p, q);
    PacketArrives(w, d);
    MatchIsEntry(w, a, b);
    var i := FindMatchingEntry(w.tables[a], b).index;
    InvAt(w, a, i);
    var s := w.tables[a][i];
    var r := Receive2nd(s, ps, b, env);
    Receive2ndIsGood(w, a, i, ps, b, env);
    AfterChange(w, Deliver(d, env), i, r);
    var started := StartClient(SaveRemote(s, ps), b, env);
    var before := ChallengeFirewall(b, ps) + [SendPorts(b, EncodePorts(0, 0, x, y))];
    StartsOne(SaveRemote(s, ps), b, env, a);
    OpeningsConcat(a, before, started.effects);
    NoOpenings(a, before);
    assert r.effects == before + started.effects;
    assert before[|before| - 1] in r.effects && (y != 0 ==> before[0] in r.effects);
  }

  /** An acknowledgement finds its receiver's handshake in progress. */
  lemma AcknowledgementMove(w: World, a: Address, b: Address, p: u16, q: u16, env: Env)
    requires Inv(w) && a != 0 && (p != 0 || q != 0)
    requires b in w.tables && EnvAt(w, b, env) && env.openOk && env.accepts
    requires Entry(w, b, a).Some? && Entry(w, b, a).value.begin != 0
    requires Datagram(a, b, EncodePorts(0, 0, p, q)) in w.net
    ensures var m := Deliver(Datagram(a, b, EncodePorts(0, 0, p, q)), env);
            && Enabled(w, m)
            && var w', t := Next(w, m), Entry(w, b, a).value;
               && Inv(w') && OnlyChanges(w, w', b, a)
               && w'.openings == w.openings + OpeningBy(t, b, a, t.ports)
               && Entry(w', b, a).Some?
               && var t' := Entry(w', b, a).value;
                  && t'.ports == t.ports && t'.selfOpen && t'.begin == t.begin && t'.refCount == t.refCount
                  && (!t.selfOpen ==>
                        StartConnection(a, t.ports.localClient, t.ports.remoteServer) in StepAt(w, m).1.effects)
  {
    hide Inv, FindMatchingEntry, EncodePorts, DecodePorts, EntryIn, GoodChange, StartClient, OpeningsOf;
    var d, ps := Datagram(a, b, EncodePorts(0, 0, p, q)), Ports(0, 0, p, q);
    PortsRoundTrip(0, 0, p, q);
    PacketArrives(w, d);
    MatchIsEntry(w, b, a);
    var i := FindMatchingEntry(w.tables[b], a).index;
    InvAt(w, b, i);
    StartClientIsGood(w, b, i, ps, a, env);
    AfterChange(w, Deliver(d, env), i, StartClient(w.tables[b][i], a, env));
    StartsOne(w.tables[b][i], a, env, b);
  }

  /** A retry sends what the entry knows, and changes nothing else. */
  lemma RetryMove(w: World, a: Address, b: Address) returns (m: Move)
    requires Inv(w) && b != 0 && Entry(w, a, b).Some? && Entry(w, a, b).value.begin != 0
    ensures Enabled(w, m) && m.Recheck?
    ensures var w', p := Next(w, m), Entry(w, a, b).value.ports;
            && Inv(w') && OnlyChanges(w, w', a, b) && w'.openings == w.openings
            && Entry(w', a, b) == Entry(w, a, b) && w'.tables == w.tables
            && Datagram(a, b, EncodePorts(p.localServer, p.localClient, p.remoteServer, p.remoteClient)) in w'.net
  {
    hide Inv, FindMatchingEntry, EncodePorts, DecodePorts, EntryIn, GoodChange;
    MatchIsEntry(w, a, b);
    var i := FindMatchingEntry(w.tables[a], b).index;
    InvAt(w, a, i);
    var s := w.tables[a][i];
    m := Recheck(a, i, s.begin + RETRY_AFTER);
    var r := DoCheck(s, s.begin + RETRY_AFTER);
    assert Judge(s, s.begin + RETRY_AFTER) == Retry;
    RecheckIsGood(w, a, i, s.begin + RETRY_AFTER);
    AfterChange(w, m, i, r);
    NoOpenings(a, r.effects);
    assert r.effects[0] in r.effects;
    assert w.tables[a][i := s] == w.tables[a];
  }

  /** A check after the long stop resets the entry. */
  lemma GiveUpMove(w: World, a: Address, b: Address) returns (m: Move)
    requires Inv(w) && b != 0 && Entry(w, a, b).Some?
    requires Entry(w, a, b).value.begin != 0 && Entry(w, a, b).value.refCount == 0
    ensures Enabled(w, m) && m.Recheck?
    ensures var w' := Next(w, m);
            && Inv(w') && Entry(w', a, b).None? && HasFreeEntry(w', a)
            && w'.listeners == w.listeners && w'.tables.Keys == w.tables.Keys
            && w'.net == w.net && w'.openings == w.openings && w'.failed == w.failed
            && w'.reset == w.reset + {(a, b)}
            && (forall x: Address, y: Address :: y != 0 && !(x == a && y == b) ==> Entry(w', x, y) == Entry(w, x, y))
  {
    hide Inv, FindMatchingEntry, EncodePorts, DecodePorts, EntryIn, GoodChange;
    MatchIsEntry(w, a, b);
    var i := FindMatchingEntry(w.tables[a], b).index;
    InvAt(w, a, i);
    var s := w.tables[a][i];
    m := Recheck(a, i, s.begin + LONG_STOP + 1);
    var r := DoCheck(s, s.begin + LONG_STOP + 1);
    assert Judge(s, s.begin + LONG_STOP + 1) == GiveUp;
    RecheckIsGood(w, a, i, s.begin + LONG_STOP + 1);
    AfterChange(w, m, i, r);
    assert IsEmpty(Next(w, m).tables[a][i]);
  }

  /** Our own connection is shut down while the handshake is still in progress: the count wraps. */
  lemma FailMove(w: World, b: Address, a: Address) returns (m: Move)
    requires Inv(w) && a != 0 && Entry(w, b, a).Some?
    requires Entry(w, b, a).value.begin != 0 && Entry(w, b, a).value.refCount == 0
    ensures Enabled(w, m) && m.Shut?
    ensures var w' := Next(w, m);
            && Inv(w') && w'.net == w.net && w'.openings == w.openings && w'.listeners == w.listeners
            && w'.tables.Keys == w.tables.Keys && w'.reset == w.reset && w'.failed == w.failed + {(b, a)}
            && Entry(w', b, a) == Some(Entry(w, b, a).value.(selfOpen := false, refCount := TWO_32 - 1))
  {
    hide Inv, FindMatchingEntry, EncodePorts, DecodePorts, EntryIn, GoodChange;
    MatchIsEntry(w, b, a);
    var i := FindMatchingEntry(w.tables[b], a).index;
    InvAt(w, b, i);
    m := Shut(b, i, true);
    ShutIsGood(w, b, i, true);
    AfterChange(w, m, i, ShutdownComplete(w.tables[b][i], true));
  }

  // ---- Any exchange under way can finish

  lemma EntryHasPorts(w: World, a: Address, b: Address)
    requires Inv(w) && b != 0 && Entry(w, a, b).Some?
    ensures a in w.tables && a != 0 && Entry(w, a, b).value.ports.localServer != 0
    ensures b in w.tables && Intact(w, a, b) ==> KnowsReserved(Entry(w, a, b).value, Entry(w, b, a))
  {
    hide PacketInv, OpeningInv, EntryIn;
    assert EntryInv(w, a, b);
  }

  /** Both sides hold a connection of their own and each other's reserved ports. */
  ghost predicate BothOpened(w: World, a: Address, b: Address) {
    && Entry(w, a, b).Some? && Entry(w, b, a).Some?
    && var s, t := Entry(w, a, b).value, Entry(w, b, a).value;
       && s.selfOpen && t.selfOpen
       && s.ports.remoteServer == t.ports.localServer && s.ports.remoteClient == t.ports.localClient
       && t.ports.remoteServer == s.ports.localServer && t.ports.remoteClient == s.ports.localClient
  }

  ghost predicate UnderWay(w: World, a: Address, b: Address, env: Env) {
    && Entry(w, a, b).Some? && Entry(w, a, b).value.begin != 0
    && a in w.tables && EnvAt(w, a, env) && env.openOk && env.accepts
  }

  /** We do not know the peer's ports yet: the retry is a request. */
  lemma FinishFromRequest(w: World, a: Address, b: Address, envA: Env, envB: Env) returns (more: seq<Move>, w': World)
    requires Inv(w) && a != b && a != 0 && b != 0 && Intact(w, a, b)
    requires UnderWay(w, a, b, envA) && CanAnswer(w, b, a, envB)
    requires !KnowsPeerPorts(Entry(w, a, b).value)
    ensures |more| == 4 && Leads(w, more, w') && BothOpened(w', a, b)
  {
    hide Inv, EncodePorts, Entry, Enabled, Next, StepAt, Leads;
    var s := Entry(w, a, b).value;
    EntryHasPorts(w, a, b);
    var m1 := RetryMove(w, a, b);
    var w1 := Next(w, m1);
    assert Leads(w, [], w) by { LeadsNowhere(w); }
    LeadsFurther(w, [], w, m1);
    RequestMove(w1, a, b, s.ports.localServer, s.ports.localClient, envB);
    var m2 := Deliver(Datagram(a, b, EncodePorts(s.ports.localServer, s.ports.localClient, 0, 0)), envB);
    var w2 := Next(w1, m2);
    LeadsFurther(w, [] + [m1], w1, m2);
    EntryHasPorts(w2, b, a);
    var t := Entry(w2, b, a).value;
    var x, y := t.ports.localServer, t.ports.localClient;
    ResponseMove(w2, b, a, x, y, s.ports.localServer, s.ports.localClient, envA);
    var m3 := Deliver(Datagram(b, a, EncodePorts(x, y, s.ports.localServer, s.ports.localClient)), envA);
    var w3 := Next(w2, m3);
    LeadsFurther(w, [] + [m1] + [m2], w2, m3);
    AcknowledgementMove(w3, a, b, x, y, envB);
    var m4 := Deliver(Datagram(a, b, EncodePorts(0, 0, x, y)), envB);
    LeadsFurther(w, [] + [m1] + [m2] + [m3], w3, m4);
    more, w' := [] + [m1] + [m2] + [m3] + [m4], Next(w3, m4);
  }

  lemma LeadsNowhere(w: World)
    ensures Leads(w, [], w)
  {
  }

  /** We know the peer's ports already: the retry is a response. */
  lemma FinishFromResponse(w: World, a: Address, b: Address, envA: Env, envB: Env) returns (more: seq<Move>, w': World)
    requires Inv(w) && a != b && a != 0 && b != 0 && Intact(w, a, b)
    requires UnderWay(w, a, b, envA) && CanAnswer(w, b, a, envB)
    requires KnowsPeerPorts(Entry(w, a, b).value)
    ensures |more| == 3 && Leads(w, more, w') && BothOpened(w', a, b)
  {
    hide Inv, EncodePorts, Entry, Enabled, Next, StepAt, Leads;
    var s := Entry(w, a, b).value;
    EntryHasPorts(w, a, b);
    var x, y, p, q := s.ports.localServer, s.ports.localClient, s.ports.remoteServer, s.ports.remoteClient;
    var m1 := RetryMove(w, a, b);
    var w1 := Next(w, m1);
    assert Leads(w, [], w) by { LeadsNowhere(w); }
    LeadsFurther(w, [], w, m1);
    ResponseMove(w1, a, b, x, y, p, q, envB);
    var m2 := Deliver(Datagram(a, b, EncodePorts(x, y, p, q)), envB);
    var w2 := Next(w1, m2);
    LeadsFurther(w, [] + [m1], w1, m2);
    AcknowledgementMove(w2, b, a, x, y, envA);
    var m3 := Deliver(Datagram(b, a, EncodePorts(0, 0, x, y)), envA);
    LeadsFurther(w, [] + [m1] + [m2], w2, m3);
    more, w' := [] + [m1] + [m2] + [m3], Next(w2, m3);
  }

  /** From every world that a run can reach, and whatever was lost on the way: as long as a session's handshake with a peer
      is in progress, neither has reset its entry for the other, and the peer can answer, a retry and at most three
      deliveries leave both with a connection of their own and each other's reserved ports. */
  lemma EveryExchangeCanFinish(
      worlds: seq<World>, moves: seq<Move>, a: Address, b: Address, envA: Env, envB: Env)
      returns (more: seq<Move>, w': World)
    requires IsHistory(worlds, moves)
    requires var w := worlds[|moves|];
             && a != b && b != 0 && Intact(w, a, b) && UnderWay(w, a, b, envA) && CanAnswer(w, b, a, envB)
    ensures |more| <= 4 && Leads(worlds[|moves|], more, w') && BothOpened(w', a, b)
  {
    hide Inv, Entry, IsStart, Enabled, Next, Leads, CanAnswer, BothOpened;
    var w := worlds[|moves|];
    HistoryKeepsInv(worlds, moves, |moves|);
    EntryHasPorts(w, a, b);
    if KnowsPeerPorts(Entry(w, a, b).value) {
      more, w' := FinishFromResponse(w, a, b, envA, envB);
    } else {
      more, w' := FinishFromRequest(w, a, b, envA, envB);
    }
  }

  // ---- The three packets

  /** Environments in which the user accepts and everything succeeds. */
  ghost predicate Willing(w: World, at: Address, env: Env) {
    && at in w.tables && EnvAt(w, at, env) && env.openOk && env.accepts
    && env.bound.Some? && env.bound.value != 0
  }

  lemma AtStart(w: World, a: Address, b: Address)
    requires IsStart(w) && a in w.tables && b != 0
    ensures Inv(w) && a != 0 && Entry(w, a, b).None? && HasFreeEntry(w, a)
  {
    hide FindMatchingEntry, Inv;
    StartInv(w);
    FindMatchingEntryIsLookup(w.tables[a], b);
    assert IsEmpty(w.tables[a][0]);
  }

  /** Dialling, the request and the response, from any world in which a has a free entry and b too, and neither has an
      entry for the other. */
  lemma FirstTwoPackets(w: World, a: Address, b: Address, envA: Env, envB: Env)
    requires Inv(w) && a != b && a != 0 && b != 0 && Willing(w, a, envA) && Willing(w, b, envB)
    requires Entry(w, a, b).None? && Entry(w, b, a).None? && HasFreeEntry(w, a) && HasFreeEntry(w, b)
    ensures var (lA, pA, lB, pB) := (envA.listener, envA.bound.value, envB.listener, envB.bound.value);
            var m1, m2 := Dial(a, b, envA), Deliver(Datagram(a, b, EncodePorts(lA, pA, 0, 0)), envB);
            && Enabled(w, m1)
            && var w1 := Next(w, m1);
               && Enabled(w1, m2) && Challenge(a, pA) in StepAt(w1, m2).1.effects
               && var w2 := Next(w1, m2);
                  && Inv(w2)
                  && w2.listeners == w.listeners && w2.tables.Keys == w.tables.Keys
                  && w2.openings == w.openings && w2.reset == w.reset && w2.failed == w.failed
                  && Datagram(b, a, EncodePorts(lB, pB, lA, pA)) in w2.net
                  && Entry(w2, a, b).Some? && Entry(w2, b, a).Some?
                  && var s, t := Entry(w2, a, b).value, Entry(w2, b, a).value;
                     && s.ports == Ports(0, 0, lA, pA) && t.ports == Ports(lA, pA, lB, pB)
                     && s.begin != 0 && t.begin != 0 && !s.selfOpen && !t.selfOpen
                     && s.refCount == 0 && t.refCount == 0
  {
    hide Inv, EncodePorts, Entry, Next, StepAt;
    DialMove(w, a, b, envA);
    var w1 := Next(w, Dial(a, b, envA));
    RequestMove(w1, a, b, envA.listener, envA.bound.value, envB);
  }

  /** The response and the acknowledgement. */
  lemma LastTwoPackets(
      w: World, a: Address, b: Address, x: u16, y: u16, p: u16, q: u16, envA: Env, envB: Env)
    requires Inv(w) && a != b && a != 0 && b != 0 && Willing(w, a, envA) && Willing(w, b, envB)
    requires x != 0 && y != 0 && p != 0
    requires Datagram(b, a, EncodePorts(x, y, p, q)) in w.net
    requires Entry(w, a, b).Some? && Entry(w, a, b).value.begin != 0 && !Entry(w, a, b).value.selfOpen
    requires Entry(w, b, a).Some? && Entry(w, b, a).value.begin != 0 && !Entry(w, b, a).value.selfOpen
    ensures var (s, t) := (Entry(w, a, b).value, Entry(w, b, a).value);
            var m1, m2 := Deliver(Datagram(b, a, EncodePorts(x, y, p, q)), envA),
                          Deliver(Datagram(a, b, EncodePorts(0, 0, x, y)), envB);
            && Enabled(w, m1) && Challenge(b, y) in StepAt(w, m1).1.effects
            && StartConnection(b, s.ports.localClient, x) in StepAt(w, m1).1.effects
            && var w1 := Next(w, m1);
               && Enabled(w1, m2)
               && StartConnection(a, t.ports.localClient, t.ports.remoteServer) in StepAt(w1, m2).1.effects
               && var w2 := Next(w1, m2);
                  && Inv(w2)
                  && w2.listeners == w.listeners && w2.tables.Keys == w.tables.Keys
                  && w2.openings == w.openings + [Opening(a, b, s.ports.(remoteServer := x, remoteClient := y)),
                                                  Opening(b, a, t.ports)]
                  && w2.reset == w.reset && w2.failed == w.failed
                  && Datagram(a, b, EncodePorts(0, 0, x, y)) in w2.net
                  && Entry(w2, a, b).Some? && Entry(w2, b, a).Some?
                  && Entry(w2, a, b).value.ports == s.ports.(remoteServer := x, remoteClient := y)
                  && Entry(w2, a, b).value.refCount == s.refCount
                  && var t' := Entry(w2, b, a).value;
                     t'.ports == t.ports && t'.selfOpen && t'.begin == t.begin && t'.refCount == t.refCount
  {
    hide Inv, EncodePorts, Entry, Next, StepAt;
    ResponseMove(w, b, a, x, y, p, q, envA);
    var w1 := Next(w, Deliver(Datagram(b, a, EncodePorts(x, y, p, q)), envA));
    AcknowledgementMove(w1, a, b, x, y, envB);
  }

  /** Where nothing is lost, and whichever the ports: dialling, the request, the response and the acknowledgement make
      both sides open and start a connection from their reserved client port to the other's listener, each having sent
      to the other's client port first. */
  lemma ThreePacketsConnect(w: World, a: Address, b: Address, envA: Env, envB: Env)
    requires IsStart(w) && a != b && Willing(w, a, envA) && Willing(w, b, envB)
    ensures var (lA, pA, lB, pB) := (envA.listener, envA.bound.value, envB.listener, envB.bound.value);
            var m1, m2 := Dial(a, b, envA), Deliver(Datagram(a, b, EncodePorts(lA, pA, 0, 0)), envB);
            var m3, m4 := Deliver(Datagram(b, a, EncodePorts(lB, pB, lA, pA)), envA),
                          Deliver(Datagram(a, b, EncodePorts(0, 0, lB, pB)), envB);
            && Enabled(w, m1)
            && var w1 := Next(w, m1);
               && Enabled(w1, m2) && Challenge(a, pA) in StepAt(w1, m2).1.effects
               && var w2 := Next(w1, m2);
                  && Enabled(w2, m3) && Challenge(b, pB) in StepAt(w2, m3).1.effects
                  && StartConnection(b, pA, lB) in StepAt(w2, m3).1.effects
                  && var w3 := Next(w2, m3);
                     && Enabled(w3, m4) && StartConnection(a, pB, lA) in StepAt(w3, m4).1.effects
                     && Next(w3, m4).openings
                        == [Opening(a, b, Ports(lB, pB, lA, pA)), Opening(b, a, Ports(lA, pA, lB, pB))]
  {
    hide Inv, EncodePorts, Entry, Next, StepAt, IsStart;
    AtStart(w, a, b) by { StartHasNoZero(w); }
    AtStart(w, b, a) by { StartHasNoZero(w); }
    FirstTwoPackets(w, a, b, envA, envB);
    var (lA, pA, lB, pB) := (envA.listener, envA.bound.value, envB.listener, envB.bound.value);
    var w2 := Next(Next(w, Dial(a, b, envA)), Deliver(Datagram(a, b, EncodePorts(lA, pA, 0, 0)), envB));
    LastTwoPackets(w2, a, b, lB, pB, lA, pA, envA, envB);
    assert w.openings == [] by { StartHasNoZero(w); }
  }

  lemma StartHasNoZero(w: World)
    requires IsStart(w)
    ensures 0 !in w.tables && w.openings == [] && w.reset == {} && w.failed == {}
  {
  }

  // ---- What intactness is for

  /** The handshake does not compare the ports a packet echoes with its own. For any two sessions and any two client ports:
      one dials with the first, is answered, gives up, dials again with the second, and now the response to its first
      request arrives; its acknowledgement opens the peer's connection, and the peer still holds the first port. */
  lemma StaleResponseBreaksAgreement(
      w: World, a: Address, b: Address, envA: Env, envA': Env, envB: Env) returns (moves: seq<Move>, w': World)
    requires IsStart(w) && a != b && Willing(w, a, envA) && Willing(w, a, envA') && Willing(w, b, envB)
    requires envA.bound != envA'.bound
    ensures Leads(w, moves, w') && w'.reset == {(a, b)} && w'.failed == {}
    ensures |w'.openings| == 2 && w'.openings[1].at == b && w'.openings[1].remote == a
    ensures w'.openings[1].ports.remoteClient == envA.bound.value
    ensures Entry(w', a, b).Some? && Entry(w', a, b).value.ports.localClient == envA'.bound.value
    ensures Inv(w') && Entry(w', b, a).Some?
    ensures Entry(w', b, a).value.begin != 0 && Entry(w', b, a).value.refCount == 0
  {
    hide Inv, EncodePorts, Entry, Next, StepAt, IsStart, Leads, Enabled;
    StartHasNoZero(w);
    AtStart(w, a, b);
    AtStart(w, b, a);
    FirstTwoPackets(w, a, b, envA, envB);
    var (lA, pA, lB, pB) := (envA.listener, envA.bound.value, envB.listener, envB.bound.value);
    var m1, m2 := Dial(a, b, envA), Deliver(Datagram(a, b, EncodePorts(lA, pA, 0, 0)), envB);
    var w1 := Next(w, m1);
    var w2 := Next(w1, m2);
    var m3 := GiveUpMove(w2, a, b);
    var w3 := Next(w2, m3);
    var m4 := Dial(a, b, envA');
    assert Enabled(w3, m4) by { DialIsEnabled(w3, a, b, envA'); }
    DialMove(w3, a, b, envA');
    var w4 := Next(w3, m4);
    LastTwoPackets(w4, a, b, lB, pB, lA, pA, envA, envB);
    var m5, m6 := Deliver(Datagram(b, a, EncodePorts(lB, pB, lA, pA)), envA),
                  Deliver(Datagram(a, b, EncodePorts(0, 0, lB, pB)), envB);
    var w5 := Next(w4, m5);
    LeadsNowhere(w);
    LeadsFurther(w, [], w, m1);
    LeadsFurther(w, [] + [m1], w1, m2);
    LeadsFurther(w, [] + [m1] + [m2], w2, m3);
    LeadsFurther(w, [] + [m1] + [m2] + [m3], w3, m4);
    LeadsFurther(w, [] + [m1] + [m2] + [m3] + [m4], w4, m5);
    LeadsFurther(w, [] + [m1] + [m2] + [m3] + [m4] + [m5], w5, m6);
    moves, w' := [] + [m1] + [m2] + [m3] + [m4] + [m5] + [m6], Next(w5, m6);
  }

  /** Nor does resetting on the opener's own side do: both dial, the first answers the other's request, gives up and dials
      again, and now the acknowledgement of its answer arrives. It opens a connection to ports 0 and 0. */
  lemma StaleAcknowledgementBreaksAgreement(
      w: World, a: Address, b: Address, envA: Env, envA': Env, envB: Env) returns (moves: seq<Move>, w': World)
    requires IsStart(w) && a != b && Willing(w, a, envA) && Willing(w, a, envA') && Willing(w, b, envB)
    ensures Leads(w, moves, w') && w'.reset == {(a, b)} && w'.failed == {}
    ensures |w'.openings| == 2 && w'.openings[1].at == a && w'.openings[1].remote == b
    ensures w'.openings[1].ports.remoteServer == w'.openings[1].ports.remoteClient == 0
    ensures Entry(w', b, a).Some? && Entry(w', b, a).value.ports.localServer == envB.listener != 0
  {
    hide Inv, EncodePorts, Entry, Next, StepAt, IsStart, Leads, Enabled;
    StartHasNoZero(w);
    AtStart(w, a, b);
    AtStart(w, b, a);
    var (lA, pA, lB, pB) := (envA.listener, envA.bound.value, envB.listener, envB.bound.value);
    var m1, m2 := Dial(a, b, envA), Dial(b, a, envB);
    assert Enabled(w, m1) by { DialIsEnabled(w, a, b, envA); }
    DialMove(w, a, b, envA);
    var w1 := Next(w, m1);
    assert Enabled(w1, m2) by { DialIsEnabled(w1, b, a, envB); }
    DialMove(w1, b, a, envB);
    var w2 := Next(w1, m2);
    RequestMove(w2, b, a, lB, pB, envA);
    var m3 := Deliver(Datagram(b, a, EncodePorts(lB, pB, 0, 0)), envA);
    var w3 := Next(w2, m3);
    ResponseMove(w3, a, b, lA, pA, lB, pB, envB);
    var m4 := Deliver(Datagram(a, b, EncodePorts(lA, pA, lB, pB)), envB);
    var w4 := Next(w3, m4);
    var m5 := GiveUpMove(w4, a, b);
    var w5 := Next(w4, m5);
    var m6 := Dial(a, b, envA');
    assert Enabled(w5, m6) by { DialIsEnabled(w5, a, b, envA'); }
    DialMove(w5, a, b, envA');
    var w6 := Next(w5, m6);
    AcknowledgementMove(w6, b, a, lA, pA, envA);
    var m7 := Deliver(Datagram(b, a, EncodePorts(0, 0, lA, pA)), envA);
    LeadsNowhere(w);
    LeadsFurther(w, [], w, m1);
    LeadsFurther(w, [] + [m1], w1, m2);
    LeadsFurther(w, [] + [m1] + [m2], w2, m3);
    LeadsFurther(w, [] + [m1] + [m2] + [m3], w3, m4);
    LeadsFurther(w, [] + [m1] + [m2] + [m3] + [m4], w4, m5);
    LeadsFurther(w, [] + [m1] + [m2] + [m3] + [m4] + [m5], w5, m6);
    LeadsFurther(w, [] + [m1] + [m2] + [m3] + [m4] + [m5] + [m6], w6, m7);
    moves, w' := [] + [m1] + [m2] + [m3] + [m4] + [m5] + [m6] + [m7], Next(w6, m7);
  }

  lemma DialIsEnabled(w: World, a: Address, b: Address, env: Env)
    requires a in w.tables && b != 0 && EnvAt(w, a, env)
    ensures Enabled(w, Dial(a, b, env))
  {
  }

  /** Without a reset an entry can still open twice, if its connection fails: after the peer's connection was shut down
      before it came up, a duplicate of the acknowledgement makes it open another one, to the same ports. */
  lemma FailedConnectionOpensAgain(w: World, a: Address, b: Address, envA: Env, envB: Env)
      returns (moves: seq<Move>, w': World)
    requires IsStart(w) && a != b && Willing(w, a, envA) && Willing(w, b, envB)
    ensures Leads(w, moves, w') && w'.reset == {} && w'.failed == {(b, a)}
    ensures |w'.openings| == 3 && w'.openings[1] == w'.openings[2] && w'.openings[1].at == b
  {
    hide Inv, EncodePorts, Entry, Next, StepAt, IsStart, Leads, Enabled;
    StartHasNoZero(w);
    AtStart(w, a, b);
    AtStart(w, b, a);
    FirstTwoPackets(w, a, b, envA, envB);
    var (lA, pA, lB, pB) := (envA.listener, envA.bound.value, envB.listener, envB.bound.value);
    var m1, m2 := Dial(a, b, envA), Deliver(Datagram(a, b, EncodePorts(lA, pA, 0, 0)), envB);
    var w1 := Next(w, m1);
    var w2 := Next(w1, m2);
    LastTwoPackets(w2, a, b, lB, pB, lA, pA, envA, envB);
    var m3, m4 := Deliver(Datagram(b, a, EncodePorts(lB, pB, lA, pA)), envA),
                  Deliver(Datagram(a, b, EncodePorts(0, 0, lB, pB)), envB);
    var w3 := Next(w2, m3);
    var w4 := Next(w3, m4);
    var m5 := FailMove(w4, b, a);
    var w5 := Next(w4, m5);
    AcknowledgementMove(w5, a, b, lB, pB, envB);
    LeadsNowhere(w);
    LeadsFurther(w, [], w, m1);
    LeadsFurther(w, [] + [m1], w1, m2);
    LeadsFurther(w, [] + [m1] + [m2], w2, m3);
    LeadsFurther(w, [] + [m1] + [m2] + [m3], w3, m4);
    LeadsFurther(w, [] + [m1] + [m2] + [m3] + [m4], w4, m5);
    LeadsFurther(w, [] + [m1] + [m2] + [m3] + [m4] + [m5], w5, m4);
    moves, w' := [] + [m1] + [m2] + [m3] + [m4] + [m5] + [m4], Next(w5, m4);
  }

  // ---- Exactly the intact pairs agree

  lemma {:induction false} LeadsKeepsInv(w: World, moves: seq<Move>, w': World)
    requires Inv(w) && Leads(w, moves, w')
    ensures Inv(w')
    decreases |moves|
  {
    hide Inv, Enabled, Next;
    if moves != [] {
      MoveKeepsInv(w, moves[0]);
      LeadsKeepsInv(Next(w, moves[0]), moves[1..], w');
    }
  }

  /** Every opening by at for its peer was made with the ports that the peer has reserved for it. */
  ghost predicate OpeningsAgree(w: World, at: Address, peer: Address) {
    forall n :: 0 <= n < |w.openings| && w.openings[n].at == at && w.openings[n].remote == peer ==>
      && Entry(w, peer, at).Some?
      && w.openings[n].ports.remoteServer == Entry(w, peer, at).value.ports.localServer
      && w.openings[n].ports.remoteClient == Entry(w, peer, at).value.ports.localClient
  }

  /** A world the moves lead to in which exactly the entries in r, of those of the two sessions for each other, have been
      reset. */
  ghost predicate ReachedWith(w: World, moves: seq<Move>, w': World, a: Address, b: Address, r: set<Pair>) {
    Leads(w, moves, w') && w'.reset * {(a, b), (b, a)} == r
  }

  lemma IntactAgree(w: World, moves: seq<Move>, w': World, a: Address, b: Address)
    requires IsStart(w) && a in w.tables && b in w.tables && ReachedWith(w, moves, w', a, b, {})
    ensures OpeningsAgree(w', b, a)
  {
    hide Inv, Leads, Entry;
    StartInv(w);
    LeadsKeepsInv(w, moves, w');
    LeadsKeepsSessions(w, moves, w');
    assert Intact(w', a, b) by {
      assert (a, b) in w'.reset ==> (a, b) in w'.reset * {(a, b), (b, a)};
      assert (b, a) in w'.reset ==> (b, a) in w'.reset * {(a, b), (b, a)};
    }
    forall n | 0 <= n < |w'.openings| ensures OpeningInv(w', w'.openings[n]) {
      InvOfOpening(w', n);
    }
  }

  lemma InvOfOpening(w: World, n: nat)
    requires Inv(w) && n < |w.openings|
    ensures OpeningInv(w, w.openings[n])
  {
  }

  lemma {:induction false} LeadsKeepsSessions(w: World, moves: seq<Move>, w': World)
    requires Leads(w, moves, w') && Inv(w)
    ensures w'.tables.Keys == w.tables.Keys && w'.listeners == w.listeners
    decreases |moves|
  {
    hide Inv, StepAt;
    if moves != [] {
      MoveKeepsSessions(w, moves[0]);
      MoveKeepsInv(w, moves[0]);
      LeadsKeepsSessions(Next(w, moves[0]), moves[1..], w');
    }
  }

  lemma MoveKeepsSessions(w: World, m: Move)
    requires Enabled(w, m)
    ensures Next(w, m).tables.Keys == w.tables.Keys && Next(w, m).listeners == w.listeners
  {
    hide ConnectTo, ConsumeRawUdpData, DoCheck;
    assert StepAt(w, m).0 in w.tables;
  }

  /** Whichever of the two entries were reset, some run with exactly these resets makes b open with wrong ports. */
  lemma ResetsBreakAgreement(w: World, a: Address, b: Address, r: set<Pair>) returns (moves: seq<Move>, w': World)
    requires IsStart(w) && a != b && a in w.tables && b in w.tables
    requires r <= {(a, b), (b, a)} && r != {}
    ensures ReachedWith(w, moves, w', a, b, r) && !OpeningsAgree(w', b, a)
  {
    hide Inv, Leads, Entry, Next, StepAt, Enabled, EncodePorts;
    StartHasNoZero(w);
    var envA, envA' := Env(w.listeners[a], Some(1), 1, true, true), Env(w.listeners[a], Some(2), 1, true, true);
    var envB := Env(w.listeners[b], Some(1), 1, true, true);
    if (a, b) in r {
      moves, w' := StaleResponseBreaksAgreement(w, a, b, envA, envA', envB);
      assert !OpeningsAgree(w', b, a);
      if (b, a) in r {
        var m := GiveUpMove(w', b, a);
        LeadsFurther(w, moves, w', m);
        moves, w' := moves + [m], Next(w', m);
        assert r == {(a, b), (b, a)};
      } else {
        assert r == {(a, b)};
      }
    } else {
      assert r == {(b, a)};
      moves, w' := StaleAcknowledgementBreaksAgreement(w, b, a, envB, envB, envA);
    }
  }

  /** Agreement between two sessions survives exactly where neither has reset its entry for the other: for any set of resets
      of the two entries, every run with these resets makes b open with a's reserved ports if and only if the set is
      empty. */
  lemma AgreementHoldsExactlyWhenIntact(w: World, a: Address, b: Address, r: set<Pair>)
    requires IsStart(w) && a != b && a in w.tables && b in w.tables && r <= {(a, b), (b, a)}
    ensures (forall moves, w' :: ReachedWith(w, moves, w', a, b, r) ==> OpeningsAgree(w', b, a)) <==> r == {}
  {
    hide ReachedWith, OpeningsAgree, IsStart;
    if r == {} {
      forall moves, w' | ReachedWith(w, moves, w', a, b, r) ensures OpeningsAgree(w', b, a) {
        IntactAgree(w, moves, w', a, b);
      }
    } else {
      var moves, w' := ResetsBreakAgreement(w, a, b, r);
    }
  }
}
