/** One attempt after another: two sessions that have disconnected, and none of whose packets are left in the network, agree
    again as if they had never met. */
module PortReconnection {
  import opened Words
  import opened Session
  import SlotTable
  import opened PortAgreement
  import opened PortExchanges

  /** Neither session has an entry for the other, and no packet between them is left. */
  ghost predicate Quiet(w: World, a: Address, b: Address) {
    && Entry(w, a, b).None? && Entry(w, b, a).None?
    && forall d :: d in w.net ==> !(d.src == a && d.dst == b) && !(d.src == b && d.dst == a)
  }

  /** The world with the records of the past removed: the openings, and what happened to the entries of the two for each
      other. Nothing reads the records. */
  function Forget(w: World, a: Address, b: Address): World {
    w.(openings := [], reset := w.reset - {(a, b), (b, a)}, failed := w.failed - {(a, b), (b, a)})
  }

  lemma ForgetKeepsInv(w: World, a: Address, b: Address)
    requires Inv(w) && Quiet(w, a, b) && a != 0 && b != 0
    ensures Inv(Forget(w, a, b))
  {
    hide EntryIn, SlotTable.TableInv, OpeningInv, OpeningsApart, PortsInv, DecodePorts;
    var w' := Forget(w, a, b);
    forall x, y | y != 0 ensures EntryInv(w', x, y) {
      assert EntryInv(w, x, y);
    }
    forall d | d in w'.net ensures PacketInv(w', d) {
      assert PacketInv(w, d);
    }
  }

  // ---- Nothing reads the records

  predicate SameButRecords(w: World, v: World) {
    w.tables == v.tables && w.listeners == v.listeners && w.net == v.net
  }

  /** The entries that a move resets. */
  function Resets(w: World, m: Move): set<Pair>
    requires Enabled(w, m)
  {
    var (at, step) := StepAt(w, m);
    assert at in w.tables;
    Released(at, w.tables[at], step.slots)
  }

  /** The entries reset, and those whose own connection failed, on the way. */
  ghost function ResetsDuring(w: World, moves: seq<Move>): set<Pair>
    decreases |moves|
  {
    if moves == [] || !Enabled(w, moves[0]) then {}
    else Resets(w, moves[0]) + ResetsDuring(Next(w, moves[0]), moves[1..])
  }

  ghost function FailuresDuring(w: World, moves: seq<Move>): set<Pair>
    decreases |moves|
  {
    if moves == [] || !Enabled(w, moves[0]) then {}
    else Failures(w, moves[0]) + FailuresDuring(Next(w, moves[0]), moves[1..])
  }

  lemma MoveIgnoresRecords(w: World, v: World, m: Move) returns (added: seq<Opening>)
    requires SameButRecords(w, v) && Enabled(w, m)
    ensures Enabled(v, m) && SameButRecords(Next(w, m), Next(v, m))
    ensures Next(w, m).openings == w.openings + added && Next(v, m).openings == v.openings + added
    ensures Next(v, m).reset == v.reset + Resets(w, m) && Next(v, m).failed == v.failed + Failures(w, m)
  {
    hide ConnectTo, ConsumeRawUdpData, DoCheck, ShutdownComplete, OpeningsOf, PacketsOf, Released;
    var (at, step) := StepAt(w, m);
    assert StepAt(v, m) == StepAt(w, m);
    added := OpeningsOf(at, step.effects);
  }

  lemma {:induction false} RunIgnoresRecords(w: World, v: World, moves: seq<Move>, w': World)
      returns (v': World, added: seq<Opening>)
    requires SameButRecords(w, v) && Leads(w, moves, w')
    ensures Leads(v, moves, v') && SameButRecords(w', v')
    ensures w'.openings == w.openings + added && v'.openings == v.openings + added
    ensures v'.reset == v.reset + ResetsDuring(w, moves) && v'.failed == v.failed + FailuresDuring(w, moves)
    decreases |moves|
  {
    hide Enabled, Next, Resets, Failures, SameButRecords;
    if moves == [] {
      v', added := v, [];
    } else {
      var first := MoveIgnoresRecords(w, v, moves[0]);
      var rest;
      v', rest := RunIgnoresRecords(Next(w, moves[0]), Next(v, moves[0]), moves[1..], w');
      added := first + rest;
    }
  }

  lemma SameEntries(w: World, v: World, a: Address, b: Address)
    requires SameButRecords(w, v)
    ensures Entry(w, a, b) == Entry(v, a, b)
  {
  }

  /** The world that the moves of an attempt lead to, without the records of what was before. */
  lemma AttemptAlone(
      w0: World, past: seq<Move>, w1: World, moves: seq<Move>, w2: World, a: Address, b: Address)
      returns (v2: World)
    requires IsStart(w0) && a in w0.tables && b in w0.tables
    requires Leads(w0, past, w1) && Quiet(w1, a, b) && Leads(w1, moves, w2)
    ensures Inv(v2) && SameButRecords(w2, v2) && w2.openings == w1.openings + v2.openings
    ensures b in v2.tables
    ensures (a, b) in v2.reset <==> (a, b) in ResetsDuring(w1, moves)
    ensures (b, a) in v2.reset <==> (b, a) in ResetsDuring(w1, moves)
    ensures (a, b) in v2.failed <==> (a, b) in FailuresDuring(w1, moves)
  {
    hide Inv, Leads, Quiet, IsStart, ResetsDuring, FailuresDuring;
    StartInv(w0);
    StartHasNoZero(w0);
    LeadsKeepsInv(w0, past, w1);
    LeadsKeepsSessions(w0, past, w1);
    ForgetKeepsInv(w1, a, b);
    var added;
    v2, added := RunIgnoresRecords(w1, Forget(w1, a, b), moves, w2);
    LeadsKeepsInv(Forget(w1, a, b), moves, v2);
    LeadsKeepsSessions(Forget(w1, a, b), moves, v2);
  }

  /** Agreement per attempt: in every run, from where two sessions have no entries for each other and none of their packets
      are left, whatever happened before, openings between them are made with the ports the peer has reserved, as long
      as neither resets its entry again. */
  lemma EveryAttemptAgrees(
      w0: World, past: seq<Move>, w1: World, moves: seq<Move>, w2: World, a: Address, b: Address, n: nat)
    requires IsStart(w0) && a in w0.tables && b in w0.tables
    requires Leads(w0, past, w1) && Quiet(w1, a, b) && Leads(w1, moves, w2)
    requires (a, b) !in ResetsDuring(w1, moves) && (b, a) !in ResetsDuring(w1, moves)
    requires |w1.openings| <= n < |w2.openings| && w2.openings[n].at == a && w2.openings[n].remote == b
    ensures Entry(w2, b, a).Some?
    ensures var o, t := w2.openings[n], Entry(w2, b, a).value;
            o.ports.remoteServer == t.ports.localServer && o.ports.remoteClient == t.ports.localClient
  {
    hide Inv, Leads, Quiet, IsStart, ResetsDuring, FailuresDuring, Entry, SameButRecords;
    var v2 := AttemptAlone(w0, past, w1, moves, w2, a, b);
    SameEntries(w2, v2, b, a);
    var k := n - |w1.openings|;
    assert v2.openings[k] == w2.openings[n];
    InvOfOpening(v2, k);
  }

  /** And each opens at most one connection per attempt, unless that connection fails. */
  lemma AtMostOneOpeningPerAttempt(
      w0: World, past: seq<Move>, w1: World, moves: seq<Move>, w2: World, a: Address, b: Address, m: nat, n: nat)
    requires IsStart(w0) && a in w0.tables && b in w0.tables
    requires Leads(w0, past, w1) && Quiet(w1, a, b) && Leads(w1, moves, w2)
    requires (a, b) !in ResetsDuring(w1, moves) && (a, b) !in FailuresDuring(w1, moves)
    requires |w1.openings| <= m < n < |w2.openings|
    requires w2.openings[m].at == a && w2.openings[m].remote == b
    ensures w2.openings[n].at != a || w2.openings[n].remote != b
  {
    hide Leads, Quiet, IsStart, ResetsDuring, FailuresDuring, SameButRecords, EntryInv, PacketInv, OpeningInv;
    var v2 := AttemptAlone(w0, past, w1, moves, w2, a, b);
    var k, l := m - |w1.openings|, n - |w1.openings|;
    assert v2.openings[k] == w2.openings[m] && v2.openings[l] == w2.openings[n];
    assert OpeningsApart(v2, v2.openings[k], v2.openings[l]);
  }

  // ---- Reconnecting happens

  /** Our connection comes up. */
  lemma ReportMove(w: World, a: Address, b: Address) returns (m: Move)
    requires Inv(w) && b != 0 && Entry(w, a, b).Some?
    ensures Enabled(w, m) && m.Report?
    ensures var w' := Next(w, m);
            && Inv(w') && OnlyChanges(w, w', a, b) && w'.openings == w.openings
            && Entry(w', a, b) == Some(Connected(Entry(w, a, b).value))
  {
    hide Inv, FindMatchingEntry, EntryIn, GoodChange, Connected;
    MatchIsEntry(w, a, b);
    var i := FindMatchingEntry(w.tables[a], b).index;
    InvAt(w, a, i);
    m := Report(a, i);
    ReportIsGood(w, a, i);
    assert Connected(w.tables[a][i]).remote == b by { ConnectedKeepsPeer(w.tables[a][i]); }
    AfterChange(w, m, i, Result(Connected(w.tables[a][i]), []));
  }

  lemma ConnectedKeepsPeer(s: Slot)
    ensures Connected(s).remote == s.remote
  {
  }

  /** The last connection of an entry shuts down. */
  lemma LastShutMove(w: World, a: Address, b: Address) returns (m: Move)
    requires Inv(w) && b != 0 && Entry(w, a, b).Some?
    requires Entry(w, a, b).value.begin == 0 && Entry(w, a, b).value.refCount == 1
    ensures Enabled(w, m) && m.Shut?
    ensures var w' := Next(w, m);
            && Inv(w') && Entry(w', a, b).None? && HasFreeEntry(w', a) && w'.openings == w.openings
            && w'.listeners == w.listeners && w'.tables.Keys == w.tables.Keys
            && (forall x: Address, y: Address :: y != 0 && !(x == a && y == b) ==> Entry(w', x, y) == Entry(w, x, y))
            && (forall x: Address :: x in w.tables && x != a ==> w'.tables[x] == w.tables[x])
  {
    hide Inv, FindMatchingEntry, EntryIn, GoodChange;
    MatchIsEntry(w, a, b);
    var i := FindMatchingEntry(w.tables[a], b).index;
    InvAt(w, a, i);
    m := Shut(a, i, true);
    ShutIsGood(w, a, i, true);
    var r := ShutdownComplete(w.tables[a][i], true);
    AfterChange(w, m, i, r);
    NoOpenings(a, r.effects);
    assert IsEmpty(Next(w, m).tables[a][i]);
  }

  /** Every packet may expire. */
  lemma {:induction false} AllExpire(w: World) returns (moves: seq<Move>)
    requires Inv(w)
    ensures Inv(w.(net := {})) && Leads(w, moves, w.(net := {}))
    decreases |w.net|
  {
    hide Inv, Leads, Next, Enabled;
    if w.net == {} {
      moves := [];
      LeadsNowhere(w);
    } else {
      var d :| d in w.net;
      assert Enabled(w, Expire(d)) by { SenderExists(w, d); }
      ExpireIsLoss(w, d);
      MoveKeepsInv(w, Expire(d));
      LeadsNowhere(w);
      LeadsFurther(w, [], w, Expire(d));
      var more := AllExpire(Next(w, Expire(d)));
      LeadsOn(w, [] + [Expire(d)], Next(w, Expire(d)), more, w.(net := {}));
      moves := [] + [Expire(d)] + more;
    }
  }

  lemma SenderExists(w: World, d: Datagram)
    requires Inv(w) && d in w.net
    ensures Enabled(w, Expire(d))
  {
    assert PacketInv(w, d);
  }

  /** Dialling and the three packets, in any world in which the two sessions have no entries for each other and room for
      one. */
  lemma Connects(w: World, a: Address, b: Address, envA: Env, envB: Env) returns (moves: seq<Move>, w': World)
    requires Inv(w) && a != b && a != 0 && b != 0 && Willing(w, a, envA) && Willing(w, b, envB)
    requires Entry(w, a, b).None? && Entry(w, b, a).None? && HasFreeEntry(w, a) && HasFreeEntry(w, b)
    ensures Leads(w, moves, w') && Inv(w')
    ensures w'.openings == w.openings + [
      Opening(a, b, Ports(envB.listener, envB.bound.value, envA.listener, envA.bound.value)),
      Opening(b, a, Ports(envA.listener, envA.bound.value, envB.listener, envB.bound.value))]
    ensures w'.listeners == w.listeners && w'.tables.Keys == w.tables.Keys
    ensures Entry(w', a, b).Some? && Entry(w', a, b).value.refCount == 0
    ensures Entry(w', b, a).Some? && Entry(w', b, a).value.refCount == 0
  {
    hide Inv, EncodePorts, Entry, Next, StepAt, Leads, Enabled;
    FirstTwoPackets(w, a, b, envA, envB);
    var (lA, pA, lB, pB) := (envA.listener, envA.bound.value, envB.listener, envB.bound.value);
    var m1, m2 := Dial(a, b, envA), Deliver(Datagram(a, b, EncodePorts(lA, pA, 0, 0)), envB);
    var m3, m4 := Deliver(Datagram(b, a, EncodePorts(lB, pB, lA, pA)), envA),
                  Deliver(Datagram(a, b, EncodePorts(0, 0, lB, pB)), envB);
    var w1 := Next(w, m1);
    var w2 := Next(w1, m2);
    LastTwoPackets(w2, a, b, lB, pB, lA, pA, envA, envB);
    var w3 := Next(w2, m3);
    LeadsNowhere(w);
    LeadsFurther(w, [], w, m1);
    LeadsFurther(w, [] + [m1], w1, m2);
    LeadsFurther(w, [] + [m1] + [m2], w2, m3);
    LeadsFurther(w, [] + [m1] + [m2] + [m3], w3, m4);
    moves, w' := [] + [m1] + [m2] + [m3] + [m4], Next(w3, m4);
  }

  /** A connection that came up on one side goes away there. */
  lemma ComesAndGoes(w: World, a: Address, b: Address) returns (moves: seq<Move>, w': World)
    requires Inv(w) && b != 0 && Entry(w, a, b).Some? && Entry(w, a, b).value.refCount == 0
    ensures Leads(w, moves, w') && Inv(w') && Entry(w', a, b).None? && HasFreeEntry(w', a)
    ensures w'.openings == w.openings && w'.listeners == w.listeners && w'.tables.Keys == w.tables.Keys
    ensures forall x: Address, y: Address :: y != 0 && !(x == a && y == b) ==> Entry(w', x, y) == Entry(w, x, y)
    ensures forall x: Address :: x in w.tables && x != a ==> w'.tables[x] == w.tables[x]
  {
    hide Inv, Entry, Next, Leads, Enabled;
    var m1 := ReportMove(w, a, b);
    var w1 := Next(w, m1);
    var m2 := LastShutMove(w1, a, b);
    LeadsNowhere(w);
    LeadsFurther(w, [], w, m1);
    LeadsFurther(w, [] + [m1], w1, m2);
    moves, w' := [] + [m1] + [m2], Next(w1, m2);
  }

  /** From every start two sessions can connect, disconnect on both sides until nothing of it is left, and connect again
      with ports of their own choice. */
  lemma ReconnectionHappens(
      w: World, a: Address, b: Address, envA: Env, envB: Env, envA': Env, envB': Env)
      returns (past: seq<Move>, w1: World, moves: seq<Move>, w2: World)
    requires IsStart(w) && a != b && Willing(w, a, envA) && Willing(w, b, envB)
    requires Willing(w, a, envA') && Willing(w, b, envB')
    ensures Leads(w, past, w1) && Quiet(w1, a, b) && |w1.openings| == 2
    ensures Leads(w1, moves, w2)
    ensures w2.openings == w1.openings + [
      Opening(a, b, Ports(envB'.listener, envB'.bound.value, envA'.listener, envA'.bound.value)),
      Opening(b, a, Ports(envA'.listener, envA'.bound.value, envB'.listener, envB'.bound.value))]
  {
    hide Inv, Entry, Next, Leads, Enabled, IsStart, HasFreeEntry;
    StartHasNoZero(w);
    AtStart(w, a, b);
    AtStart(w, b, a);
    var p1, v1 := Connects(w, a, b, envA, envB);
    var p2, v2 := ComesAndGoes(v1, a, b);
    var p3, v3 := ComesAndGoes(v2, b, a);
    assert HasFreeEntry(v3, a) by { StillFree(v2, v3, a); }
    var p4 := AllExpire(v3);
    w1 := v3.(net := {});
    LeadsOn(w, p1, v1, p2, v2);
    LeadsOn(w, p1 + p2, v2, p3, v3);
    LeadsOn(w, p1 + p2 + p3, v3, p4, w1);
    past := p1 + p2 + p3 + p4;
    SameEntriesWithoutPackets(v3, a, b);
    SameEntriesWithoutPackets(v3, b, a);
    moves, w2 := Connects(w1, a, b, envA', envB');
  }

  lemma StillFree(w: World, w': World, at: Address)
    requires HasFreeEntry(w, at) && at in w'.tables && w'.tables[at] == w.tables[at]
    ensures HasFreeEntry(w', at)
  {
  }

  lemma SameEntriesWithoutPackets(w: World, a: Address, b: Address)
    ensures Entry(w.(net := {}), a, b) == Entry(w, a, b)
    ensures HasFreeEntry(w.(net := {}), a) <==> HasFreeEntry(w, a)
  {
  }
}
