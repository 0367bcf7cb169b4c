/** The reference count of an entry against the connections it stands for, over runs with connection events in any
    order: for a handle that reports CONNECTED before its SHUTDOWN_COMPLETE, and for one that never comes up. */
module ConnectionCount {
  import opened Words
  import opened Session
  import SlotTable

  /** The table, the connections of each entry that are up, how many shutdowns each entry has seen of connections that
      had not come up, and every handle that has reported. */
  datatype State = State(slots: seq<Slot>, live: seq<set<nat>>, unreported: seq<nat>, seen: set<nat>)

  datatype Event =
    | Other(a: SlotTable.Action)
    | Report(i: nat, handle: nat)
    | Shutdown(i: nat, handle: nat, client: bool)

  predicate Shaped(s: State) {
    |s.live| == |s.unreported| == |s.slots|
  }

  /** A handle reports CONNECTED at most once. */
  predicate Enabled(s: State, e: Event) {
    match e
    case Other(a) => SlotTable.Enabled(s.slots, a) && !a.OnConnected? && !a.OnShutdown?
    case Report(i, h) => i < |s.slots| && h !in s.seen
    case Shutdown(i, _, _) => i < |s.slots|
  }

  function Next(s: State, e: Event): State
    requires Enabled(s, e) && Shaped(s)
  {
    match e
    case Other(a) => s.(slots := SlotTable.Apply(s.slots, a).slots)
    case Report(i, h) =>
      s.(slots := s.slots[i := Connected(s.slots[i])], live := s.live[i := s.live[i] + {h}], seen := s.seen + {h})
    case Shutdown(i, h, client) =>
      s.(slots := s.slots[i := ShutdownComplete(s.slots[i], client).slot],
         live := s.live[i := s.live[i] - {h}],
         unreported := s.unreported[i := s.unreported[i] + if h in s.live[i] then 0 else 1])
  }

  ghost predicate Inv(s: State) {
    && Shaped(s)
    && forall i :: 0 <= i < |s.slots| ==>
         s.live[i] <= s.seen && s.slots[i].refCount == (|s.live[i]| - s.unreported[i]) % TWO_32
  }

  function Initial(): State {
    State(SlotTable.Initial(), seq(SlotTable.MAX_CONNECTIONS, _ => {}), seq(SlotTable.MAX_CONNECTIONS, _ => 0), {})
  }

  ghost predicate IsRun(states: seq<State>, events: seq<Event>) {
    && |states| == |events| + 1
    && states[0] == Initial()
    && forall k :: 0 <= k < |events| ==>
         Shaped(states[k]) && Enabled(states[k], events[k]) && states[k + 1] == Next(states[k], events[k])
  }

  /** No other handler touches a reference count. */
  lemma OthersKeepCounts(slots: seq<Slot>, a: SlotTable.Action)
    requires SlotTable.Enabled(slots, a) && !a.OnConnected? && !a.OnShutdown?
    ensures var slots' := SlotTable.Apply(slots, a).slots;
            |slots'| == |slots| && forall i :: 0 <= i < |slots| ==> slots'[i].refCount == slots[i].refCount
  {
    hide FindMatchingEntry, EncodePorts, DecodePorts;
    match a
    case Connect(remote, _) => FindMatchingEntryIsLookup(slots, remote);
    case Packet(_, remote, _) => FindMatchingEntryIsLookup(slots, remote);
    case _ =>
  }

  lemma CountsWrap(x: int)
    ensures (if x % TWO_32 == TWO_32 - 1 then 0 else x % TWO_32 + 1) == (x + 1) % TWO_32
    ensures (if x % TWO_32 == 0 then TWO_32 - 1 else x % TWO_32 - 1) == (x - 1) % TWO_32
  {
  }

  lemma HandlersCount(s: Slot, client: bool, x: int)
    requires s.refCount == x % TWO_32
    ensures Connected(s).refCount == (x + 1) % TWO_32
    ensures ShutdownComplete(s, client).slot.refCount == (x - 1) % TWO_32
  {
    CountsWrap(x);
  }

  lemma ReportKeepsInv(s: State, i: nat, h: nat)
    requires Inv(s) && Enabled(s, Report(i, h))
    ensures Inv(Next(s, Report(i, h)))
  {
    hide Connected;
    HandlersCount(s.slots[i], false, |s.live[i]| - s.unreported[i]);
    assert |s.live[i] + {h}| == |s.live[i]| + 1;
  }

  lemma ShutdownKeepsInv(s: State, i: nat, h: nat, client: bool)
    requires Inv(s) && Enabled(s, Shutdown(i, h, client))
    ensures Inv(Next(s, Shutdown(i, h, client)))
  {
    hide ShutdownComplete;
    HandlersCount(s.slots[i], client, |s.live[i]| - s.unreported[i]);
    if h in s.live[i] {
      assert |s.live[i] - {h}| == |s.live[i]| - 1;
    } else {
      assert s.live[i] - {h} == s.live[i];
    }
  }

  lemma StepKeepsInv(s: State, e: Event)
    requires Inv(s) && Enabled(s, e)
    ensures Inv(Next(s, e))
  {
    hide SlotTable.Apply, SlotTable.Enabled;
    match e
    case Other(a) => OthersKeepCounts(s.slots, a);
    case Report(i, h) => ReportKeepsInv(s, i, h);
    case Shutdown(i, h, client) => ShutdownKeepsInv(s, i, h, client);
  }

  /** In every run, whatever order connection events come in, the reference count of each entry is the number of its
      connections that are up less the shutdowns of connections that were not, modulo 2^32. */
  lemma {:induction false} CountIsLiveMinusUnreported(states: seq<State>, events: seq<Event>, k: nat)
    requires IsRun(states, events) && k <= |events|
    ensures Inv(states[k])
  {
    hide Enabled, Next;
    if k > 0 {
      CountIsLiveMinusUnreported(states, events, k - 1);
      StepKeepsInv(states[k - 1], events[k - 1]);
    }
  }

  /** The discipline: every shutdown of the entry is of a connection that is up. */
  ghost predicate Disciplined(states: seq<State>, events: seq<Event>, i: nat, k: nat)
    requires k <= |events| <= |states|
  {
    forall j :: 0 <= j < k && events[j].Shutdown? && events[j].i == i && i < |states[j].live| ==>
      events[j].handle in states[j].live[i]
  }

  lemma {:induction false} NoneUnreportedExactlyWhen(states: seq<State>, events: seq<Event>, i: nat, k: nat)
    requires IsRun(states, events) && k <= |events| && i < SlotTable.MAX_CONNECTIONS
    ensures |states[k].unreported| == SlotTable.MAX_CONNECTIONS
    ensures states[k].unreported[i] == 0 <==> Disciplined(states, events, i, k)
  {
    hide SlotTable.Apply;
    if k > 0 {
      NoneUnreportedExactlyWhen(states, events, i, k - 1);
      assert states[k] == Next(states[k - 1], events[k - 1]);
    }
  }

  /** If every handle reports CONNECTED before its SHUTDOWN_COMPLETE, the reference count of each entry is the number of
      its connections that are up, as long as these are fewer than 2^32. In general it is that exactly if the number
      of shutdowns of connections that were not up is a multiple of 2^32. */
  lemma CountIsLiveConnections(states: seq<State>, events: seq<Event>, k: nat, i: nat)
    requires IsRun(states, events) && k <= |events| && i < SlotTable.MAX_CONNECTIONS
    ensures |states[k].slots| == |states[k].live| == |states[k].unreported| == SlotTable.MAX_CONNECTIONS
    ensures Disciplined(states, events, i, k) ==> states[k].slots[i].refCount == |states[k].live[i]| % TWO_32
    ensures Disciplined(states, events, i, k) && |states[k].live[i]| < TWO_32 ==>
              states[k].slots[i].refCount == |states[k].live[i]|
    ensures |states[k].live[i]| < TWO_32 ==>
              (states[k].slots[i].refCount == |states[k].live[i]| <==> states[k].unreported[i] % TWO_32 == 0)
  {
    CountIsLiveMinusUnreported(states, events, k);
    NoneUnreportedExactlyWhen(states, events, i, k);
  }

  /** So, with the discipline, a shutdown calls OnDisconnect exactly when it was the entry's last connection, and the
      entry is then as new: empty, without a peer, and free for the next one. While others are up, the entry loses
      no more than the handle of our own connection, if it was that one. */
  lemma LastShutdownFreesTheEntry(states: seq<State>, events: seq<Event>, k: nat)
    requires IsRun(states, events) && k < |events| && events[k].Shutdown?
    requires Disciplined(states, events, events[k].i, k + 1)
    requires events[k].i < |states[k + 1].live| ==> |states[k + 1].live[events[k].i]| < TWO_32
    ensures var i := events[k].i;
            && i < |states[k].slots| == |states[k + 1].slots| == |states[k + 1].live|
            && var r := ShutdownComplete(states[k].slots[i], events[k].client);
               && r.slot == states[k + 1].slots[i]
               && (r.effects == [CallDisconnect] <==> states[k + 1].live[i] == {})
               && (r.effects == [] <==> states[k + 1].live[i] != {})
               && (states[k + 1].live[i] == {} ==> r.slot == FRESH_SLOT && IsEmpty(r.slot))
               && (states[k + 1].live[i] != {} ==>
                     r.slot.(refCount := 0) == states[k].slots[i].(
                       selfOpen := states[k].slots[i].selfOpen && !events[k].client, refCount := 0))
  {
    var i := events[k].i;
    TableStays(states, events, k);
    CountIsLiveConnections(states, events, k + 1, i);
    assert states[k + 1] == Next(states[k], events[k]);
  }

  /** The discipline is needed. In any run a shutdown disconnects and frees the entry exactly if the connections still up
      and the shutdowns of connections that were not are equally many modulo 2^32. So, after fewer than 2^32
      shutdowns of the latter kind and at least one, an entry none of whose connections is up keeps a wrapped count
      and is not empty. */
  lemma UnreportedShutdownWraps(states: seq<State>, events: seq<Event>, k: nat)
    requires IsRun(states, events) && k < |events| && events[k].Shutdown?
    ensures var i := events[k].i;
            && i < |states[k].slots| == |states[k + 1].slots| == |states[k + 1].live| == |states[k + 1].unreported|
            && var r, s' := ShutdownComplete(states[k].slots[i], events[k].client), states[k + 1];
               && r.slot == s'.slots[i]
               && (r.effects == [CallDisconnect] <==> (|s'.live[i]| - s'.unreported[i]) % TWO_32 == 0)
               && (s'.live[i] == {} && 0 < s'.unreported[i] < TWO_32 ==>
                     r.effects == [] && r.slot.refCount == TWO_32 - s'.unreported[i] && !IsEmpty(r.slot)
                     && r.slot.remote == states[k].slots[i].remote && r.slot.ports == states[k].slots[i].ports)
  {
    TableStays(states, events, k);
    CountIsLiveMinusUnreported(states, events, k + 1);
    assert states[k + 1] == Next(states[k], events[k]);
  }

  lemma TableStays(states: seq<State>, events: seq<Event>, k: nat)
    requires IsRun(states, events) && k < |events| && events[k].Shutdown?
    ensures events[k].i < |states[k].slots| == |states[k + 1].slots| == SlotTable.MAX_CONNECTIONS
  {
    NoneUnreportedExactlyWhen(states, events, 0, k);
    CountIsLiveMinusUnreported(states, events, k);
  }

  // ---- Entries that nobody can use

  function ActionOf(e: Event): SlotTable.Action {
    match e
    case Other(a) => a
    case Report(i, _) => SlotTable.OnConnected(i)
    case Shutdown(i, _, client) => SlotTable.OnShutdown(i, client)
  }

  function Tables(states: seq<State>): (tables: seq<seq<Slot>>)
    ensures |tables| == |states| && forall k :: 0 <= k < |states| ==> tables[k] == states[k].slots
  {
    seq(|states|, k requires 0 <= k < |states| => states[k].slots)
  }

  function Actions(events: seq<Event>): (actions: seq<SlotTable.Action>)
    ensures |actions| == |events| && forall k :: 0 <= k < |events| ==> actions[k] == ActionOf(events[k])
  {
    seq(|events|, k requires 0 <= k < |events| => ActionOf(events[k]))
  }

  /** A run with connections is a run of the table. */
  lemma RunOfTheTable(states: seq<State>, events: seq<Event>)
    requires IsRun(states, events)
    ensures SlotTable.IsRun(Tables(states), Actions(events))
  {
    hide SlotTable.Initial;
    var tables, actions := Tables(states), Actions(events);
    forall k | 0 <= k < |actions|
      ensures SlotTable.Enabled(tables[k], actions[k])
      ensures tables[k + 1] == SlotTable.Apply(tables[k], actions[k]).slots
    {
      EventIsAction(states[k], events[k]);
    }
  }

  lemma EventIsAction(s: State, e: Event)
    requires Shaped(s) && Enabled(s, e)
    ensures SlotTable.Enabled(s.slots, ActionOf(e))
    ensures Next(s, e).slots == SlotTable.Apply(s.slots, ActionOf(e)).slots
  {
    hide ConnectTo, ConsumeRawUdpData;
  }

  /** In every run an entry is blocked exactly if it has no peer and either holds stray ports or has connections up and
      shutdowns of connections that were not up in different numbers, modulo 2^32. */
  lemma BlockedExactlyWhen(states: seq<State>, events: seq<Event>, k: nat, i: nat)
    requires IsRun(states, events) && k <= |events| && i < SlotTable.MAX_CONNECTIONS
    ensures |states[k].slots| == |states[k].live| == |states[k].unreported| == SlotTable.MAX_CONNECTIONS
    ensures var s := states[k].slots[i];
            SlotTable.IsBlocked(s) <==>
              s.remote == 0
              && (SlotTable.HoldsStrayPorts(s) || (|states[k].live[i]| - states[k].unreported[i]) % TWO_32 != 0)
  {
    CountIsLiveMinusUnreported(states, events, k);
    NoneUnreportedExactlyWhen(states, events, i, k);
  }

  ghost predicate NoneBlocked(s: State) {
    forall i :: 0 <= i < |s.slots| ==> !SlotTable.IsBlocked(s.slots[i])
  }

  /** Entries without a peer have as many connections up as shutdowns of others, modulo 2^32. */
  ghost predicate Balanced(s: State) {
    && Shaped(s)
    && forall i :: 0 <= i < |s.slots| && s.slots[i].remote == 0 ==> (|s.live[i]| - s.unreported[i]) % TWO_32 == 0
  }

  lemma NoneBlockedAt(states: seq<State>, events: seq<Event>, k: nat)
    requires IsRun(states, events) && k <= |events|
    ensures NoneBlocked(states[k]) <==> SlotTable.NoStrayPorts(states[k].slots) && Balanced(states[k])
  {
    hide SlotTable.IsBlocked, SlotTable.HoldsStrayPorts, Next, Enabled, Initial;
    BlockedExactlyWhen(states, events, k, 0);
    forall i: nat | i < SlotTable.MAX_CONNECTIONS
      ensures var s := states[k].slots[i];
              SlotTable.IsBlocked(s) <==>
                s.remote == 0
                && (SlotTable.HoldsStrayPorts(s) || (|states[k].live[i]| - states[k].unreported[i]) % TWO_32 != 0)
    {
      BlockedExactlyWhen(states, events, k, i);
    }
    assert forall i :: 0 <= i < |states[k].slots| && SlotTable.HoldsStrayPorts(states[k].slots[i]) ==>
        states[k].slots[i].remote == 0 by { StrayHasNoPeer(); }
  }

  lemma StrayHasNoPeer()
    ensures forall s :: SlotTable.HoldsStrayPorts(s) ==> s.remote == 0
  {
  }

  /** A run never blocks an entry exactly if no request of a new peer fails to bind and entries without a peer are always
      balanced. */
  lemma NoneBlockedExactlyWhen(states: seq<State>, events: seq<Event>)
    requires IsRun(states, events)
    ensures (forall k :: 0 <= k <= |events| ==> NoneBlocked(states[k]))
       <==> (forall k :: 0 <= k < |events| ==> !SlotTable.FailsToBind(states[k].slots, ActionOf(events[k])))
            && (forall k :: 0 <= k <= |events| ==> Balanced(states[k]))
  {
    hide SlotTable.FailsToBind, NoneBlocked, Balanced, SlotTable.NoStrayPorts, Next, Enabled;
    var tables, actions := Tables(states), Actions(events);
    RunOfTheTable(states, events);
    SlotTable.PortsStrayExactlyWhen(tables, actions);
    forall k | 0 <= k <= |events|
      ensures NoneBlocked(states[k]) <==> SlotTable.NoStrayPorts(tables[k]) && Balanced(states[k])
    {
      NoneBlockedAt(states, events, k);
    }
    assert forall k :: 0 <= k < |events| ==>
        SlotTable.FailsToBind(tables[k], actions[k]) == SlotTable.FailsToBind(states[k].slots, ActionOf(events[k]));
  }

  /** A run to which one more event is added. */
  lemma RunExtends(states: seq<State>, events: seq<Event>, e: Event)
      returns (states': seq<State>, events': seq<Event>)
    requires IsRun(states, events) && Shaped(states[|events|]) && Enabled(states[|events|], e)
    ensures IsRun(states', events') && events' == events + [e]
    ensures |states'| == |states| + 1 && states' == states + [Next(states[|events|], e)]
  {
    hide Enabled, Next, Initial;
    states', events' := states + [Next(states[|events|], e)], events + [e];
  }

  /** A handshake that times out after we opened a connection blocks its entry, with every bind successful: the check drops
      the handle, and the shutdown of the connection that had not come up wraps the count. */
  lemma GivingUpBlocksTheEntry(remote: Address, env: Env, x: u16, y: u16, p: u16, q: u16, handle: nat)
      returns (states: seq<State>, events: seq<Event>)
    requires remote != 0 && env.Valid() && env.bound.Some? && env.openOk && env.accepts
    requires (x != 0 || y != 0) && (p != 0 || q != 0)
    ensures IsRun(states, events)
    ensures events == [Other(SlotTable.Connect(remote, env)),
                       Other(SlotTable.Packet(EncodePorts(x, y, p, q), remote, env)),
                       Other(SlotTable.Check(0, env.now + LONG_STOP + 1)),
                       Shutdown(0, handle, true)]
    ensures |states[2].slots| > 0 && states[2].slots[0].selfOpen
    ensures forall k :: 0 <= k < 4 ==> !SlotTable.FailsToBind(states[k].slots, ActionOf(events[k]))
    ensures |states[4].slots| > 0 && SlotTable.IsBlocked(states[4].slots[0]) && states[4].slots[0].ports == NO_PORTS
  {
    hide EncodePorts, DecodePorts, FindMatchingEntry;
    var data := EncodePorts(x, y, p, q);
    PortsRoundTrip(x, y, p, q);
    SlotTable.FirstEntryIsFound(remote);
    var e1, e2 := Other(SlotTable.Connect(remote, env)), Other(SlotTable.Packet(data, remote, env));
    var e3, e4 := Other(SlotTable.Check(0, env.now + LONG_STOP + 1)), Shutdown(0, handle, true);
    states, events := [Initial()], [];
    states, events := RunExtends(states, events, e1);
    var slots := states[1].slots;
    FindMatchingEntryIsLookup(slots, remote);
    assert slots[0].remote == remote;
    states, events := RunExtends(states, events, e2);
    states, events := RunExtends(states, events, e3);
    states, events := RunExtends(states, events, e4);
  }
}
