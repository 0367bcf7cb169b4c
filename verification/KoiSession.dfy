/** The session object as the program runs it: sixteen connection contexts updated in place. Every method is tied to the
    function on values that SlotTable, ConnectionCount and PortAgreement reason about. */
module KoiSession {
  import opened Words
  import opened Session
  import Receiver
  import SlotTable

  class ConnectionContext {
    var RemoteSentinel: Address
    var HandshakeBegin: nat
    var ConnectionPorts: Ports
    var Transient: bool
    var SelfOpen: bool
    var Reliable: seq<Receiver.Channel>
    var RefCount: u32

    function View(): Slot
      reads this
    {
      Slot(RemoteSentinel, HandshakeBegin, ConnectionPorts, Transient, SelfOpen, Reliable, RefCount)
    }

    constructor ()
      ensures View() == FRESH_SLOT
    {
      RemoteSentinel, HandshakeBegin, ConnectionPorts := 0, 0, NO_PORTS;
      Transient, SelfOpen, Reliable, RefCount := false, false, FRESH_CHANNELS, 0;
    }

    /** Clears everything but the reference count. */
    method Reset()
      modifies this
      ensures View() == Session.Reset(old(View()))
    {
      Reliable := FRESH_CHANNELS;
      SelfOpen := false;
      RemoteSentinel := 0;
      HandshakeBegin := 0;
      Transient := false;
      ConnectionPorts := NO_PORTS;
    }
  }

  class KoiSession {
    const contexts: seq<ConnectionContext>
    /** What the session has asked of the outside so far. */
    var log: seq<Effect>

    ghost predicate Valid() {
      && |contexts| == SlotTable.MAX_CONNECTIONS
      && forall i, j :: 0 <= i < j < |contexts| ==> contexts[i] != contexts[j]
    }

    ghost function Slots(): (slots: seq<Slot>)
      reads contexts
      ensures |slots| == |contexts|
      ensures forall i :: 0 <= i < |slots| ==> slots[i] == contexts[i].View()
    {
      seq(|contexts|, i requires 0 <= i < |contexts| reads contexts => contexts[i].View())
    }

    constructor (cs: seq<ConnectionContext>)
      requires |cs| == SlotTable.MAX_CONNECTIONS
      requires forall i, j :: 0 <= i < j < |cs| ==> cs[i] != cs[j]
      requires forall i :: 0 <= i < |cs| ==> cs[i].View() == FRESH_SLOT
      ensures Valid() && contexts == cs && Slots() == SlotTable.Initial() && log == []
    {
      contexts, log := cs, [];
    }

    /** Appends to the log and leaves the contexts alone. */
    method Ask(effects: seq<Effect>)
      modifies this
      ensures log == old(log) + effects
    {
      log := log + effects;
    }

    method FindMatchingEntry(remote: Address) returns (matching: bool, index: int)
      requires Valid()
      ensures Found(matching, index) == Session.FindMatchingEntry(Slots(), remote)
      ensures IsLookup(Slots(), remote, Found(matching, index))
    {
      FindMatchingEntryIsLookup(Slots(), remote);
      var firstEmpty := -1;
      for i := 0 to |contexts|
        invariant Session.FindMatchingEntry(Slots(), remote) == Scan(Slots(), remote, i, firstEmpty)
      {
        var connCtx := contexts[i];
        if connCtx.RemoteSentinel == remote {
          return true, i;
        }
        if firstEmpty == -1 && connCtx.RefCount == 0 && connCtx.ConnectionPorts == NO_PORTS {
          firstEmpty := i;
        }
      }
      return false, firstEmpty;
    }

    /** The table after changing one context. */
    twostate lemma OneChanged(i: nat)
      requires Valid() && i < |contexts|
      requires forall j :: 0 <= j < |contexts| && j != i ==> contexts[j].View() == old(contexts[j].View())
      ensures Slots() == old(Slots())[i := contexts[i].View()]
    {
    }

    method ConnectTo(remote: Address, env: Env)
      requires Valid()
      modifies this, contexts
      ensures var step := Session.ConnectTo(old(Slots()), remote, env);
              Slots() == step.slots && log == old(log) + step.effects
    {
      var matching, foundIndex := FindMatchingEntry(remote);
      if matching || foundIndex == -1 || env.bound.None? {
        return;
      }
      var ctx := contexts[foundIndex];
      ctx.ConnectionPorts := ctx.ConnectionPorts.(localServer := env.listener, localClient := env.bound.value);
      ctx.HandshakeBegin := env.now;
      ctx.Transient := true;
      ctx.RemoteSentinel := remote;
      Ask([SendPorts(remote, EncodePorts(env.listener, env.bound.value, 0, 0))]);
      OneChanged(foundIndex);
    }

    method ConsumeRawUdpData(data: seq<byte>, remote: Address, env: Env)
      requires Valid()
      modifies this, contexts
      ensures var step := Session.ConsumeRawUdpData(old(Slots()), data, remote, env);
              Slots() == step.slots && log == old(log) + step.effects
    {
      hide EncodePorts, DecodePorts;
      if |data| != 8 {
        return;
      }
      var p := DecodePorts(data);
      var matching, foundIndex := FindMatchingEntry(remote);
      if foundIndex == -1 {
        return;
      }
      var connected := contexts[foundIndex].HandshakeBegin == 0;
      var theirs := p.remoteServer != 0 || p.remoteClient != 0;
      var ours := p.localServer != 0 || p.localClient != 0;
      if theirs && !ours {
        if matching && connected {
          return;
        }
        Receive1st(p, foundIndex, remote, env);
        OneChanged(foundIndex);
      } else if theirs && ours {
        if !matching || connected {
          return;
        }
        Receive2nd(p, foundIndex, remote, env);
        OneChanged(foundIndex);
      } else if ours {
        if !matching || connected {
          return;
        }
        StartClient(foundIndex, remote, env);
        OneChanged(foundIndex);
      }
    }

    method Receive1st(p: Ports, foundIndex: nat, remote: Address, env: Env)
      requires Valid() && foundIndex < |contexts|
      modifies this, contexts[foundIndex]
      ensures var r := Session.Receive1st(old(contexts[foundIndex].View()), p, remote, env);
              contexts[foundIndex].View() == r.slot && log == old(log) + r.effects
    {
      hide EncodePorts;
      var ctx := contexts[foundIndex];
      var localServerPort, localClientPort := ctx.ConnectionPorts.localServer, ctx.ConnectionPorts.localClient;
      ctx.ConnectionPorts :=
        ctx.ConnectionPorts.(remoteServer := p.remoteServer, remoteClient := p.remoteClient);
      Ask(ChallengeFirewall(remote, p));
      if ctx.HandshakeBegin == 0 {
        if env.bound.None? {
          return;
        }
        localServerPort, localClientPort := env.listener, env.bound.value;
        ctx.ConnectionPorts := ctx.ConnectionPorts.(localServer := localServerPort, localClient := localClientPort);
        ctx.HandshakeBegin := env.now;
        ctx.Transient := true;
        ctx.RemoteSentinel := remote;
      }
      Ask([SendPorts(remote, EncodePorts(localServerPort, localClientPort, p.remoteServer, p.remoteClient))]);
    }

    method Receive2nd(p: Ports, foundIndex: nat, remote: Address, env: Env)
      requires Valid() && foundIndex < |contexts|
      modifies this, contexts[foundIndex]
      ensures var r := Session.Receive2nd(old(contexts[foundIndex].View()), p, remote, env);
              contexts[foundIndex].View() == r.slot && log == old(log) + r.effects
    {
      hide EncodePorts;
      var ctx := contexts[foundIndex];
      ctx.ConnectionPorts :=
        ctx.ConnectionPorts.(remoteServer := p.remoteServer, remoteClient := p.remoteClient);
      Ask(ChallengeFirewall(remote, p));
      Ask([SendPorts(remote, EncodePorts(0, 0, p.remoteServer, p.remoteClient))]);
      StartClient(foundIndex, remote, env);
    }

    method StartClient(foundIndex: nat, remote: Address, env: Env)
      requires Valid() && foundIndex < |contexts|
      modifies this, contexts[foundIndex]
      ensures var r := Session.StartClient(old(contexts[foundIndex].View()), remote, env);
              contexts[foundIndex].View() == r.slot && log == old(log) + r.effects
    {
      var ctx := contexts[foundIndex];
      if ctx.SelfOpen || !env.openOk {
        return;
      }
      ctx.SelfOpen := true;
      Ask([OpenClient(remote, ctx.ConnectionPorts)]);
      if !env.accepts {
        ctx.Reset();
        return;
      }
      ctx.Transient := false;
      Ask([StartConnection(remote, ctx.ConnectionPorts.localClient, ctx.ConnectionPorts.remoteServer)]);
    }

    method DoCheck(i: nat, now: nat)
      requires Valid() && i < |contexts|
      modifies this, contexts[i]
      ensures var r := Session.DoCheck(old(contexts[i].View()), now);
              contexts[i].View() == r.slot && log == old(log) + r.effects
    {
      hide EncodePorts;
      var ctx := contexts[i];
      if ctx.HandshakeBegin == 0 {
        return;
      }
      var elapsed := now - ctx.HandshakeBegin;
      if elapsed < RETRY_AFTER {
        return;
      }
      if elapsed > LONG_STOP {
        ctx.Reset();
        return;
      }
      var ports := ctx.ConnectionPorts;
      var knownPeerPorts := ports.remoteServer != 0 || ports.remoteClient != 0;
      if knownPeerPorts && elapsed > SHORT_STOP {
        ctx.Reset();
        Ask([CallDisconnect]);
        return;
      }
      Ask([SendPorts(ctx.RemoteSentinel,
                     EncodePorts(ports.localServer, ports.localClient, ports.remoteServer, ports.remoteClient))]);
    }

    /** One round of the daemon: every entry is checked, each as if alone, at the time the clock shows by then. */
    method CheckHalfConnection(clock: seq<nat>)
      requires Valid() && |clock| == |contexts|
      modifies this, contexts
      ensures forall i :: 0 <= i < |contexts| ==> Slots()[i] == Session.DoCheck(old(Slots())[i], clock[i]).slot
      ensures log == old(log) + ChecksEffects(old(Slots()), clock)
    {
      hide Session.DoCheck, ChecksEffects;
      ghost var before := Slots();
      NoChecks(before[..0], clock[..0]);
      for i := 0 to |contexts|
        invariant forall j :: 0 <= j < i ==> contexts[j].View() == Session.DoCheck(before[j], clock[j]).slot
        invariant forall j :: i <= j < |contexts| ==> contexts[j].View() == before[j]
        invariant log == old(log) + ChecksEffects(before[..i], clock[..i])
      {
        ChecksOneMore(before, clock, i);
        DoCheck(i, clock[i]);
      }
      assert before[..|contexts|] == before && clock[..|contexts|] == clock;
    }

    /** CONNECTED */
    method HandleConnected(i: nat)
      requires Valid() && i < |contexts|
      modifies contexts[i]
      ensures contexts[i].View() == Connected(old(contexts[i].View()))
    {
      var connCtx := contexts[i];
      connCtx.HandshakeBegin := 0;
      connCtx.RefCount := if connCtx.RefCount == TWO_32 - 1 then 0 else connCtx.RefCount + 1;
    }

    /** SHUTDOWN_COMPLETE */
    method HandleShutdownComplete(i: nat, client: bool)
      requires Valid() && i < |contexts|
      modifies this, contexts[i]
      ensures var r := ShutdownComplete(old(contexts[i].View()), client);
              contexts[i].View() == r.slot && log == old(log) + r.effects
    {
      var connCtx := contexts[i];
      if client {
        connCtx.SelfOpen := false;
      }
      connCtx.RefCount := if connCtx.RefCount == 0 then TWO_32 - 1 else connCtx.RefCount - 1;
      if connCtx.RefCount == 0 {
        Ask([CallDisconnect]);
        connCtx.Reset();
      }
    }
  }

  /** The effects of checking the entries in order. */
  function ChecksEffects(slots: seq<Slot>, clock: seq<nat>): seq<Effect>
    requires |clock| == |slots|
  {
    if slots == [] then []
    else
      var n := |slots| - 1;
      ChecksEffects(slots[..n], clock[..n]) + DoCheck(slots[n], clock[n]).effects
  }

  lemma NoChecks(slots: seq<Slot>, clock: seq<nat>)
    requires |clock| == |slots| == 0
    ensures ChecksEffects(slots, clock) == []
  {
  }

  lemma ChecksOneMore(slots: seq<Slot>, clock: seq<nat>, i: nat)
    requires i < |slots| == |clock|
    ensures ChecksEffects(slots[..i + 1], clock[..i + 1])
         == ChecksEffects(slots[..i], clock[..i]) + DoCheck(slots[i], clock[i]).effects
  {
    hide DoCheck;
    assert slots[..i + 1][..i] == slots[..i] && clock[..i + 1][..i] == clock[..i];
  }
}
