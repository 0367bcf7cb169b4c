/** Accounting for the time a connection's sending is blocked, per reason. The flag byte is the set of its flags. */
module FlowBlocked {
  import opened Words

  datatype Reason =
    | Scheduling | Pacing | AmplificationProt | CongestionControl | ConnFlowControl
    | StreamIdFlowControl | StreamFlowControl | App

  /** The reasons a connection keeps time for. */
  predicate Timed(r: Reason) {
    r.Scheduling? || r.Pacing? || r.AmplificationProt? || r.CongestionControl? || r.ConnFlowControl?
  }

  datatype Tracker = Tracker(cumulative: u64, lastStart: u64)

  /** BlockedTimings */
  datatype Timings = Timings(
    scheduling: Tracker,
    pacing: Tracker,
    amplificationProt: Tracker,
    congestionControl: Tracker,
    flowControl: Tracker)
  {
    function Of(r: Reason): Tracker
      requires Timed(r)
    {
      match r
      case Scheduling => scheduling
      case Pacing => pacing
      case AmplificationProt => amplificationProt
      case CongestionControl => congestionControl
      case ConnFlowControl => flowControl
    }
  }

  /** OutFlowBlockedReasons and BlockedTimings. */
  datatype Blocking = Blocking(reasons: set<Reason>, timings: Timings)

  const ZERO := Tracker(0, 0)
  const UNBLOCKED := Blocking({}, Timings(ZERO, ZERO, ZERO, ZERO, ZERO))

  /** 64-bit addition and subtraction, wrapping. */
  function Plus(a: u64, b: u64): u64 {
    if a + b >= TWO_64 then a + b - TWO_64 else a + b
  }

  function Minus(a: u64, b: u64): u64 {
    if a >= b then a - b else a - b + TWO_64
  }

  function Start(t: Tracker, now: u64): Tracker {
    t.(lastStart := now)
  }

  function Stop(t: Tracker, now: u64): Tracker {
    Tracker(Plus(t.cumulative, Minus(now, t.lastStart)), 0)
  }

  /** QuicConnAddOutFlowBlockedReason: one reason at a time. */
  function Add(b: Blocking, reason: Reason, now: u64): Blocking {
    if reason in b.reasons then b
    else
      var t := b.timings;
      Blocking(
        b.reasons + {reason},
        match reason
        case Scheduling => t.(scheduling := Start(t.scheduling, now))
        case Pacing => t.(pacing := Start(t.pacing, now))
        case AmplificationProt => t.(amplificationProt := Start(t.amplificationProt, now))
        case CongestionControl => t.(congestionControl := Start(t.congestionControl, now))
        case ConnFlowControl => t.(flowControl := Start(t.flowControl, now))
        case _ => t)
  }

  /** QuicConnRemoveOutFlowBlockedReason: any set of reasons at once. */
  function Remove(b: Blocking, mask: set<Reason>, now: u64): Blocking {
    if b.reasons * mask == {} then b
    else
      var t, gone := b.timings, b.reasons * mask;
      Blocking(
        b.reasons - mask,
        Timings(
          if Scheduling in gone then Stop(t.scheduling, now) else t.scheduling,
          if Pacing in gone then Stop(t.pacing, now) else t.pacing,
          if AmplificationProt in gone then Stop(t.amplificationProt, now) else t.amplificationProt,
          if CongestionControl in gone then Stop(t.congestionControl, now) else t.congestionControl,
          if ConnFlowControl in gone then Stop(t.flowControl, now) else t.flowControl))
  }

  /** The connection object. */
  class Connection {
    var outFlowBlockedReasons: set<Reason>
    var blockedTimings: Timings

    function View(): Blocking
      reads this
    {
      Blocking(outFlowBlockedReasons, blockedTimings)
    }

    constructor ()
      ensures View() == UNBLOCKED
    {
      outFlowBlockedReasons, blockedTimings := {}, Timings(ZERO, ZERO, ZERO, ZERO, ZERO);
    }

    method AddReason(reason: Reason, now: u64) returns (added: bool)
      modifies this
      ensures View() == Add(old(View()), reason, now)
      ensures added <==> reason !in old(outFlowBlockedReasons)
    {
      if reason in outFlowBlockedReasons {
        return false;
      }
      if reason == Pacing {
        blockedTimings := blockedTimings.(pacing := Start(blockedTimings.pacing, now));
      }
      if reason == Scheduling {
        blockedTimings := blockedTimings.(scheduling := Start(blockedTimings.scheduling, now));
      }
      if reason == AmplificationProt {
        blockedTimings := blockedTimings.(amplificationProt := Start(blockedTimings.amplificationProt, now));
      }
      if reason == CongestionControl {
        blockedTimings := blockedTimings.(congestionControl := Start(blockedTimings.congestionControl, now));
      }
      if reason == ConnFlowControl {
        blockedTimings := blockedTimings.(flowControl := Start(blockedTimings.flowControl, now));
      }
      outFlowBlockedReasons := outFlowBlockedReasons + {reason};
      added := true;
    }

    method RemoveReasons(mask: set<Reason>, now: u64) returns (removed: bool)
      modifies this
      ensures View() == Remove(old(View()), mask, now)
      ensures removed <==> old(outFlowBlockedReasons) * mask != {}
    {
      hide Stop;
      if outFlowBlockedReasons * mask == {} {
        return false;
      }
      if Pacing in outFlowBlockedReasons && Pacing in mask {
        blockedTimings := blockedTimings.(pacing := Stop(blockedTimings.pacing, now));
      }
      if Scheduling in outFlowBlockedReasons && Scheduling in mask {
        blockedTimings := blockedTimings.(scheduling := Stop(blockedTimings.scheduling, now));
      }
      if AmplificationProt in outFlowBlockedReasons && AmplificationProt in mask {
        blockedTimings := blockedTimings.(amplificationProt := Stop(blockedTimings.amplificationProt, now));
      }
      if CongestionControl in outFlowBlockedReasons && CongestionControl in mask {
        blockedTimings := blockedTimings.(congestionControl := Stop(blockedTimings.congestionControl, now));
      }
      if ConnFlowControl in outFlowBlockedReasons && ConnFlowControl in mask {
        blockedTimings := blockedTimings.(flowControl := Stop(blockedTimings.flowControl, now));
      }
      outFlowBlockedReasons := outFlowBlockedReasons - mask;
      removed := true;
    }
  }

  // ---- Runs

  datatype Event = Added(reason: Reason, now: u64) | Removed(mask: set<Reason>, now: u64)

  function After(events: seq<Event>): Blocking {
    if events == [] then UNBLOCKED
    else
      var b := After(events[..|events| - 1]);
      match events[|events| - 1]
      case Added(reason, now) => Add(b, reason, now)
      case Removed(mask, now) => Remove(b, mask, now)
  }

  /** The clock does not run backwards. */
  predicate InOrder(events: seq<Event>) {
    forall i :: 0 < i < |events| ==> events[i - 1].now <= events[i].now
  }

  /** Whether a reason holds, read off the events: the last one that mentions it added it. */
  predicate Holds(events: seq<Event>, r: Reason) {
    events != [] &&
    match events[|events| - 1]
    case Added(reason, _) => r == reason || Holds(events[..|events| - 1], r)
    case Removed(mask, _) => r !in mask && Holds(events[..|events| - 1], r)
  }

  /** How long a reason has held up to a moment, read off the events: the gaps between events during which it held. */
  function HeldTime(events: seq<Event>, r: Reason, now: int): int {
    if events == [] then 0
    else
      var last := events[|events| - 1].now;
      HeldTime(events[..|events| - 1], r, last) + (if Holds(events, r) then now - last else 0)
  }

  /** What the trackers owe for a reason: its cumulative time, with the stretch still running if it holds. */
  function Shown(b: Blocking, r: Reason, now: int): int
    requires Timed(r)
  {
    b.timings.Of(r).cumulative + (if r in b.reasons then now - b.timings.Of(r).lastStart else 0)
  }

  lemma StopsWrap(t: Tracker, now: u64)
    ensures Stop(t, now).cumulative == (t.cumulative + now - t.lastStart) % TWO_64 && Stop(t, now).lastStart == 0
  {
  }

  lemma AddKeepsTime(b: Blocking, reason: Reason, last: u64, r: Reason)
    requires Timed(r)
    ensures var b' := Add(b, reason, last);
            && (r in b'.reasons <==> r == reason || r in b.reasons)
            && Shown(b', r, last) == Shown(b, r, last)
            && (r !in b'.reasons ==> b'.timings.Of(r) == b.timings.Of(r))
            && (b'.timings.Of(r).lastStart == b.timings.Of(r).lastStart || b'.timings.Of(r).lastStart == last)
  {
  }

  lemma RemoveKeepsTime(b: Blocking, mask: set<Reason>, last: u64, r: Reason)
    requires Timed(r)
    ensures var b' := Remove(b, mask, last);
            && (r in b'.reasons <==> r !in mask && r in b.reasons)
            && Shown(b', r, last) % TWO_64 == Shown(b, r, last) % TWO_64
            && (if r in mask && r in b.reasons then b'.timings.Of(r) == Stop(b.timings.Of(r), last)
                else b'.timings.Of(r) == b.timings.Of(r))
  {
    hide Stop;
    var t := b.timings.Of(r);
    StopsWrap(t, last);
    WrapsOnce(t.cumulative + last - t.lastStart);
    assert r in b.reasons && r in mask ==> r in b.reasons * mask;
  }

  lemma WrapsOnce(x: int)
    ensures x % TWO_64 % TWO_64 == x % TWO_64
  {
  }

  lemma ShownLater(b: Blocking, r: Reason, last: int, now: int)
    requires Timed(r)
    ensures Shown(b, r, now) == Shown(b, r, last) + (if r in b.reasons then now - last else 0)
  {
  }

  /** In every run, even if the clock goes back: the flags are the reasons that hold, and each timed reason's cumulative
      time, with the stretch still running if it holds, is the total time it has held, modulo 2^64. */
  lemma {:induction false} AccountingWraps(events: seq<Event>, r: Reason, now: int)
    ensures r in After(events).reasons <==> Holds(events, r)
    ensures Timed(r) ==> Shown(After(events), r, now) % TWO_64 == HeldTime(events, r, now) % TWO_64
    ensures Timed(r) && !Holds(events, r) ==> After(events).timings.Of(r).lastStart == 0
  {
    hide Add, Remove, Shown;
    if events == [] {
      assert Timed(r) ==> Shown(UNBLOCKED, r, now) == 0 by { NothingShown(r, now); }
    } else {
      var init, e := events[..|events| - 1], events[|events| - 1];
      AccountingWraps(init, r, e.now);
      FlagsOf(After(init), e, r);
      if Timed(r) {
        ShownLater(After(events), r, e.now, now);
        LaterBy(Shown(After(events), r, e.now), HeldTime(init, r, e.now), now - e.now);
        match e
        case Added(reason, last) => AddKeepsTime(After(init), reason, last, r);
        case Removed(mask, last) => RemoveKeepsTime(After(init), mask, last, r);
      }
    }
  }

  lemma NothingShown(r: Reason, now: int)
    ensures Timed(r) ==> Shown(UNBLOCKED, r, now) == 0
  {
  }

  lemma FlagsOf(b: Blocking, e: Event, r: Reason)
    ensures e.Added? ==> (r in Add(b, e.reason, e.now).reasons <==> r == e.reason || r in b.reasons)
    ensures e.Removed? ==> (r in Remove(b, e.mask, e.now).reasons <==> r !in e.mask && r in b.reasons)
  {
    assert e.Removed? && r in b.reasons && r in e.mask ==> r in b.reasons * e.mask;
  }

  lemma LaterBy(a: int, b: int, d: int)
    ensures a % TWO_64 == b % TWO_64 ==> (a + d) % TWO_64 == (b + d) % TWO_64
  {
  }

  /** With a clock that does not go back nothing wraps: the sum is exactly the total time. */
  lemma {:induction false} AccountingIsExact(events: seq<Event>, r: Reason, now: u64)
    requires InOrder(events) && (events != [] ==> events[|events| - 1].now <= now)
    ensures r in After(events).reasons <==> Holds(events, r)
    ensures 0 <= HeldTime(events, r, now) <= now
    ensures Timed(r) ==>
      var t := After(events).timings.Of(r);
      && t.lastStart <= now
      && t.cumulative + (if Holds(events, r) then now - t.lastStart else 0) == HeldTime(events, r, now)
      && (!Holds(events, r) ==> t.lastStart == 0)
  {
    hide Add, Remove;
    AccountingWraps(events, r, now);
    if events != [] {
      var init, e := events[..|events| - 1], events[|events| - 1];
      AccountingIsExact(init, r, e.now);
      if Timed(r) {
        match e
        case Added(reason, last) => AddKeepsTime(After(init), reason, last, r);
        case Removed(mask, last) => RemoveKeepsTime(After(init), mask, last, r);
      }
    }
  }

  /** A tracker shows what the events say about its reason. */
  predicate Shows(t: Tracker, events: seq<Event>, r: Reason, now: u64) {
    && t.lastStart <= now
    && t.cumulative + (if Holds(events, r) then now - t.lastStart else 0) == HeldTime(events, r, now)
    && (!Holds(events, r) ==> t.lastStart == 0)
  }

  /** Field by field: the five trackers are for these five reasons. */
  lemma TrackersAreExact(events: seq<Event>, now: u64)
    requires InOrder(events) && (events != [] ==> events[|events| - 1].now <= now)
    ensures var t := After(events).timings;
            && Shows(t.scheduling, events, Scheduling, now)
            && Shows(t.pacing, events, Pacing, now)
            && Shows(t.amplificationProt, events, AmplificationProt, now)
            && Shows(t.congestionControl, events, CongestionControl, now)
            && Shows(t.flowControl, events, ConnFlowControl, now)
  {
    hide After, Holds, HeldTime;
    AccountingIsExact(events, Scheduling, now);
    AccountingIsExact(events, Pacing, now);
    AccountingIsExact(events, AmplificationProt, now);
    AccountingIsExact(events, CongestionControl, now);
    AccountingIsExact(events, ConnFlowControl, now);
  }
}
