/**
 Handing the public listeners over to a new generation: who holds the one-shot stop senders while
 reload calls overlap, fail or are dropped. Dropping a sender stops its listener just as sending does.
 */
module HotReload {
  import opened Prelude

  datatype Protocol = Http | Https

  /** The channel of one listener: the generation it belongs to and its protocol. */
  datatype Signal = Signal(generation: nat, protocol: Protocol)

  /** The stop senders of one generation, as far as its configuration enables the protocols. */
  datatype Senders = Senders(http: Option<Signal>, https: Option<Signal>)
  {
    function All(): set<Signal> {
      (if http.Some? then {http.value} else {}) + (if https.Some? then {https.value} else {})
    }
  }

  function SendersFor(generation: nat, http: bool, https: bool): Senders {
    Senders(if http then Some(Signal(generation, Http)) else None,
            if https then Some(Signal(generation, Https)) else None)
  }

  /** What stopping the listeners of `held` does: the senders and listeners left, and whether all sends arrived. */
  function StopStep(held: Senders, live: set<Signal>): (Senders, set<Signal>, bool) {
    if held.http.Some? && held.http.value !in live then (held.(http := None), live, false)
    else
      var live1 := if held.http.Some? then live - {held.http.value} else live;
      if held.https.Some? && held.https.value !in live1 then (Senders(None, None), live1, false)
      else (Senders(None, None), if held.https.Some? then live1 - {held.https.value} else live1, true)
  }

  /** The receiving ends: the listeners that still wait for their signal. */
  class Listeners {
    var live: set<Signal>

    constructor (live: set<Signal>)
      ensures this.live == live
    {
      this.live := live;
    }

    method Send(signal: Signal) returns (ok: bool)
      modifies this
      ensures ok <==> signal in old(live)
      ensures live == old(live) - {signal}
    {
      ok := signal in live;
      live := live - {signal};
    }

    /** Senders going out of scope. */
    method Drop(senders: Senders)
      modifies this
      ensures live == old(live) - senders.All()
    {
      live := live - senders.All();
    }
  }

  class HotReloadState {
    var http: Option<Signal>
    var https: Option<Signal>

    constructor (senders: Senders)
      ensures Held() == senders
    {
      http, https := senders.http, senders.https;
    }

    function Held(): Senders
      reads this
    {
      Senders(http, https)
    }

    /** `HotReloadState::reload`: take and use each sender in turn, stopping at the first that fails. */
    method Reload(listeners: Listeners) returns (ok: bool)
      modifies this, listeners
      ensures (Held(), listeners.live, ok) == StopStep(old(Held()), old(listeners.live))
    {
      if http.Some? {
        var signal := http.value;
        http := None;
        var sent := listeners.Send(signal);
        if !sent {
          assert listeners.live == old(listeners.live);
          return false;
        }
      }
      if https.Some? {
        var signal := https.value;
        https := None;
        label beforeSend:
        var sent := listeners.Send(signal);
        if !sent {
          assert listeners.live == old@beforeSend(listeners.live);
          return false;
        }
      }
      ok := true;
    }
  }

  /** `manager` owns the current senders; each call under way owns those of the generation it started. */
  datatype Hot = Hot(manager: Senders, calls: map<nat, Senders>, live: set<Signal>, generation: nat)

  function HandOverStep(h: Hot, call: nat): (Hot, bool)
    requires call in h.calls
  {
    var (left, live, ok) := StopStep(h.manager, h.live);
    if ok then (h.(manager := h.calls[call], calls := h.calls - {call}, live := live), true)
    else (h.(manager := left, calls := h.calls - {call}, live := live - h.calls[call].All()), false)
  }

  class HotReloadManager {
    var state: HotReloadState

    constructor (state: HotReloadState)
      ensures this.state == state
    {
      this.state := state;
    }

    /** `HotReloadManager::reload` under its lock; on an error the new state is dropped. */
    method Reload(next: HotReloadState, listeners: Listeners, ghost h: Hot, ghost call: nat) returns (ok: bool)
      requires next != state && call in h.calls
      requires h.manager == state.Held() && h.calls[call] == next.Held() && h.live == listeners.live
      modifies this, state, listeners
      ensures var (h', ok') := HandOverStep(h, call);
              ok == ok' && state.Held() == h'.manager && listeners.live == h'.live
      ensures ok ==> state == next
    {
      ok := state.Reload(listeners);
      if !ok {
        listeners.Drop(next.Held());
        return;
      }
      state := next;
    }
  }

  // Runs of overlapping reloads

  datatype HotEvent =
    | Begin(call: nat, http: bool, https: bool) // a reload starts a new generation
    | HandOver(call: nat)                       // ... and, later, hands over
    | Cancel(call: nat)                         // ... or is dropped before that
    | Die(signal: Signal)                       // a listener ends by itself

  ghost predicate HotNext(h: Hot, e: HotEvent, h': Hot) {
    match e
    case Begin(call, http, https) =>
      var senders := SendersFor(h.generation, http, https);
      && call !in h.calls
      && h' == Hot(h.manager, h.calls[call := senders], h.live + senders.All(), h.generation + 1)
    case HandOver(call) => call in h.calls && h' == HandOverStep(h, call).0
    case Cancel(call) =>
      call in h.calls && h' == h.(calls := h.calls - {call}, live := h.live - h.calls[call].All())
    case Die(signal) => h' == h.(live := h.live - {signal})
  }

  /** A reload starts one listener for each protocol it is configured for, and its call holds their senders. */
  lemma BeginStarts(h: Hot, call: nat, http: bool, https: bool, h': Hot)
    requires HotNext(h, Begin(call, http, https), h')
    ensures h'.manager == h.manager && call in h'.calls && h'.calls - {call} == h.calls
    ensures var senders := h'.calls[call];
            && (senders.http.Some? <==> http) && (senders.https.Some? <==> https)
            && h'.live == h.live + senders.All()
            && forall signal :: signal in senders.All() ==> signal.generation == h.generation < h'.generation
  {
  }

  /** A reload under way can be dropped, and a listener can end by itself, at any time. */
  lemma AnythingCanEnd(h: Hot, call: nat, signal: Signal)
    ensures call in h.calls ==>
              HotNext(h, Cancel(call), Hot(h.manager, h.calls - {call}, h.live - h.calls[call].All(), h.generation))
    ensures HotNext(h, Die(signal), Hot(h.manager, h.calls, h.live - {signal}, h.generation))
  {
  }

  ghost predicate HotRun(run: seq<Hot>, events: seq<HotEvent>) {
    && |run| == |events| + 1
    && (exists http, https :: run[0] == Hot(SendersFor(0, http, https), map[], SendersFor(0, http, https).All(), 1))
    && forall i :: 0 <= i < |events| ==> HotNext(run[i], events[i], run[i + 1])
  }

  ghost predicate Owned(h: Hot, signal: Signal) {
    signal in h.manager.All() || exists call :: call in h.calls && signal in h.calls[call].All()
  }

  ghost predicate Placed(senders: Senders, generation: nat) {
    && (senders.http.Some? ==> senders.http.value.protocol == Http)
    && (senders.https.Some? ==> senders.https.value.protocol == Https)
    && forall signal :: signal in senders.All() ==> signal.generation < generation
  }

  ghost predicate WellOwned(h: Hot) {
    && (forall signal :: signal in h.live ==> Owned(h, signal))
    && Placed(h.manager, h.generation)
    && (forall call :: call in h.calls ==> Placed(h.calls[call], h.generation))
    && (forall call :: call in h.calls ==> h.calls[call].All() !! h.manager.All())
    && (forall a, b :: a in h.calls && b in h.calls && a != b ==> h.calls[a].All() !! h.calls[b].All())
  }

  /** A hand-over stops what the manager held before, as far as its sends arrive, and nothing else of others. */
  lemma StopLeaves(held: Senders, live: set<Signal>)
    ensures var (left, live', ok) := StopStep(held, live);
            && left.All() <= held.All() && live' <= live
            && (forall signal :: signal in live && signal !in live' ==> signal in held.All())
            && (forall signal :: signal in live' && signal in held.All() ==> signal in left.All())
            && (ok ==> live' == live - held.All())
            && (left.http.Some? ==> left.http == held.http) && (left.https.Some? ==> left.https == held.https)
  {
  }

  lemma HandOverKeepsOwned(h: Hot, call: nat)
    requires WellOwned(h) && call in h.calls
    ensures WellOwned(HandOverStep(h, call).0)
  {
    StopLeaves(h.manager, h.live);
    var h' := HandOverStep(h, call).0;
    hide StopStep;
    forall signal | signal in h'.live ensures Owned(h', signal) {
      assert Owned(h, signal);
      if signal !in h.manager.All() && signal !in h.calls[call].All() {
        var other :| other in h.calls && signal in h.calls[other].All();
        assert other in h'.calls;
      }
    }
  }

  lemma OwnerStays(h: Hot, h': Hot, signal: Signal)
    requires Owned(h, signal) && h'.manager == h.manager
    requires forall call :: call in h.calls && signal in h.calls[call].All() ==>
               call in h'.calls && h'.calls[call] == h.calls[call]
    ensures Owned(h', signal)
  {
  }

  lemma BeginKeepsOwned(h: Hot, call: nat, http: bool, https: bool, h': Hot)
    requires WellOwned(h) && HotNext(h, Begin(call, http, https), h')
    ensures WellOwned(h')
  {
    var senders := SendersFor(h.generation, http, https);
    assert Placed(senders, h.generation + 1);
    assert forall signal :: signal in senders.All() ==> signal.generation == h.generation;
    hide SendersFor;
    forall signal | signal in h'.live ensures Owned(h', signal) {
      if signal in senders.All() {
        assert call in h'.calls;
      } else {
        OwnerStays(h, h', signal);
      }
    }
  }

  lemma StepKeepsOwned(h: Hot, e: HotEvent, h': Hot)
    requires WellOwned(h) && HotNext(h, e, h')
    ensures WellOwned(h')
  {
    match e
    case HandOver(call) => HandOverKeepsOwned(h, call);
    case Begin(call, http, https) => BeginKeepsOwned(h, call, http, https, h');
    case _ =>
      forall signal | signal in h'.live ensures Owned(h', signal) {
        OwnerStays(h, h', signal);
      }
  }

  /**
   However reloads overlap, fail or are dropped, the stop sender of every live listener is held by the
   manager or by one reload under way; with none under way at most one listener per protocol is live.
   */
  lemma {:induction false} ListenersAreOwned(run: seq<Hot>, events: seq<HotEvent>, i: nat)
    requires HotRun(run, events) && i < |run|
    ensures WellOwned(run[i])
    ensures run[i].calls == map[] ==>
              forall a, b :: a in run[i].live && b in run[i].live && a.protocol == b.protocol ==> a == b
  {
    hide HotNext;
    if i > 0 {
      ListenersAreOwned(run, events, i - 1);
      assert HotNext(run[i - 1], events[i - 1], run[i]);
      StepKeepsOwned(run[i - 1], events[i - 1], run[i]);
    }
    if run[i].calls == map[] {
      forall a, b | a in run[i].live && b in run[i].live && a.protocol == b.protocol ensures a == b {
        assert Owned(run[i], a) && Owned(run[i], b);
      }
    }
  }

  /**
   A hand-over succeeds exactly when every listener the manager can stop is still live. Then the manager
   owns the new generation's senders only, none of the old listeners is live and no other was touched.
   */
  lemma HandOverSucceedsExactly(h: Hot, call: nat)
    requires WellOwned(h) && call in h.calls
    ensures var (h', ok) := HandOverStep(h, call);
            && (ok <==> h.manager.All() <= h.live)
            && (ok ==> h'.manager == h.calls[call] && h'.live == h.live - h.manager.All())
            && (!ok ==> h.calls[call].All() !! h'.live)
  {
  }

  /** A hand-over that stopped http and failed on https leaves http stopped and the manager without senders. */
  lemma FailedHandOverStopsHttp(h: Hot, call: nat)
    requires WellOwned(h) && call in h.calls
    requires h.manager.http.Some? ==> h.manager.http.value in h.live
    requires h.manager.https.Some? && h.manager.https.value !in h.live
    ensures var (h', ok) := HandOverStep(h, call);
            && !ok && h'.manager == Senders(None, None)
            && h'.live == h.live - h.manager.All() - h.calls[call].All()
  {
  }

  /** Once a hand-over has failed on http, its https listener lives on and is still the manager's to stop. */
  lemma FailedHandOverKeepsHttps(h: Hot, call: nat)
    requires WellOwned(h) && call in h.calls
    requires h.manager.http.Some? && h.manager.http.value !in h.live
    requires h.manager.https.Some? && h.manager.https.value in h.live
    ensures var (h', ok) := HandOverStep(h, call);
            !ok && h'.manager == Senders(None, h.manager.https) && h.manager.https.value in h'.live
  {
  }
}
