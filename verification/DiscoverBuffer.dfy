/**
 The short-lived buffer for locally broadcast Discovers.  Each mutex-protected
 section is one event; timer callbacks are separate events that may run late, after
 an attempt to stop them has failed.  A callback knows only the client's hardware
 address, not which buffered request armed it.
 */
module DiscoverBuffer {
  /** Requests are numbered in the order they are scheduled; the request, its context
      and its timer share the number. */
  datatype State = State(
    pending: map<nat, nat>,      // client -> buffered request
    callbacks: map<nat, nat>,    // timer that may still call back -> client
    running: set<nat>,           // requests taken by a callback whose context is still open
    next: nat,                   // requests scheduled so far
    processed: set<nat>,         // requests handed to the Discover handler
    handled: nat,                // number of times the Discover handler was invoked
    replaced: set<nat>,
    cancelled: set<nat>,
    released: set<nat>)          // contexts that were cancelled

  /** `stopped`: whether Stop caught the timer before its callback started. */
  datatype Event =
    | Schedule(mac: nat, stopped: bool)
    | Cancel(mac: nat, stopped: bool)
    | Fire(timer: nat)
    | Finish(req: nat)

  function StopTimer(s: State, timer: nat, stopped: bool): State {
    if stopped then s.(callbacks := s.callbacks - {timer}) else s
  }

  function StepSchedule(s: State, mac: nat, stopped: bool): State {
    var n := s.next;
    var s' := if mac in s.pending
              then var earlier := s.pending[mac];
                   StopTimer(s, earlier, stopped).(replaced := s.replaced + {earlier},
                                                   released := s.released + {earlier})
              else s;
    s'.(pending := s'.pending[mac := n], callbacks := s'.callbacks[n := mac], next := n + 1)
  }

  function StepCancel(s: State, mac: nat, stopped: bool): State {
    if mac in s.pending then
      var earlier := s.pending[mac];
      StopTimer(s, earlier, stopped).(pending := s.pending - {mac}, cancelled := s.cancelled + {earlier},
                                      released := s.released + {earlier})
    else s
  }

  function StepFire(s: State, timer: nat): State {
    if timer !in s.callbacks then s
    else
      var mac := s.callbacks[timer];
      var s' := s.(callbacks := s.callbacks - {timer});
      if mac in s.pending then
        s'.(pending := s.pending - {mac}, running := s.running + {s.pending[mac]},
            processed := s.processed + {s.pending[mac]}, handled := s.handled + 1)
      else s'
  }

  function StepFinish(s: State, req: nat): State {
    if req in s.running then s.(running := s.running - {req}, released := s.released + {req}) else s
  }

  function Step(s: State, e: Event): State {
    match e
    case Schedule(mac, stopped) => StepSchedule(s, mac, stopped)
    case Cancel(mac, stopped) => StepCancel(s, mac, stopped)
    case Fire(timer) => StepFire(s, timer)
    case Finish(req) => StepFinish(s, req)
  }

  function Run(s: State, es: seq<Event>): State
    decreases |es|
  {
    if es == [] then s else Run(Step(s, es[0]), es[1..])
  }

  const EMPTY := State(map[], map[], {}, 0, {}, 0, {}, {}, {})

  // ---------- What every interleaving keeps ----------

  /** Where request `r` is: exactly one of buffered, replaced, cancelled, processed. */
  ghost predicate Buffered(s: State, r: nat) {
    exists m :: m in s.pending && s.pending[m] == r
  }

  ghost predicate Numbered(s: State) {
    && (forall m | m in s.pending :: s.pending[m] < s.next)
    && (forall t | t in s.callbacks :: t < s.next)
    && (forall r | r in s.replaced || r in s.cancelled || r in s.processed :: r < s.next)
    && (forall m, k | m in s.pending && k in s.pending && s.pending[m] == s.pending[k] :: m == k)
  }

  /** A request in the buffer has gone nowhere else, and gone requests went one way. */
  ghost predicate OneFate(s: State) {
    && (forall m | m in s.pending :: s.pending[m] !in s.replaced && s.pending[m] !in s.cancelled
                                     && s.pending[m] !in s.processed)
    && s.replaced !! s.cancelled !! s.processed
  }

  /** Every buffered request still has its own callback to come. */
  ghost predicate Armed(s: State) {
    forall m | m in s.pending :: s.pending[m] in s.callbacks && s.callbacks[s.pending[m]] == m
  }

  /** A context is open exactly while its request is buffered or being processed. */
  ghost predicate ContextsTracked(s: State) {
    && (forall r | r in s.running :: r in s.processed && r !in s.released)
    && (forall r | r in s.released :: r in s.replaced || r in s.cancelled || (r in s.processed && r !in s.running))
    && (forall r | r in s.replaced || r in s.cancelled || (r in s.processed && r !in s.running) :: r in s.released)
  }

  ghost predicate Conserved(s: State) {
    && s.next == |s.pending| + |s.replaced| + |s.cancelled| + s.handled
    && s.handled == |s.processed|
  }

  ghost predicate Inv(s: State) {
    Numbered(s) && OneFate(s) && Armed(s) && ContextsTracked(s) && Conserved(s)
  }

  lemma StepKeepsNumbers(s: State, e: Event)
    requires Numbered(s)
    ensures Numbered(Step(s, e))
  {
  }

  lemma StepKeepsFates(s: State, e: Event)
    requires Numbered(s) && OneFate(s)
    ensures OneFate(Step(s, e))
  {
    match e
    case Schedule(mac, _) =>
    case Cancel(mac, _) =>
    case Fire(timer) =>
    case Finish(_) =>
  }

  lemma StepKeepsCallbacks(s: State, e: Event)
    requires Numbered(s) && Armed(s)
    ensures Armed(Step(s, e))
  {
    var s' := Step(s, e);
    forall m | m in s'.pending ensures s'.pending[m] in s'.callbacks && s'.callbacks[s'.pending[m]] == m {
      StaysArmed(s, e, m);
    }
  }

  lemma StaysArmed(s: State, e: Event, m: nat)
    requires Numbered(s) && Armed(s) && m in Step(s, e).pending
    ensures
      var s' := Step(s, e);
      s'.pending[m] in s'.callbacks && s'.callbacks[s'.pending[m]] == m
  {
    match e
    case Schedule(mac, _) =>
    case Cancel(mac, _) =>
    case Fire(timer) =>
    case Finish(_) =>
  }

  lemma StepTracksContexts(s: State, e: Event)
    requires Numbered(s) && OneFate(s) && ContextsTracked(s)
    ensures ContextsTracked(Step(s, e))
  {
  }

  lemma StepConserves(s: State, e: Event)
    requires OneFate(s) && Conserved(s)
    ensures Conserved(Step(s, e))
  {
    match e
    case Schedule(mac, _) =>
      if mac in s.pending {
        AddOne(s.replaced, s.pending[mac]);
      }
      PutOne(s.pending, mac, s.next);
    case Cancel(mac, _) =>
      if mac in s.pending {
        AddOne(s.cancelled, s.pending[mac]);
      }
      TakeOne(s.pending, mac);
    case Fire(timer) =>
      if timer in s.callbacks {
        var mac := s.callbacks[timer];
        TakeOne(s.pending, mac);
        if mac in s.pending {
          AddOne(s.processed, s.pending[mac]);
        }
      }
    case Finish(_) =>
  }

  lemma AddOne(s: set<nat>, x: nat)
    requires x !in s
    ensures |s + {x}| == |s| + 1
  {
  }

  lemma PutOne(m: map<nat, nat>, k: nat, v: nat)
    ensures |m[k := v]| == if k in m then |m| else |m| + 1
  {
    assert m[k := v].Keys == m.Keys + {k};
    assert |m[k := v]| == |m[k := v].Keys| && |m| == |m.Keys|;
  }

  lemma TakeOne(m: map<nat, nat>, k: nat)
    ensures |m - {k}| == if k in m then |m| - 1 else |m|
  {
    assert (m - {k}).Keys == m.Keys - {k};
    assert |m - {k}| == |(m - {k}).Keys| && |m| == |m.Keys|;
  }

  lemma {:induction false} RunKeepsInv(s: State, es: seq<Event>)
    requires Inv(s)
    ensures Inv(Run(s, es))
    decreases |es|
  {
    if es != [] {
      StepInv(s, es[0]);
      RunKeepsInv(Step(s, es[0]), es[1..]);
    }
  }

  /** Under every interleaving of schedules, cancellations and late callbacks: a request
      is handled at most once (as many invocations as distinct requests), every buffered
      request has a callback to come, every context that left the buffer is released or
      still in use by its handler, and scheduled = pending + replaced + cancelled + handled. */
  lemma EveryInterleaving(es: seq<Event>)
    ensures
      var s := Run(EMPTY, es);
      && s.handled == |s.processed|
      && (forall m | m in s.pending :: s.pending[m] in s.callbacks)
      && (forall r: nat | r < s.next :: Buffered(s, r) || r in s.running || r in s.released)
      && s.next == |s.pending| + |s.replaced| + |s.cancelled| + s.handled
  {
    RunKeepsInv(EMPTY, es);
    var s := Run(EMPTY, es);
    forall r: nat | r < s.next ensures Buffered(s, r) || r in s.running || r in s.released {
      AllAccounted(EMPTY, es, r);
    }
  }

  /** No request is lost. */
  ghost predicate Located(s: State, r: nat) {
    Buffered(s, r) || r in s.replaced || r in s.cancelled || r in s.processed
  }

  lemma StepAccounts(s: State, e: Event, r: nat)
    requires Numbered(s) && r < Step(s, e).next
    requires r < s.next ==> Located(s, r)
    ensures Located(Step(s, e), r)
  {
    var s' := Step(s, e);
    if Buffered(s, r) {
      var m :| m in s.pending && s.pending[m] == r;
      assert m in s'.pending && s'.pending[m] == r ==> Buffered(s', r);
    }
    if r == s.next {
      assert s'.pending[e.mac] == r;
    }
  }

  lemma {:induction false} AllAccounted(s: State, es: seq<Event>, r: nat)
    requires Inv(s) && r < Run(s, es).next
    requires r < s.next ==> Located(s, r)
    ensures Located(Run(s, es), r)
    decreases |es|
  {
    if es != [] {
      var s' := Step(s, es[0]);
      StepInv(s, es[0]);
      if r < s'.next {
        StepAccounts(s, es[0], r);
      }
      AllAccounted(s', es[1..], r);
    }
  }

  /** Once replaced or cancelled, a request is never processed, however late the
      callbacks of its timer run. */
  lemma NeverAfterReplacedOrCancelled(s: State, es: seq<Event>, r: nat)
    requires Inv(s) && (r in s.replaced || r in s.cancelled)
    ensures r !in Run(s, es).processed
  {
    FatesAreFinal(s, es, r);
    RunKeepsInv(s, es);
  }

  lemma {:induction false} FatesAreFinal(s: State, es: seq<Event>, r: nat)
    ensures r in s.replaced ==> r in Run(s, es).replaced
    ensures r in s.cancelled ==> r in Run(s, es).cancelled
    decreases |es|
  {
    if es != [] {
      FatesAreFinal(Step(s, es[0]), es[1..], r);
    }
  }

  /** The callback a buffered request is waiting for does hand it to the handler. */
  lemma OwnCallbackProcesses(s: State, mac: nat)
    requires Inv(s) && mac in s.pending
    ensures Step(s, Fire(s.pending[mac])).processed == s.processed + {s.pending[mac]}
  {
  }

  /** Scheduling buffers the new request in place of an older one of the client and arms
      its timer; other clients are not affected. */
  lemma ScheduleBuffers(s: State, mac: nat, stopped: bool)
    ensures
      var s' := Step(s, Schedule(mac, stopped));
      && s'.pending == s.pending[mac := s.next]
      && s.next in s'.callbacks && s'.callbacks[s.next] == mac
      && s'.replaced == s.replaced + (if mac in s.pending then {s.pending[mac]} else {})
      && s'.processed == s.processed && s'.cancelled == s.cancelled
      && (forall t | t in s.callbacks :: t in s'.callbacks || (mac in s.pending && t == s.pending[mac]))
  {
  }

  /** After a cancellation the client has nothing buffered; other clients are not
      affected. */
  lemma CancelDrops(s: State, mac: nat, stopped: bool)
    ensures
      var s' := Step(s, Cancel(mac, stopped));
      && s'.pending == s.pending - {mac}
      && s'.cancelled == s.cancelled + (if mac in s.pending then {s.pending[mac]} else {})
      && s'.processed == s.processed && s'.replaced == s.replaced
      && (forall t | t in s.callbacks :: t in s'.callbacks || (mac in s.pending && t == s.pending[mac]))
  {
    assert mac !in s.pending ==> s.pending - {mac} == s.pending;
    assert s.cancelled + {} == s.cancelled;
  }

  /** A callback takes what its client has buffered, which may be a newer request than the
      one that armed it, and nothing of other clients. */
  lemma FireTakes(s: State, timer: nat)
    ensures
      var s' := Step(s, Fire(timer));
      && s'.callbacks == s.callbacks - {timer}
      && (timer in s.callbacks ==>
            var mac := s.callbacks[timer];
            && s'.pending == s.pending - {mac}
            && s'.processed == s.processed + (if mac in s.pending then {s.pending[mac]} else {}))
      && (timer !in s.callbacks ==> s' == s)
  {
    assert timer !in s.callbacks ==> s.callbacks - {timer} == s.callbacks;
    assert s.processed + {} == s.processed;
    if timer in s.callbacks && s.callbacks[timer] !in s.pending {
      assert s.pending - {s.callbacks[timer]} == s.pending;
    }
  }

  /** A timer that Stop caught never calls back; one that it missed still may. */
  lemma StoppedTimerIsGone(s: State, mac: nat, stopped: bool)
    requires Inv(s) && mac in s.pending
    ensures s.pending[mac] in Step(s, Schedule(mac, stopped)).callbacks <==> !stopped
    ensures s.pending[mac] in Step(s, Cancel(mac, stopped)).callbacks <==> !stopped
  {
    assert s.pending[mac] in s.callbacks && s.pending[mac] < s.next;
  }

  /** When the handler is done the request's context is released, once. */
  lemma FinishReleases(s: State, req: nat)
    requires Inv(s) && req in s.running
    ensures
      var s' := Step(s, Finish(req));
      req !in s.released && s'.released == s.released + {req} && s'.running == s.running - {req}
  {
  }

  // ---------- The buffer itself ----------

  class Buffer {
    var pending: map<nat, nat>
    var callbacks: map<nat, nat>
    var running: set<nat>
    var next: nat
    var processed: set<nat>
    var handled: nat
    var replaced: set<nat>
    var cancelled: set<nat>
    var released: set<nat>

    ghost function Model(): State
      reads this
    {
      State(pending, callbacks, running, next, processed, handled, replaced, cancelled, released)
    }

    constructor ()
      ensures Model() == EMPTY && Inv(Model())
    {
      pending, callbacks, running, next := map[], map[], {}, 0;
      processed, handled, replaced, cancelled, released := {}, 0, {}, {}, {};
    }

    /** Stop the timer and cancel the context of a buffered request. */
    method Discard(req: nat, stopped: bool)
      modifies this`callbacks, this`released
      ensures callbacks == if stopped then old(callbacks) - {req} else old(callbacks)
      ensures released == old(released) + {req}
    {
      if stopped {
        callbacks := callbacks - {req};
      }
      released := released + {req};
    }

    method SchedulePending(mac: nat, stopped: bool)
      requires Inv(Model())
      modifies this
      ensures Model() == Step(old(Model()), Schedule(mac, stopped)) && Inv(Model())
    {
      hide Inv;
      StepInv(Model(), Schedule(mac, stopped));
      if mac in pending {
        var earlier := pending[mac];
        Discard(earlier, stopped);
        replaced := replaced + {earlier};
      }
      pending := pending[mac := next];
      callbacks := callbacks[next := mac];
      next := next + 1;
    }

    method CancelPending(mac: nat, stopped: bool) returns (ok: bool)
      requires Inv(Model())
      modifies this
      ensures ok <==> mac in old(pending)
      ensures Model() == Step(old(Model()), Cancel(mac, stopped)) && Inv(Model())
    {
      hide Inv;
      StepInv(Model(), Cancel(mac, stopped));
      ok := mac in pending;
      if ok {
        Discard(pending[mac], stopped);
        cancelled := cancelled + {pending[mac]};
        pending := pending - {mac};
      }
    }

    /** The mutex-protected part of a timer callback; the request it took, if any. */
    method FirePending(timer: nat) returns (taken: bool, req: nat)
      requires Inv(Model())
      modifies this
      ensures Model() == Step(old(Model()), Fire(timer)) && Inv(Model())
      ensures handled == if taken then old(handled) + 1 else old(handled)
      ensures taken ==> req !in old(processed) && processed == old(processed) + {req}
    {
      hide Numbered, Armed, ContextsTracked, Conserved;
      StepInv(Model(), Fire(timer));
      taken, req := false, 0;
      if timer in callbacks {
        var mac := callbacks[timer];
        callbacks := callbacks - {timer};
        if mac in pending {
          taken, req := true, pending[mac];
          pending := pending - {mac};
          running := running + {req};
          processed := processed + {req};
          handled := handled + 1;
        }
      }
    }

    /** The deferred cancel after the Discover was handled. */
    method FinishProcessing(req: nat)
      requires Inv(Model())
      modifies this
      ensures Model() == Step(old(Model()), Finish(req)) && Inv(Model())
    {
      hide Inv;
      StepInv(Model(), Finish(req));
      if req in running {
        running := running - {req};
        released := released + {req};
      }
    }
  }

  lemma StepInv(s: State, e: Event)
    requires Inv(s)
    ensures Inv(Step(s, e))
  {
    hide Step, Numbered, OneFate, Armed, ContextsTracked, Conserved;
    StepKeepsNumbers(s, e);
    StepKeepsFates(s, e);
    StepKeepsCallbacks(s, e);
    StepTracksContexts(s, e);
    StepConserves(s, e);
  }
}
