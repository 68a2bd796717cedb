/** The lifecycle of one renderer document: a pure relation, its effect interpreter with one pending
    promise and timer, and the transfer of a document (frontend/extension-assets/webview_renderer_session.ts). */
module Renderer {
  import opened Wrappers

  type Capability = string

  datatype State =
    | Created | AwaitingReady | Ready | AwaitingRender(capability: Capability) | Rendered | Failed | Released

  datatype Action =
    | BeginReady | ReadyArrived | BeginRender(capability: Capability)
    | RenderedArrived(capability: Capability) | RenderFailedArrived(capability: Capability)
    | PendingFailed | Release

  datatype Step = Accepted(state: State) | Ignored(state: State) | Invalid(state: State)

  /** The pure lifecycle relation. */
  function Advance(state: State, action: Action): Step {
    match action
    case BeginReady => if state.Created? then Accepted(AwaitingReady) else Invalid(state)
    case ReadyArrived => if state.AwaitingReady? then Accepted(Ready) else Ignored(state)
    case BeginRender(capability) => if state.Ready? then Accepted(AwaitingRender(capability)) else Invalid(state)
    case RenderedArrived(capability) =>
      if state == AwaitingRender(capability) then Accepted(Rendered) else Ignored(state)
    case RenderFailedArrived(capability) =>
      if state == AwaitingRender(capability) then Accepted(Failed) else Ignored(state)
    case PendingFailed =>
      if state.AwaitingReady? || state.AwaitingRender? then Accepted(Failed) else Ignored(state)
    case Release => if state.Released? then Ignored(state) else Accepted(Released)
  }

  function Rank(state: State): nat {
    match state
    case Created => 0
    case AwaitingReady => 1
    case Ready => 2
    case AwaitingRender(_) => 3
    case Rendered => 4
    case Failed => 4
    case Released => 5
  }

  // -------------------------------------------------------------------------
  // The interpreter
  // -------------------------------------------------------------------------

  /** What a wait is for. */
  datatype Phase = ForReady | ForRender(capability: Capability)

  /** The deferred promise; a wait is named by the number of its timer. */
  datatype Pending = Pending(phase: Phase, timer: nat)

  datatype Event = Begin(phase: Phase) | Message(action: Action) | Timeout(timer: nat) | Close

  /** How a promise was settled: by which event, and whether it was resolved. */
  datatype Settlement = Settlement(wait: Pending, resolved: bool, cause: Event)

  datatype Machine = Machine(state: State, pending: Option<Pending>, timers: nat, settled: seq<Settlement>)

  const Start := Machine(Created, None, 0, [])

  function BeginAction(phase: Phase): Action {
    match phase
    case ForReady => BeginReady
    case ForRender(capability) => BeginRender(capability)
  }

  /** Acknowledgements a renderer can send. */
  predicate IsMessage(action: Action) {
    action.ReadyArrived? || action.RenderedArrived? || action.RenderFailedArrived?
  }

  predicate Valid(event: Event) {
    event.Message? ==> IsMessage(event.action)
  }

  function Settle(m: Machine, resolved: bool, cause: Event): Machine {
    match m.pending
    case None => m
    case Some(wait) => m.(pending := None, settled := m.settled + [Settlement(wait, resolved, cause)])
  }

  function Next(m: Machine, event: Event): Machine {
    match event
    case Begin(phase) =>
      var step := Advance(m.state, BeginAction(phase));
      if step.Accepted? then m.(state := step.state, pending := Some(Pending(phase, m.timers)), timers := m.timers + 1)
      else m
    case Message(action) =>
      var step := Advance(m.state, action);
      if step.Accepted? && m.pending.Some?
      then Settle(m, !action.RenderFailedArrived?, event).(state := step.state)
      else m
    case Timeout(timer) =>
      if m.pending.Some? && m.pending.value.timer == timer
      then Settle(m, false, event).(state := Advance(m.state, PendingFailed).state)
      else m
    case Close => Settle(m, false, event).(state := Advance(m.state, Release).state)
  }

  function Run(m: Machine, events: seq<Event>): Machine {
    if events == [] then m else Next(Run(m, events[..|events| - 1]), events[|events| - 1])
  }

  // -------------------------------------------------------------------------
  // The invariant of every run
  // -------------------------------------------------------------------------

  /** The phase a state awaits, if any. */
  function Awaited(state: State): Option<Phase> {
    match state
    case AwaitingReady => Some(ForReady)
    case AwaitingRender(capability) => Some(ForRender(capability))
    case _ => None
  }

  // The only events that resolve a wait are the acknowledgements of its own phase and capability.
  predicate Justified(s: Settlement) {
    s.resolved ==>
      match s.wait.phase
      case ForReady => s.cause == Message(ReadyArrived)
      case ForRender(capability) => s.cause == Message(RenderedArrived(capability))
  }

  ghost predicate SettledWait(m: Machine, timer: nat) {
    exists k | 0 <= k < |m.settled| :: m.settled[k].wait.timer == timer
  }

  ghost predicate Invariant(m: Machine) {
    // A pending promise exists exactly when the state awaits its phase.
    && Awaited(m.state) == (match m.pending case None => None case Some(wait) => Some(wait.phase))
    // Each wait is pending or settled, never both, and is settled at most once.
    && (forall timer: nat :: timer < m.timers <==> SettledWait(m, timer) || (m.pending.Some? && m.pending.value.timer == timer))
    && (m.pending.Some? ==> !SettledWait(m, m.pending.value.timer))
    && (forall i, j | 0 <= i < j < |m.settled| :: m.settled[i].wait.timer != m.settled[j].wait.timer)
    && (forall k | 0 <= k < |m.settled| :: Justified(m.settled[k]))
    // At most one wait for each of the two phases.
    && m.timers <= (if Rank(m.state) == 0 then 0 else if Rank(m.state) <= 2 then 1 else 2)
  }

  lemma SettleKeeps(m: Machine, resolved: bool, cause: Event, state: State)
    requires Invariant(m) && m.pending.Some? && Awaited(state).None? && Rank(m.state) < Rank(state)
    requires Justified(Settlement(m.pending.value, resolved, cause))
    ensures Invariant(Settle(m, resolved, cause).(state := state))
  {
    var t := Settle(m, resolved, cause).(state := state);
    forall timer: nat
      ensures SettledWait(t, timer) <==> SettledWait(m, timer) || m.pending.value.timer == timer
    {
      assert t.settled[|m.settled|].wait == m.pending.value;
      assert forall k | 0 <= k < |m.settled| :: t.settled[k] == m.settled[k];
    }
  }

  lemma BeginKeeps(m: Machine, phase: Phase)
    requires Invariant(m)
    ensures Invariant(Next(m, Begin(phase)))
  {
    var t := Next(m, Begin(phase));
    assert forall timer: nat :: SettledWait(t, timer) == SettledWait(m, timer);
  }

  // Every event preserves the invariant.
  lemma NextKeeps(m: Machine, event: Event)
    requires Invariant(m) && Valid(event)
    ensures Invariant(Next(m, event))
  {
    match event
    case Begin(phase) => BeginKeeps(m, phase);
    case Message(action) =>
      var step := Advance(m.state, action);
      if step.Accepted? && m.pending.Some? {
        SettleKeeps(m, !action.RenderFailedArrived?, event, step.state);
      }
    case Timeout(timer) =>
      if m.pending.Some? && m.pending.value.timer == timer {
        SettleKeeps(m, false, event, Failed);
      }
    case Close =>
      if m.pending.Some? {
        SettleKeeps(m, false, event, Released);
      } else {
        assert forall timer: nat :: SettledWait(Next(m, Close), timer) == SettledWait(m, timer);
      }
  }

  lemma {:induction false} RunKeeps(events: seq<Event>)
    requires forall k | 0 <= k < |events| :: Valid(events[k])
    ensures Invariant(Run(Start, events))
  {
    if events != [] {
      RunKeeps(events[..|events| - 1]);
      NextKeeps(Run(Start, events[..|events| - 1]), events[|events| - 1]);
    }
  }

  // In every run a promise is pending exactly when the state awaits the same phase and capability.
  lemma PendingIffAwaiting(events: seq<Event>)
    requires forall k | 0 <= k < |events| :: Valid(events[k])
    ensures var m := Run(Start, events);
            match m.pending
            case Some(wait) => Awaited(m.state) == Some(wait.phase)
            case None => Awaited(m.state) == None
  {
    RunKeeps(events);
  }

  // Each wait settles at most once; a render wait resolves only on its own capability; there are at most
  // two waits; and once nothing is pending every wait has been settled.
  lemma WaitsSettleOnce(events: seq<Event>)
    requires forall k | 0 <= k < |events| :: Valid(events[k])
    ensures var m := Run(Start, events);
            && m.timers <= 2
            && (forall i, j | 0 <= i < j < |m.settled| :: m.settled[i].wait.timer != m.settled[j].wait.timer)
            && (forall k, capability | 0 <= k < |m.settled| && m.settled[k].wait.phase == ForRender(capability) ::
                  m.settled[k].resolved ==> m.settled[k].cause == Message(RenderedArrived(capability)))
            && (m.pending.None? ==> forall timer | 0 <= timer < m.timers :: SettledWait(m, timer))
  {
    RunKeeps(events);
  }

  // A wait begins exactly when it is permitted: for readiness from the start, for a document once ready.
  lemma BeginIs(m: Machine, phase: Phase)
    ensures Next(m, Begin(phase)) ==
              match phase
              case ForReady =>
                if m.state == Created
                then m.(state := AwaitingReady, pending := Some(Pending(phase, m.timers)), timers := m.timers + 1)
                else m
              case ForRender(capability) =>
                if m.state == Ready
                then m.(state := AwaitingRender(capability), pending := Some(Pending(phase, m.timers)),
                        timers := m.timers + 1)
                else m
  {}

  // The pending wait is settled by the acknowledgement of its phase and capability, which resolves it, by the failure
  // report of its capability, by its own timer, or by the release, which reject it; nothing else has an effect.
  lemma PendingSettles(m: Machine, wait: Pending, event: Event)
    requires Invariant(m) && m.pending == Some(wait) && Valid(event) && !event.Begin?
    ensures var next := Next(m, event);
            var settled := (resolved: bool) => m.settled + [Settlement(wait, resolved, event)];
            match wait.phase
            case ForReady =>
              if event == Message(ReadyArrived)
              then next == m.(state := Ready, pending := None, settled := settled(true))
              else if event == Timeout(wait.timer)
              then next == m.(state := Failed, pending := None, settled := settled(false))
              else if event == Close
              then next == m.(state := Released, pending := None, settled := settled(false))
              else next == m
            case ForRender(capability) =>
              if event == Message(RenderedArrived(capability))
              then next == m.(state := Rendered, pending := None, settled := settled(true))
              else if event == Message(RenderFailedArrived(capability)) || event == Timeout(wait.timer)
              then next == m.(state := Failed, pending := None, settled := settled(false))
              else if event == Close
              then next == m.(state := Released, pending := None, settled := settled(false))
              else next == m
  {}

  // With nothing pending, only the release has an effect.
  lemma NothingPending(m: Machine, event: Event)
    requires Invariant(m) && m.pending == None && Valid(event) && !event.Begin?
    ensures Next(m, event) == if event == Close then m.(state := Released) else m
  {}

  // Transitions only move forward, so nothing leaves `Released` and nothing settles after it.
  lemma NextAdvances(m: Machine, event: Event)
    requires Invariant(m) && Valid(event)
    ensures Next(m, event) == m || Rank(m.state) < Rank(Next(m, event).state)
    ensures m.settled <= Next(m, event).settled
  {
  }

  lemma {:induction false} ReleasedIsTerminal(m: Machine, events: seq<Event>)
    requires Invariant(m) && m.state == Released
    requires forall k | 0 <= k < |events| :: Valid(events[k])
    ensures Run(m, events) == m
  {
    if events != [] {
      ReleasedIsTerminal(m, events[..|events| - 1]);
      NextAdvances(m, events[|events| - 1]);
    }
  }

  // -------------------------------------------------------------------------
  // The interpreter object and the transfer of a document
  // -------------------------------------------------------------------------

  class RendererLifecycle {
    var state: State
    var pending: Option<Pending>
    var timers: nat
    ghost var settled: seq<Settlement>

    ghost function View(): Machine
      reads this
    {
      Machine(state, pending, timers, settled)
    }

    constructor ()
      ensures View() == Start
    {
      state, pending, timers, settled := Created, None, 0, [];
    }

    /** Starts a wait; false when the transition is not permitted, and nothing changes. */
    method Begin(phase: Phase) returns (started: bool)
      modifies this
      ensures View() == Next(old(View()), Event.Begin(phase))
      ensures started <==> Advance(old(state), BeginAction(phase)).Accepted?
    {
      var step := Advance(state, BeginAction(phase));
      if !step.Accepted? {
        return false;
      }
      state := step.state;
      pending := Some(Pending(phase, timers));
      timers := timers + 1;
      started := true;
    }

    method FailPending(timer: nat)
      modifies this
      ensures View() == Next(old(View()), Timeout(timer))
    {
      if pending.None? || pending.value.timer != timer {
        return;
      }
      var owned := pending.value;
      pending := None;
      var step := Advance(state, PendingFailed);
      if step.Accepted? {
        state := step.state;
      }
      settled := settled + [Settlement(owned, false, Timeout(timer))];
    }

    /** Applies an acknowledgement; true when it settled the pending wait. */
    method Apply(action: Action) returns (applied: bool)
      requires IsMessage(action)
      modifies this
      ensures View() == Next(old(View()), Message(action))
      ensures applied <==> Advance(old(state), action).Accepted? && old(pending).Some?
    {
      var step := Advance(state, action);
      if !step.Accepted? || pending.None? {
        return false;
      }
      var owned := pending.value;
      state := step.state;
      pending := None;
      settled := settled + [Settlement(owned, !action.RenderFailedArrived?, Message(action))];
      applied := true;
    }

    method Release()
      modifies this
      ensures View() == Next(old(View()), Close)
    {
      var step := Advance(state, Action.Release);
      if step.Accepted? {
        state := step.state;
      }
      if pending.Some? {
        settled := settled + [Settlement(pending.value, false, Close)];
        pending := None;
      }
    }

    /** Takes one event; a transition that is not permitted changes nothing. */
    method Take(event: Event)
      requires Valid(event)
      modifies this
      ensures View() == Next(old(View()), event)
    {
      match event
      case Begin(phase) => var started := Begin(phase);
      case Message(action) => var applied := Apply(action);
      case Timeout(timer) => FailPending(timer);
      case Close => Release();
    }
  }

  /** A freshly allocated pair of ports; closing them is idempotent. */
  class GatewayLease {
    var released: bool
    var hostClosed: nat
    var rendererClosed: nat

    constructor ()
      ensures !released && hostClosed == 0 && rendererClosed == 0
    {
      released, hostClosed, rendererClosed := false, 0, 0;
    }

    method Release()
      modifies this
      ensures released
      ensures hostClosed == old(hostClosed) + (if old(released) then 0 else 1)
      ensures rendererClosed == old(rendererClosed) + (if old(released) then 0 else 1)
    {
      if released {
        return;
      }
      released := true;
      hostClosed := hostClosed + 1;
      rendererClosed := rendererClosed + 1;
    }
  }

  /** The first browser effect that throws, if any. */
  datatype Fault = NoFault | CreateGatewayFails | InstallGatewayFails | PostRenderFails

  datatype Transfer = NotPermitted | TransferFailed | Transferred

  // Whatever happens to the lifecycle during the transfer, reporting its failure leaves no wait behind; undisturbed,
  // it rejects the wait of this transfer.
  lemma FailureSettles(m: Machine, capability: Capability, during: seq<Event>)
    requires Invariant(m) && m.state.Ready? && forall k | 0 <= k < |during| :: Valid(during[k])
    ensures var begun := Next(m, Begin(ForRender(capability)));
            var failure := Message(RenderFailedArrived(capability));
            var reached := Run(begun, during);
            var failed := Next(reached, failure);
            && failed.pending == None && SettledWait(failed, m.timers)
            && if reached == begun
               then failed.state == Failed
                    && failed.settled == m.settled + [Settlement(Pending(ForRender(capability), m.timers), false, failure)]
               else failed == reached && Rank(reached.state) > 3
  {
    var begun := Next(m, Begin(ForRender(capability)));
    var failure := Message(RenderFailedArrived(capability));
    NextKeeps(m, Begin(ForRender(capability)));
    RunAdvances(begun, during);
    NextKeeps(Run(begun, during), failure);
  }

  lemma {:induction false} RunAdvances(m: Machine, events: seq<Event>)
    requires Invariant(m) && forall k | 0 <= k < |events| :: Valid(events[k])
    ensures Invariant(Run(m, events)) && m.timers <= Run(m, events).timers
    ensures Run(m, events) == m || Rank(m.state) < Rank(Run(m, events).state)
  {
    hide Invariant;
    if events != [] {
      var init := events[..|events| - 1];
      RunAdvances(m, init);
      NextKeeps(Run(m, init), events[|events| - 1]);
      NextAdvances(Run(m, init), events[|events| - 1]);
    }
  }

  /** Transfers one document under a fresh capability; `during` are the events that reach the lifecycle while the
      effects run. A failure closes both ports once and is reported to the lifecycle; success leaves the ports to
      their new owners and the wait to the lifecycle. */
  method RenderDocument(lifecycle: RendererLifecycle, capability: Capability, during: seq<Event>, fault: Fault)
    returns (transfer: Transfer, lease: GatewayLease?)
    requires forall k | 0 <= k < |during| :: Valid(during[k])
    modifies lifecycle
    ensures lease != null ==> fresh(lease)
    ensures transfer == NotPermitted <==> !old(lifecycle.state).Ready?
    ensures var reached := Run(Next(old(lifecycle.View()), Begin(ForRender(capability))), during);
            match transfer
            case NotPermitted =>
              lifecycle.View() == old(lifecycle.View()) && lease == null
            case TransferFailed =>
              && fault != NoFault
              && lifecycle.View() == Next(reached, Message(RenderFailedArrived(capability)))
              && (lease == null <==> fault == CreateGatewayFails)
              && (lease != null ==> lease.released && lease.hostClosed == 1 && lease.rendererClosed == 1)
            case Transferred =>
              && fault == NoFault
              && lifecycle.View() == reached
              && lease != null && !lease.released && lease.hostClosed == 0 && lease.rendererClosed == 0
    ensures old(Invariant(lifecycle.View())) && transfer == TransferFailed ==> lifecycle.pending == None
  {
    ghost var before := lifecycle.View();
    lease := null;
    var started := lifecycle.Begin(ForRender(capability));
    if !started {
      return NotPermitted, null;
    }
    ghost var begun := lifecycle.View();
    if fault != CreateGatewayFails {
      lease := new GatewayLease();
    }
    for k := 0 to |during|
      invariant lifecycle.View() == Run(begun, during[..k])
      invariant lease != null ==> fresh(lease) && !lease.released && lease.hostClosed == 0 && lease.rendererClosed == 0
    {
      assert during[..k + 1][..k] == during[..k];
      lifecycle.Take(during[k]);
    }
    assert during[..|during|] == during;
    if fault == NoFault {
      return Transferred, lease;
    }
    if lease != null {
      lease.Release();
    }
    var applied := lifecycle.Apply(RenderFailedArrived(capability));
    if Invariant(before) {
      FailureSettles(before, capability, during);
    }
    transfer := TransferFailed;
  }
}
