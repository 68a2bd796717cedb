/** The bounded first-in-first-out permit limiter of the local gateway
    (frontend/src/webview.rs). Arrivals are numbered; a queued arrival has a guard with a shared
    `granted` cell and the receiving end of a one-shot channel, and its future may be dropped at
    any time: the receiver dies first and the guard is dropped in a later step. */
module Limiter {
  /** The cell and channel of one armed guard. */
  datatype Wait = Wait(granted: bool, receiverAlive: bool)

  /** The limiter and everything handed out by it. `grants` lists, in order, the arrivals that
      were given a permit, directly or by hand-off. */
  datatype State = State(
    available: nat, maximumWaiters: nat, queue: seq<nat>,
    waits: map<nat, Wait>, permits: nat, arrivals: nat, grants: seq<nat>)

  datatype Admission = Permit | Queued(id: nat) | QueueFull

  datatype Event = Acquire | Resume(id: nat) | DropReceiver(id: nat) | DropGuard(id: nat) | DropPermit

  function Initial(maximum: nat, maximumWaiters: nat): State {
    State(maximum, maximumWaiters, [], map[], 0, 0, [])
  }

  function AcquireOutcome(s: State): Admission {
    if s.available > 0 then Permit
    else if |s.queue| >= s.maximumWaiters then QueueFull
    else Queued(s.arrivals)
  }

  function AcquireStep(s: State): State {
    match AcquireOutcome(s)
    case Permit =>
      s.(available := s.available - 1, permits := s.permits + 1, arrivals := s.arrivals + 1,
         grants := s.grants + [s.arrivals])
    case QueueFull => s
    case Queued(id) =>
      s.(queue := s.queue + [id], waits := s.waits[id := Wait(false, true)], arrivals := id + 1)
  }

  predicate Live(s: State, id: nat) {
    id in s.waits && s.waits[id].receiverAlive
  }

  /** Hands the permit to the first live waiter, discarding dead ones, or makes it available. */
  function ReleaseStep(s: State): State
    decreases |s.queue|
  {
    if s.queue == [] then s.(available := s.available + 1)
    else
      var id := s.queue[0];
      var rest := s.(queue := s.queue[1..]);
      if Live(s, id) then rest.(waits := s.waits[id := Wait(true, true)], grants := s.grants + [id])
      else ReleaseStep(rest)
  }

  function Without(queue: seq<nat>, id: nat): seq<nat> {
    if queue == [] then []
    else (if queue[0] == id then [] else [queue[0]]) + Without(queue[1..], id)
  }

  predicate Enabled(s: State, event: Event) {
    match event
    case Acquire => true
    case Resume(id) => Live(s, id) && s.waits[id].granted
    case DropReceiver(id) => Live(s, id)
    case DropGuard(id) => id in s.waits && !s.waits[id].receiverAlive
    case DropPermit => s.permits > 0
  }

  function Step(s: State, event: Event): State
    requires Enabled(s, event)
  {
    match event
    case Acquire => AcquireStep(s)
    case Resume(id) => s.(waits := s.waits - {id}, permits := s.permits + 1)
    case DropReceiver(id) => s.(waits := s.waits[id := s.waits[id].(receiverAlive := false)])
    case DropGuard(id) =>
      var dropped := s.(waits := s.waits - {id});
      if s.waits[id].granted then ReleaseStep(dropped) else dropped.(queue := Without(s.queue, id))
    case DropPermit => ReleaseStep(s.(permits := s.permits - 1))
  }

  /** `events` can all be taken from `s`, in order, and lead to `t`. */
  ghost predicate Runs(s: State, events: seq<Event>, t: State)
    decreases |events|
  {
    if events == [] then s == t
    else Enabled(s, events[0]) && Runs(Step(s, events[0]), events[1..], t)
  }

  // -------------------------------------------------------------------------
  // The invariant
  // -------------------------------------------------------------------------

  /** The granted waiters that have not resumed. */
  function Granted(s: State): set<nat> {
    set id | id in s.waits && s.waits[id].granted
  }

  ghost predicate Ascending(s: seq<nat>) {
    forall i, j | 0 <= i < j < |s| :: s[i] < s[j]
  }

  // The queue holds, in arrival order, waiters without a permit, among them every live one.
  ghost predicate QueueInvariant(s: State) {
    && Ascending(s.queue)
    && (forall id | id in s.queue :: id in s.waits && !s.waits[id].granted)
    && (forall id | id in s.waits :: id < s.arrivals)
    && (forall id | Live(s, id) && !s.waits[id].granted :: id in s.queue)
  }

  // Every grant went to an earlier arrival than every waiter still queued.
  ghost predicate GrantInvariant(s: State) {
    && Ascending(s.grants)
    && (forall g | g in s.grants :: g < s.arrivals)
    && (forall g, id | g in s.grants && id in s.queue :: g < id)
    && (forall id | id in Granted(s) :: id in s.grants)
  }

  // Permits in the pool, held, or handed to a waiter that has not resumed.
  function Total(s: State): nat {
    s.available + s.permits + |Granted(s)|
  }

  ghost predicate Shape(s: State) {
    && |s.queue| <= s.maximumWaiters
    && (s.available > 0 ==> s.queue == [])
    && QueueInvariant(s)
    && GrantInvariant(s)
  }

  ghost predicate Invariant(s: State, maximum: nat) {
    Total(s) == maximum && Shape(s)
  }

  lemma SizeAfter(a: set<nat>, b: set<nat>, id: nat)
    requires a - {id} == b - {id}
    ensures |b| == |a| + (if id in b then 1 else 0) - (if id in a then 1 else 0)
  {
    SizeWithout(a, id);
    SizeWithout(b, id);
  }

  lemma SizeWithout(a: set<nat>, id: nat)
    ensures |a| == |a - {id}| + (if id in a then 1 else 0)
  {
    if id !in a {
      assert a - {id} == a;
    }
  }

  lemma AscendingSnoc(s: seq<nat>, last: nat)
    requires Ascending(s) && forall x | x in s :: x < last
    ensures Ascending(s + [last])
  {
    forall i, j | 0 <= i < j < |s + [last]|
      ensures (s + [last])[i] < (s + [last])[j]
    {
      assert s[i] in s;
    }
  }

  function HandOff(s: State): State
    requires s.queue != []
  {
    s.(queue := s.queue[1..], waits := s.waits[s.queue[0] := Wait(true, true)], grants := s.grants + [s.queue[0]])
  }

  lemma HandOffKeepsQueue(s: State)
    requires QueueInvariant(s) && s.queue != [] && Live(s, s.queue[0])
    ensures QueueInvariant(HandOff(s))
    ensures Granted(HandOff(s)) == Granted(s) + {s.queue[0]} && s.queue[0] !in Granted(s)
  {
    var t := HandOff(s);
    assert forall k | k in t.queue :: k in s.queue && k != s.queue[0];
  }

  lemma HandOffKeepsGrants(s: State)
    requires QueueInvariant(s) && GrantInvariant(s) && s.queue != [] && Live(s, s.queue[0])
    ensures GrantInvariant(HandOff(s))
  {
    var id, t := s.queue[0], HandOff(s);
    AscendingSnoc(s.grants, id);
    HandOffKeepsQueue(s);
    assert forall k | k in t.queue :: k in s.queue && id < k;
    hide Granted;
  }

  lemma HandOffKeeps(s: State)
    requires Shape(s) && s.queue != [] && Live(s, s.queue[0])
    ensures Shape(HandOff(s)) && Total(HandOff(s)) == Total(s) + 1
  {
    HandOffKeepsQueue(s);
    HandOffKeepsGrants(s);
    hide QueueInvariant, GrantInvariant, Granted;
  }

  lemma DiscardKeeps(s: State)
    requires Shape(s) && s.queue != [] && !Live(s, s.queue[0])
    ensures var rest := s.(queue := s.queue[1..]); Shape(rest) && Total(rest) == Total(s)
  {
    var rest := s.(queue := s.queue[1..]);
    assert forall k | k in rest.queue :: k in s.queue && k != s.queue[0];
    assert Granted(rest) == Granted(s);
  }

  // Releasing puts exactly one permit back.
  lemma {:induction false} ReleaseKeeps(s: State)
    requires Shape(s)
    ensures Shape(ReleaseStep(s)) && Total(ReleaseStep(s)) == Total(s) + 1
    ensures ReleaseStep(s).maximumWaiters == s.maximumWaiters
    decreases |s.queue|
  {
    if s.queue == [] {
      assert Granted(s.(available := s.available + 1)) == Granted(s);
    } else if Live(s, s.queue[0]) {
      HandOffKeeps(s);
    } else {
      DiscardKeeps(s);
      hide QueueInvariant, GrantInvariant, Total;
      ReleaseKeeps(s.(queue := s.queue[1..]));
    }
  }

  lemma {:induction false} WithoutMembers(queue: seq<nat>, id: nat)
    ensures forall k :: k in Without(queue, id) <==> k in queue && k != id
    ensures |Without(queue, id)| <= |queue|
  {
    if queue != [] {
      WithoutMembers(queue[1..], id);
      assert forall k :: k in queue <==> k == queue[0] || k in queue[1..];
    }
  }

  lemma AscendingUncons(s: seq<nat>)
    requires s != [] && Ascending(s)
    ensures Ascending(s[1..]) && forall k | k in s[1..] :: s[0] < k
  {
    forall i, j | 0 <= i < j < |s[1..]|
      ensures s[1..][i] < s[1..][j]
    {
      assert s[i + 1] < s[j + 1];
    }
    forall k | k in s[1..]
      ensures s[0] < k
    {
      var j :| 0 <= j < |s[1..]| && s[1..][j] == k;
      assert s[0] < s[j + 1];
    }
  }

  lemma AscendingCons(first: nat, s: seq<nat>)
    requires Ascending(s) && forall k | k in s :: first < k
    ensures Ascending([first] + s)
  {
    var all := [first] + s;
    forall i, j | 0 <= i < j < |all|
      ensures all[i] < all[j]
    {
      assert all[j] == s[j - 1] && s[j - 1] in s;
      assert i > 0 ==> all[i] == s[i - 1];
    }
  }

  lemma {:induction false} WithoutAscends(queue: seq<nat>, id: nat)
    requires Ascending(queue)
    ensures Ascending(Without(queue, id))
  {
    hide Ascending;
    if queue == [] {
      NoneAscends();
    } else {
      var rest := Without(queue[1..], id);
      AscendingUncons(queue);
      WithoutAscends(queue[1..], id);
      WithoutMembers(queue[1..], id);
      AscendingCons(queue[0], rest);
      assert [] + rest == rest;
      assert Without(queue, id) == if queue[0] == id then rest else [queue[0]] + rest;
    }
  }

  lemma NoneAscends()
    ensures Ascending([])
  {}

  lemma WithoutKeeps(queue: seq<nat>, id: nat)
    ensures forall k :: k in Without(queue, id) <==> k in queue && k != id
    ensures |Without(queue, id)| <= |queue|
    ensures Ascending(queue) ==> Ascending(Without(queue, id))
  {
    hide Ascending, Without;
    WithoutMembers(queue, id);
    if Ascending(queue) {
      WithoutAscends(queue, id);
    }
  }

  lemma AcquireKeeps(s: State)
    requires Shape(s)
    ensures Shape(AcquireStep(s)) && Total(AcquireStep(s)) == Total(s)
    ensures AcquireStep(s).maximumWaiters == s.maximumWaiters
  {
    assert Granted(AcquireStep(s)) == Granted(s);
    match AcquireOutcome(s)
    case Permit =>
      AscendingSnoc(s.grants, s.arrivals);
    case QueueFull =>
    case Queued(id) =>
      AscendingSnoc(s.queue, id);
  }

  lemma DropGuardKeeps(s: State, id: nat)
    requires Shape(s) && Enabled(s, DropGuard(id))
    ensures Shape(Step(s, DropGuard(id))) && Total(Step(s, DropGuard(id))) == Total(s)
    ensures Step(s, DropGuard(id)).maximumWaiters == s.maximumWaiters
  {
    var dropped := s.(waits := s.waits - {id});
    SizeAfter(Granted(s), Granted(dropped), id);
    if s.waits[id].granted {
      ReleaseKeeps(dropped);
    } else {
      WithoutKeeps(s.queue, id);
      assert Granted(Step(s, DropGuard(id))) == Granted(dropped);
    }
  }

  lemma StepKeeps(s: State, event: Event, maximum: nat)
    requires Invariant(s, maximum) && Enabled(s, event)
    ensures Invariant(Step(s, event), maximum) && Step(s, event).maximumWaiters == s.maximumWaiters
  {
    var t := Step(s, event);
    match event
    case Acquire => AcquireKeeps(s);
    case Resume(id) =>
      SizeAfter(Granted(s), Granted(t), id);
    case DropReceiver(id) =>
      assert Granted(t) == Granted(s);
    case DropGuard(id) => DropGuardKeeps(s, id);
    case DropPermit =>
      var returned := s.(permits := s.permits - 1);
      assert Granted(returned) == Granted(s);
      ReleaseKeeps(returned);
  }

  lemma {:induction false} RunKeeps(s: State, events: seq<Event>, t: State, maximum: nat)
    requires Invariant(s, maximum) && Runs(s, events, t)
    ensures Invariant(t, maximum) && t.maximumWaiters == s.maximumWaiters
    decreases |events|
  {
    if events != [] {
      StepKeeps(s, events[0], maximum);
      RunKeeps(Step(s, events[0]), events[1..], t, maximum);
    }
  }

  // -------------------------------------------------------------------------
  // Every run from the start
  // -------------------------------------------------------------------------

  ghost predicate Reachable(maximum: nat, maximumWaiters: nat, t: State) {
    exists events :: Runs(Initial(maximum, maximumWaiters), events, t)
  }

  lemma ReachableKeeps(maximum: nat, maximumWaiters: nat, t: State)
    requires Reachable(maximum, maximumWaiters, t)
    ensures Invariant(t, maximum) && t.maximumWaiters == maximumWaiters
  {
    var events :| Runs(Initial(maximum, maximumWaiters), events, t);
    assert Granted(Initial(maximum, maximumWaiters)) == {};
    RunKeeps(Initial(maximum, maximumWaiters), events, t, maximum);
  }

  // Permits are conserved, the queue is bounded, and a permit is never idle while someone waits for it.
  lemma PermitsAreConserved(maximum: nat, maximumWaiters: nat, t: State)
    requires Reachable(maximum, maximumWaiters, t)
    ensures t.available + t.permits + |Granted(t)| == maximum
    ensures |t.queue| <= maximumWaiters
    ensures forall id | Live(t, id) && !t.waits[id].granted :: t.available == 0 && id in t.queue
  {
    ReachableKeeps(maximum, maximumWaiters, t);
  }

  // Permits are granted in strictly increasing arrival order, and no live waiter is overtaken.
  lemma GrantsFollowArrivals(maximum: nat, maximumWaiters: nat, t: State)
    requires Reachable(maximum, maximumWaiters, t)
    ensures forall i, j | 0 <= i < j < |t.grants| :: t.grants[i] < t.grants[j]
    ensures forall g, id | g in t.grants && Live(t, id) && !t.waits[id].granted :: g < id
  {
    ReachableKeeps(maximum, maximumWaiters, t);
  }

  // A live waiter without a permit still has its sender in the queue, so its receiver cannot fail and
  // acquisition never goes round its loop again.
  lemma SenderOutlivesReceiver(maximum: nat, maximumWaiters: nat, t: State, id: nat)
    requires Reachable(maximum, maximumWaiters, t)
    requires Live(t, id) && id !in t.queue
    ensures t.waits[id].granted
  {
    ReachableKeeps(maximum, maximumWaiters, t);
  }

  // In every run an acquisition is refused, and changes nothing, exactly when every permit is held or granted and
  // the queue is full.
  lemma RefusedExactlyWhenFull(maximum: nat, maximumWaiters: nat, t: State)
    requires Reachable(maximum, maximumWaiters, t)
    ensures Step(t, Acquire) == t <==> t.permits + |Granted(t)| == maximum && |t.queue| == maximumWaiters
  {
    ReachableKeeps(maximum, maximumWaiters, t);
  }

  // A release goes to the first live waiter, past the dead ones, who leave the queue; without one it goes back.
  lemma {:induction false} ReleaseIs(s: State, first: nat)
    requires first <= |s.queue| && forall k | 0 <= k < first :: !Live(s, s.queue[k])
    requires first < |s.queue| ==> Live(s, s.queue[first])
    ensures first == |s.queue| ==> ReleaseStep(s) == s.(queue := [], available := s.available + 1)
    ensures first < |s.queue| ==>
              ReleaseStep(s) == s.(queue := s.queue[first + 1..], waits := s.waits[s.queue[first] := Wait(true, true)],
                                   grants := s.grants + [s.queue[first]])
    decreases first
  {
    if first > 0 {
      var rest := s.(queue := s.queue[1..]);
      ReleaseIs(rest, first - 1);
      assert first < |s.queue| ==> rest.queue[first - 1 + 1..] == s.queue[first + 1..];
    }
  }

  // -------------------------------------------------------------------------
  // The limiter object
  // -------------------------------------------------------------------------

  class GatewayRequestLimiter {
    var available: nat
    var waiters: seq<nat>
    var cells: map<nat, Wait>
    const maximumWaiters: nat
    ghost var permits: nat
    ghost var grants: seq<nat>
    var arrivals: nat

    ghost function View(): State
      reads this
    {
      State(available, maximumWaiters, waiters, cells, permits, arrivals, grants)
    }

    constructor (maximum: nat, maximumWaiters: nat)
      ensures View() == Initial(maximum, maximumWaiters)
      ensures available == maximum && this.maximumWaiters == maximumWaiters && waiters == [] && cells == map[]
      ensures permits == 0 && arrivals == 0 && grants == []
    {
      available, waiters, cells, arrivals := maximum, [], map[], 0;
      this.maximumWaiters := maximumWaiters;
      permits, grants := 0, [];
    }

    /** One pass of acquisition: a permit, a place in the queue, or a refusal. */
    method Acquire() returns (outcome: Admission)
      modifies this
      ensures outcome == AcquireOutcome(old(View())) && View() == Step(old(View()), Event.Acquire)
      ensures outcome == Permit <==> old(available) > 0
      ensures outcome == Permit ==>
                && available == old(available) - 1 && permits == old(permits) + 1
                && waiters == old(waiters) && cells == old(cells)
                && grants == old(grants) + [old(arrivals)] && arrivals == old(arrivals) + 1
      ensures outcome == QueueFull <==> old(available) == 0 && |old(waiters)| >= maximumWaiters
      ensures outcome == QueueFull ==> View() == old(View())
      ensures outcome.Queued? ==>
                && outcome.id == old(arrivals) && arrivals == old(arrivals) + 1
                && waiters == old(waiters) + [outcome.id] && cells == old(cells)[outcome.id := Wait(false, true)]
                && available == old(available) && permits == old(permits) && grants == old(grants)
    {
      if available > 0 {
        available := available - 1;
        permits, grants, arrivals := permits + 1, grants + [arrivals], arrivals + 1;
        outcome := Permit;
      } else if |waiters| >= maximumWaiters {
        outcome := QueueFull;
      } else {
        outcome := Queued(arrivals);
        waiters := waiters + [arrivals];
        cells := cells[arrivals := Wait(false, true)];
        arrivals := arrivals + 1;
      }
    }

    /** Pops waiters until one takes the permit; otherwise the permit becomes available. */
    method Release()
      modifies this
      ensures View() == ReleaseStep(old(View()))
    {
      while |waiters| > 0
        invariant ReleaseStep(View()) == ReleaseStep(old(View()))
      {
        var id := waiters[0];
        waiters := waiters[1..];
        if id in cells && cells[id].receiverAlive {
          cells := cells[id := Wait(true, true)];
          grants := grants + [id];
          return;
        }
      }
      available := available + 1;
    }

    method CancelWaiter(id: nat)
      modifies this`waiters
      ensures waiters == Without(old(waiters), id)
    {
      var kept, k := [], 0;
      while k < |waiters|
        invariant 0 <= k <= |waiters|
        invariant kept + Without(waiters[k..], id) == Without(waiters, id)
      {
        if waiters[k] != id {
          kept := kept + [waiters[k]];
        }
        assert waiters[k..][1..] == waiters[k + 1..];
        k := k + 1;
      }
      waiters := kept;
    }

    /** A waiter that received its permit disarms its guard. */
    method Resume(id: nat)
      requires id in cells && cells[id].receiverAlive && cells[id].granted
      modifies this
      ensures Enabled(old(View()), Event.Resume(id)) && View() == Step(old(View()), Event.Resume(id))
      ensures cells == old(cells) - {id} && permits == old(permits) + 1
      ensures waiters == old(waiters) && available == old(available) && arrivals == old(arrivals) && grants == old(grants)
    {
      cells := cells - {id};
      permits := permits + 1;
    }

    method DropReceiver(id: nat)
      requires id in cells && cells[id].receiverAlive
      modifies this`cells
      ensures Enabled(old(View()), Event.DropReceiver(id)) && View() == Step(old(View()), Event.DropReceiver(id))
      ensures cells == old(cells)[id := Wait(old(cells)[id].granted, false)]
    {
      cells := cells[id := cells[id].(receiverAlive := false)];
    }

    /** Dropping an armed guard returns a granted permit or withdraws from the queue. */
    method DropGuard(id: nat)
      requires id in cells && !cells[id].receiverAlive
      modifies this
      ensures Enabled(old(View()), Event.DropGuard(id)) && View() == Step(old(View()), Event.DropGuard(id))
      ensures View() == if old(cells)[id].granted then ReleaseStep(old(View()).(waits := old(cells) - {id}))
                        else old(View()).(waits := old(cells) - {id}, queue := Without(old(waiters), id))
    {
      var granted := cells[id].granted;
      cells := cells - {id};
      if granted {
        Release();
      } else {
        CancelWaiter(id);
      }
    }

    method DropPermit()
      requires permits > 0
      modifies this
      ensures Enabled(old(View()), Event.DropPermit) && View() == Step(old(View()), Event.DropPermit)
      ensures View() == ReleaseStep(old(View()).(permits := old(permits) - 1))
    {
      permits := permits - 1;
      Release();
    }
  }
}
