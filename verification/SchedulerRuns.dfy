/** Scheduler runs. */
module SchedulerRuns {
  // What every run keeps, for arbitrary handlers.

  import opened HeapTheory
  import opened EventQueues
  import opened EventSimulators

  /** x is due before y: earlier, or at the same time and created before it. */
  ghost predicate Earlier(x: BaseEvent, y: BaseEvent) {
    x.time < y.time || (x.time == y.time && x.serial < y.serial)
  }

  ghost predicate InDueOrder(q: seq<BaseEvent>) {
    forall i, j :: 0 <= i < j < |q| ==> Earlier(q[i], q[j])
  }

  /** The handled events of one kind. */
  ghost function Line(history: seq<Handled>, loopback: bool): seq<BaseEvent> {
    if history == [] then []
    else
      var e := history[|history| - 1];
      Line(history[..|history| - 1], loopback) + (if e.loopback == loopback then [e.event] else [])
  }

  ghost predicate Bounded(q: seq<BaseEvent>, clock: int, next: nat) {
    forall e :: e in q ==> e.time <= clock && e.serial < next
  }

  ghost predicate Waiting(q: seq<BaseEvent>, clock: int, next: nat) {
    forall e :: e in q ==> clock <= e.time && e.serial < next
  }

  /** Events of each kind are handled in due order, those that wait are due after the handled ones
      and not before the clock, and waiting loopbacks are due now. */
  ghost predicate Inv(s: State, history: seq<Handled>) {
    && InDueOrder(Line(history, false) + s.queue) && InDueOrder(Line(history, true) + s.loops)
    && Bounded(Line(history, false), s.clock, s.next) && Bounded(Line(history, true), s.clock, s.next)
    && Waiting(s.queue, s.clock, s.next) && Waiting(s.loops, s.clock, s.next)
    && (forall e :: e in s.loops ==> e.time == s.clock)
    && NeverBack(history, s.clock)
  }

  /** The clock never went back while the history was handled, and is now at most at clock. */
  ghost predicate NeverBack(history: seq<Handled>, clock: int) {
    && (forall i, j :: 0 <= i < j < |history| ==> history[i].event.time <= history[j].event.time)
    && (forall i :: 0 <= i < |history| ==> history[i].event.time <= clock)
  }

  /** A new event that is due no earlier than anything handled keeps the order. */
  lemma InsertInOrder(a: seq<BaseEvent>, q: seq<BaseEvent>, e: BaseEvent)
    requires InDueOrder(a + q)
    requires forall x :: x in a ==> x.time <= e.time && x.serial < e.serial
    requires forall x :: x in q ==> x.serial < e.serial
    ensures InDueOrder(a + Enqueued(q, e))
    ensures forall x :: x in Enqueued(q, e) <==> x in q || x == e
  {
    forall i, j | 0 <= i < j < |q| ensures q[i].time <= q[j].time {
      assert (a + q)[|a| + i] == q[i] && (a + q)[|a| + j] == q[j];
    }
    var k := EnqueuedAt(q, e);
    var r := q[..k] + [e] + q[k..];
    assert q == q[..k] + q[k..];
    hide Enqueued;
    InsertAt(a, q, k, e);
  }

  lemma InsertAt(a: seq<BaseEvent>, q: seq<BaseEvent>, k: nat, e: BaseEvent)
    requires InDueOrder(a + q) && k <= |q|
    requires forall x :: x in a ==> Earlier(x, e)
    requires forall i :: 0 <= i < k ==> Earlier(q[i], e)
    requires forall i :: k <= i < |q| ==> Earlier(e, q[i])
    ensures InDueOrder(a + (q[..k] + [e] + q[k..]))
  {
    hide Earlier;
    var t := a + (q[..k] + [e] + q[k..]);
    var p := |a| + k;
    assert forall i :: 0 <= i < p ==> t[i] == (a + q)[i];
    assert forall i :: p < i < |t| ==> t[i] == (a + q)[i - 1];
    forall i, j | 0 <= i < j < |t| ensures Earlier(t[i], t[j]) {
      if j == p {
        if i < |a| { assert t[i] in a; } else { assert t[i] == q[i - |a|]; }
      } else if i == p {
        assert t[j] == q[j - 1 - |a|];
      } else {
        var x, y := if i < p then i else i - 1, if j < p then j else j - 1;
        assert Earlier((a + q)[x], (a + q)[y]);
      }
    }
  }

  lemma ScheduleKeeps(s: State, history: seq<Handled>, target: int, delay: nat)
    requires Inv(s, history)
    ensures Inv(DoCall(s, Schedule(target, delay)), history)
  {
    hide InDueOrder, NeverBack, Line, Enqueued;
    InsertInOrder(Line(history, false), s.queue, BaseEvent(s.clock + delay, target, s.next));
  }

  lemma LoopbackKeeps(s: State, history: seq<Handled>, target: int)
    requires Inv(s, history)
    ensures Inv(DoCall(s, Loopback(target)), history)
  {
    hide InDueOrder, NeverBack, Line, Enqueued;
    InsertInOrder(Line(history, true), s.loops, BaseEvent(s.clock, target, s.next));
  }

  lemma {:induction false} CallsKeep(s: State, history: seq<Handled>, calls: seq<Call>)
    requires Inv(s, history)
    ensures Inv(DoCalls(s, calls), history)
    decreases |calls|
  {
    hide Inv;
    if calls != [] {
      var init, c := calls[..|calls| - 1], calls[|calls| - 1];
      CallsKeep(s, history, init);
      var t := DoCalls(s, init);
      match c
      case Schedule(target, delay) => ScheduleKeeps(t, history, target, delay);
      case Loopback(target) => LoopbackKeeps(t, history, target);
      case Halt => HaltKeeps(t, history);
    }
  }

  lemma HaltKeeps(s: State, history: seq<Handled>)
    requires Inv(s, history)
    ensures Inv(DoCall(s, Halt), history)
  {
    hide InDueOrder, NeverBack, Line;
  }

  lemma LineAppend(history: seq<Handled>, e: Handled, loopback: bool)
    ensures Line(history + [e], loopback) == Line(history, loopback) + (if e.loopback == loopback then [e.event] else [])
  {
    assert (history + [e])[..|history|] == history;
  }

  lemma FirstDue(a: seq<BaseEvent>, q: seq<BaseEvent>)
    requires q != [] && InDueOrder(a + q)
    ensures a + q == a + [q[0]] + q[1..]
    ensures forall x :: x in q ==> q[0].time <= x.time
  {
    forall x | x in q ensures q[0].time <= x.time {
      var i :| 0 <= i < |q| && q[i] == x;
      assert (a + q)[|a|] == q[0] && (a + q)[|a| + i] == x;
    }
  }

  /** Dispatching the next event: the clock goes to its time, which is never back, and stays where it
      is for a loopback. */
  lemma DispatchKeeps(s: State, history: seq<Handled>)
    requires Inv(s, history) && CanRun(s)
    ensures Inv(Dispatched(s), history + [NextEvent(s)])
    ensures Dispatched(s).clock == NextEvent(s).event.time >= s.clock
    ensures NextEvent(s).loopback ==> Dispatched(s).clock == s.clock
  {
    hide InDueOrder, Line;
    var e := NextEvent(s);
    LineAppend(history, e, false);
    LineAppend(history, e, true);
    if s.loops != [] {
      FirstDue(Line(history, true), s.loops);
      assert Line(history, false) + [] == Line(history, false);
      assert s.loops[0] in s.loops;
    } else {
      FirstDue(Line(history, false), s.queue);
      assert s.queue[0] in s.queue;
      assert Line(history, true) + [] == Line(history, true);
    }
  }

  lemma {:induction false} RunKeeps(s: State, history: seq<Handled>, h: Handlers, fuel: nat)
    requires Inv(s, history)
    ensures var r := RunState(s, history, h, fuel); Inv(r.0, r.1) && history <= r.1
    decreases fuel
  {
    hide Inv, DoCalls, Dispatched, NextEvent;
    if fuel > 0 && CanRun(s) {
      var past := history + [NextEvent(s)];
      DispatchKeeps(s, history);
      CallsKeep(Dispatched(s), past, h(past));
      RunKeeps(DoCalls(Dispatched(s), h(past)), past, h, fuel - 1);
    }
  }

  /** What the parties did before the run: calls at time 0. */
  ghost function Started(calls: seq<Call>): State {
    DoCalls(State(0, 0, false, [], [], 0), calls)
  }

  lemma {:induction false} StartedAtZero(calls: seq<Call>)
    ensures Started(calls).clock == 0 && Inv(Started(calls), []) && Inv(ResetState(Started(calls)), [])
  {
    CallsKeep(State(0, 0, false, [], [], 0), [], calls);
    ClockKept(State(0, 0, false, [], [], 0), calls);
  }

  lemma {:induction false} ClockKept(s: State, calls: seq<Call>)
    ensures DoCalls(s, calls).clock == s.clock
    decreases |calls|
  {
    if calls != [] {
      ClockKept(s, calls[..|calls| - 1]);
    }
  }

  /** In every run, whatever the handlers do: the clock never goes back, scheduled events are handled
      in order of their time and, at the same time, in the order in which they were sent, and so are
      loopbacks; nothing that still waits is late; and what has been handled and what waits is exactly
      what has been asked for. */
  lemma EveryRunInOrder(calls: seq<Call>, h: Handlers, fuel: nat)
    ensures var r := RunState(ResetState(Started(calls)), [], h, fuel);
      NeverBack(r.1, r.0.clock) &&
      InDueOrder(Line(r.1, false)) && InDueOrder(Line(r.1, true)) &&
      (forall e :: e in r.0.queue ==> e.time >= r.0.clock) &&
      (forall e :: e in r.0.loops ==> e.time == r.0.clock) &&
      multiset(Line(r.1, false) + r.0.queue) == multiset(AllMade(calls, h, r.1, |r.1| + 1, false)) &&
      multiset(Line(r.1, true) + r.0.loops) == multiset(AllMade(calls, h, r.1, |r.1| + 1, true))
  {
    hide RunState, Line, NeverBack, Started, AllMade;
    NothingLost(calls, h, fuel, false);
    NothingLost(calls, h, fuel, true);
    StartedAtZero(calls);
    RunKeeps(ResetState(Started(calls)), [], h, fuel);
    var r := RunState(ResetState(Started(calls)), [], h, fuel);
    PrefixInOrder(Line(r.1, false), r.0.queue);
    PrefixInOrder(Line(r.1, true), r.0.loops);
  }

  lemma PrefixInOrder(a: seq<BaseEvent>, b: seq<BaseEvent>)
    requires InDueOrder(a + b)
    ensures InDueOrder(a)
  {
    forall i, j | 0 <= i < j < |a| ensures Earlier(a[i], a[j]) {
      assert (a + b)[i] == a[i] && (a + b)[j] == a[j];
    }
  }

  /** NetSimulator.Send: a message sent at time t with delay d is due at t + d + 1, later than
      everything that is handled at the time it is sent. */
  function SendCall(target: int, delay: nat): Call {
    Schedule(target, delay + 1)
  }

  function Send(s: State, target: int, delay: nat): (r: State) {
    DoCall(s, SendCall(target, delay))
  }

  lemma SentLater(s: State, history: seq<Handled>, target: int, delay: nat)
    requires Inv(s, history)
    ensures Inv(Send(s, target, delay), history)
    ensures BaseEvent(s.clock + delay + 1, target, s.next) in Send(s, target, delay).queue
    ensures forall x :: x in history ==> x.event.time < s.clock + delay + 1
  {
    hide InDueOrder, Line, Enqueued;
    ScheduleKeeps(s, history, target, delay + 1);
    InsertInOrder(Line(history, false), s.queue, BaseEvent(s.clock + (delay + 1), target, s.next));
  }

  // ----- every event that is asked for is handled once -----

  /** The calls made at turn k: those before the run, or those of the k-th handler. */
  ghost function CallsAt(calls: seq<Call>, h: Handlers, history: seq<Handled>, k: nat): seq<Call>
    requires k <= |history|
  {
    if k == 0 then calls else h(history[..k])
  }

  /** The clock at turn k. */
  ghost function TimeAt(history: seq<Handled>, k: nat): int
    requires k <= |history|
  {
    if k == 0 then 0 else history[k - 1].event.time
  }

  /** How many events the calls create. */
  ghost function Creates(calls: seq<Call>): nat {
    if calls == [] then 0
    else Creates(calls[..|calls| - 1]) + (if calls[|calls| - 1].Halt? then 0 else 1)
  }

  /** How many events have been created before turn k. */
  ghost function CreatedBefore(calls: seq<Call>, h: Handlers, history: seq<Handled>, k: nat): nat
    requires k <= |history| + 1
  {
    if k == 0 then 0
    else CreatedBefore(calls, h, history, k - 1) + Creates(CallsAt(calls, h, history, k - 1))
  }

  /** The event of one call. */
  ghost function EventOf(call: Call, time: int, serial: nat): BaseEvent
    requires !call.Halt?
  {
    match call
    case Schedule(target, delay) => BaseEvent(time + delay, target, serial)
    case Loopback(target) => BaseEvent(time, target, serial)
  }

  /** The events of one kind that the calls create at a time, when `next` have been created before. */
  ghost function Made(calls: seq<Call>, time: int, next: nat, loopback: bool): seq<BaseEvent> {
    if calls == [] then []
    else
      var init, c := calls[..|calls| - 1], calls[|calls| - 1];
      Made(init, time, next, loopback) +
        (if c.Halt? || c.Loopback? != loopback then [] else [EventOf(c, time, next + Creates(init))])
  }

  /** Everything of one kind that has been asked for before turn k. */
  ghost function AllMade(calls: seq<Call>, h: Handlers, history: seq<Handled>, k: nat, loopback: bool): seq<BaseEvent>
    requires k <= |history| + 1
  {
    if k == 0 then []
    else
      AllMade(calls, h, history, k - 1, loopback) +
        Made(CallsAt(calls, h, history, k - 1), TimeAt(history, k - 1), CreatedBefore(calls, h, history, k - 1), loopback)
  }

  ghost function Pending(s: State, loopback: bool): seq<BaseEvent> {
    if loopback then s.loops else s.queue
  }

  lemma EnqueuedElements(q: seq<BaseEvent>, e: BaseEvent)
    ensures multiset(Enqueued(q, e)) == multiset(q) + multiset{e}
  {
    var k := PlaceOf(q, e);
    assert q == q[..k] + q[k..];
  }

  lemma {:induction false} PlaceOf(q: seq<BaseEvent>, e: BaseEvent) returns (k: nat)
    ensures k <= |q| && Enqueued(q, e) == q[..k] + [e] + q[k..]
    decreases |q|
  {
    if q == [] || e.time < q[0].time {
      k := 0;
    } else {
      var j := PlaceOf(q[1..], e);
      k := j + 1;
      assert q[..k] == [q[0]] + q[1..][..j];
    }
  }

  lemma CallMakes(s: State, c: Call, loopback: bool)
    ensures multiset(Pending(DoCall(s, c), loopback)) == multiset(Pending(s, loopback)) +
      (if c.Halt? || c.Loopback? != loopback then multiset{} else multiset{EventOf(c, s.clock, s.next)})
    ensures DoCall(s, c).next == s.next + (if c.Halt? then 0 else 1) && DoCall(s, c).clock == s.clock
  {
    hide Enqueued;
    if !c.Halt? {
      EnqueuedElements(Pending(s, c.Loopback?), EventOf(c, s.clock, s.next));
    }
  }

  lemma LastCall(s: State, calls: seq<Call>, time: int, next: nat, loopback: bool)
    requires calls != []
    ensures var init, c := calls[..|calls| - 1], calls[|calls| - 1];
      DoCalls(s, calls) == DoCall(DoCalls(s, init), c) &&
      Creates(calls) == Creates(init) + (if c.Halt? then 0 else 1) &&
      multiset(Made(calls, time, next, loopback)) == multiset(Made(init, time, next, loopback)) +
        (if c.Halt? || c.Loopback? != loopback then multiset{} else multiset{EventOf(c, time, next + Creates(init))})
  {
    hide DoCall, EventOf;
    assert Made(calls[..|calls| - 1], time, next, loopback) + [] == Made(calls[..|calls| - 1], time, next, loopback);
  }

  lemma {:induction false} CallsMake(s: State, calls: seq<Call>, loopback: bool)
    ensures var t := DoCalls(s, calls);
      multiset(Pending(t, loopback)) == multiset(Pending(s, loopback)) + multiset(Made(calls, s.clock, s.next, loopback)) &&
      t.next == s.next + Creates(calls) && t.clock == s.clock
    decreases |calls|
  {
    if calls == [] {
      assert Made(calls, s.clock, s.next, loopback) == [];
    } else {
      MoreCallsMake(s, calls, loopback);
    }
  }

  lemma {:induction false} MoreCallsMake(s: State, calls: seq<Call>, loopback: bool)
    requires calls != []
    ensures var t := DoCalls(s, calls);
      multiset(Pending(t, loopback)) == multiset(Pending(s, loopback)) + multiset(Made(calls, s.clock, s.next, loopback)) &&
      t.next == s.next + Creates(calls) && t.clock == s.clock
    decreases |calls|, 0
  {
    hide DoCall, DoCalls, Pending, EventOf, Made, Creates;
    var init, c := calls[..|calls| - 1], calls[|calls| - 1];
    CallsMake(s, init, loopback);
    LastCall(s, calls, s.clock, s.next, loopback);
    CallMakes(DoCalls(s, init), c, loopback);
  }

  /** Of each kind, what has been asked for is what has been handled and what waits. */
  ghost predicate Conserved(calls: seq<Call>, h: Handlers, s: State, history: seq<Handled>) {
    && s.next == CreatedBefore(calls, h, history, |history| + 1)
    && forall loopback :: Accounted(calls, h, s, history, loopback)
  }

  ghost predicate Accounted(calls: seq<Call>, h: Handlers, s: State, history: seq<Handled>, loopback: bool) {
    multiset(Line(history, loopback) + Pending(s, loopback)) == multiset(AllMade(calls, h, history, |history| + 1, loopback))
  }

  lemma StartConserved(calls: seq<Call>, h: Handlers)
    ensures Conserved(calls, h, ResetState(Started(calls)), [])
  {
    var zero := State(0, 0, false, [], [], 0);
    forall loopback ensures Accounted(calls, h, ResetState(Started(calls)), [], loopback) {
      CallsMake(zero, calls, loopback);
      assert AllMade(calls, h, [], 0, loopback) == [];
      assert [] + Made(calls, 0, 0, loopback) == Made(calls, 0, 0, loopback);
      assert Line([], loopback) + Pending(Started(calls), loopback) == Pending(Started(calls), loopback);
    }
    CallsMake(zero, calls, false);
    assert CreatedBefore(calls, h, [], 0) == 0;
  }

  /** What was asked for in the past does not depend on what is handled later. */
  lemma {:induction false} PastMade(calls: seq<Call>, h: Handlers, history: seq<Handled>, longer: seq<Handled>, k: nat, loopback: bool)
    requires history <= longer && k <= |history| + 1
    ensures AllMade(calls, h, history, k, loopback) == AllMade(calls, h, longer, k, loopback)
    ensures CreatedBefore(calls, h, history, k) == CreatedBefore(calls, h, longer, k)
    decreases k
  {
    hide Made, Creates;
    if k > 0 {
      PastMade(calls, h, history, longer, k - 1, loopback);
      assert history[..k - 1] == longer[..k - 1];
    }
  }

  /** One turn: the next event is dispatched and its handler makes its calls. */
  ghost function Turn(s: State, history: seq<Handled>, h: Handlers): State
    requires CanRun(s)
  {
    DoCalls(Dispatched(s), h(history + [NextEvent(s)]))
  }

  lemma NextLeaves(s: State, loopback: bool)
    requires CanRun(s)
    ensures Pending(s, loopback) ==
      (if NextEvent(s).loopback == loopback then [NextEvent(s).event] else []) + Pending(Dispatched(s), loopback)
    ensures Dispatched(s).next == s.next && Dispatched(s).clock == NextEvent(s).event.time
  {
    if s.loops != [] {
      assert s.loops == [s.loops[0]] + s.loops[1..];
    } else {
      assert s.queue == [s.queue[0]] + s.queue[1..];
    }
  }

  lemma DispatchedPending(s: State, history: seq<Handled>, loopback: bool)
    requires CanRun(s)
    ensures Line(history + [NextEvent(s)], loopback) + Pending(Dispatched(s), loopback) == Line(history, loopback) + Pending(s, loopback)
    ensures Dispatched(s).next == s.next && Dispatched(s).clock == NextEvent(s).event.time
  {
    hide Line, NextEvent, Dispatched, Pending, CanRun;
    LineAppend(history, NextEvent(s), loopback);
    NextLeaves(s, loopback);
  }

  lemma TurnConserved(calls: seq<Call>, h: Handlers, s: State, history: seq<Handled>)
    requires CanRun(s) && Conserved(calls, h, s, history)
    ensures Conserved(calls, h, Turn(s, history, h), history + [NextEvent(s)])
  {
    hide Line, Made, Creates, DoCalls, NextEvent, Dispatched, Pending, AllMade, CreatedBefore;
    var past := history + [NextEvent(s)];
    var n := |history| + 1;
    assert past[..n] == past;
    forall loopback ensures Accounted(calls, h, Turn(s, history, h), past, loopback) {
      assert Accounted(calls, h, s, history, loopback);
      TurnAccounted(calls, h, s, history, loopback);
    }
    DispatchedPending(s, history, false);
    CallsMake(Dispatched(s), h(past), false);
    PastMade(calls, h, history, past, n, false);
    CreatedNext(calls, h, past, n);
  }

  lemma CreatedNext(calls: seq<Call>, h: Handlers, history: seq<Handled>, k: nat)
    requires k <= |history|
    ensures CreatedBefore(calls, h, history, k + 1) == CreatedBefore(calls, h, history, k) + Creates(CallsAt(calls, h, history, k))
  {
  }

  lemma MadeNext(calls: seq<Call>, h: Handlers, history: seq<Handled>, k: nat, loopback: bool)
    requires k <= |history|
    ensures AllMade(calls, h, history, k + 1, loopback) ==
      AllMade(calls, h, history, k, loopback) +
        Made(CallsAt(calls, h, history, k), TimeAt(history, k), CreatedBefore(calls, h, history, k), loopback)
  {
  }

  lemma TurnAccounted(calls: seq<Call>, h: Handlers, s: State, history: seq<Handled>, loopback: bool)
    requires CanRun(s) && Accounted(calls, h, s, history, loopback)
    requires s.next == CreatedBefore(calls, h, history, |history| + 1)
    ensures Accounted(calls, h, Turn(s, history, h), history + [NextEvent(s)], loopback)
  {
    hide Line, Made, Creates, DoCalls, NextEvent, Dispatched, Pending, AllMade, CreatedBefore;
    var past := history + [NextEvent(s)];
    var n := |history| + 1;
    assert past[..n] == past;
    DispatchedPending(s, history, loopback);
    CallsMake(Dispatched(s), h(past), loopback);
    PastMade(calls, h, history, past, n, loopback);
    MadeNext(calls, h, past, n, loopback);
    var line, before, after := Line(past, loopback), Pending(Dispatched(s), loopback), Pending(Turn(s, history, h), loopback);
    assert multiset(line + after) == multiset(line) + multiset(after);
    assert multiset(line + before) == multiset(line) + multiset(before);
  }

  lemma {:induction false} RunConserved(calls: seq<Call>, h: Handlers, s: State, history: seq<Handled>, fuel: nat)
    requires Conserved(calls, h, s, history)
    ensures var r := RunState(s, history, h, fuel); Conserved(calls, h, r.0, r.1)
    decreases fuel
  {
    hide Conserved, DoCalls, Dispatched, NextEvent;
    if fuel > 0 && CanRun(s) {
      TurnConserved(calls, h, s, history);
      RunConserved(calls, h, Turn(s, history, h), history + [NextEvent(s)], fuel - 1);
    }
  }

  /** The run of the simulator, after at most fuel events. */
  ghost function RunOf(calls: seq<Call>, h: Handlers, fuel: nat): (r: (State, seq<Handled>)) {
    RunState(ResetState(Started(calls)), [], h, fuel)
  }

  /** In every run, of each kind: what has been asked for is exactly what has been handled and what
      waits. Nothing is lost and nothing is handled twice. */
  lemma NothingLost(calls: seq<Call>, h: Handlers, fuel: nat, loopback: bool)
    ensures var r := RunOf(calls, h, fuel);
      multiset(Line(r.1, loopback) + Pending(r.0, loopback)) == multiset(AllMade(calls, h, r.1, |r.1| + 1, loopback))
  {
    hide Conserved, RunState, Started;
    StartConserved(calls, h);
    RunConserved(calls, h, ResetState(Started(calls)), [], fuel);
    ConservedMeans(calls, h, RunOf(calls, h, fuel).0, RunOf(calls, h, fuel).1, loopback);
  }

  lemma ConservedMeans(calls: seq<Call>, h: Handlers, s: State, history: seq<Handled>, loopback: bool)
    requires Conserved(calls, h, s, history)
    ensures multiset(Line(history, loopback) + Pending(s, loopback)) == multiset(AllMade(calls, h, history, |history| + 1, loopback))
  {
    assert Accounted(calls, h, s, history, loopback);
  }

  // ----- one call and its event -----

  ghost predicate Serials(q: seq<BaseEvent>, lo: nat, hi: nat) {
    && (forall i :: 0 <= i < |q| ==> lo <= q[i].serial < hi)
    && (forall i, j :: 0 <= i < j < |q| ==> q[i].serial < q[j].serial)
  }

  lemma SerialsConcat(a: seq<BaseEvent>, b: seq<BaseEvent>, lo: nat, mid: nat, hi: nat)
    requires Serials(a, lo, mid) && Serials(b, mid, hi) && lo <= mid <= hi
    ensures Serials(a + b, lo, hi)
  {
  }

  lemma {:induction false} MadeSerials(calls: seq<Call>, time: int, next: nat, loopback: bool)
    ensures Serials(Made(calls, time, next, loopback), next, next + Creates(calls))
  {
    if calls != [] {
      var init, c := calls[..|calls| - 1], calls[|calls| - 1];
      MadeSerials(init, time, next, loopback);
    }
  }

  lemma {:induction false} AllMadeSerials(calls: seq<Call>, h: Handlers, history: seq<Handled>, k: nat, loopback: bool)
    requires k <= |history| + 1
    ensures Serials(AllMade(calls, h, history, k, loopback), 0, CreatedBefore(calls, h, history, k))
    decreases k
  {
    hide Made, Creates, Serials;
    if k == 0 {
      NoSerials();
    } else {
      AllMadeSerials(calls, h, history, k - 1, loopback);
      MadeSerials(CallsAt(calls, h, history, k - 1), TimeAt(history, k - 1), CreatedBefore(calls, h, history, k - 1), loopback);
      SerialsConcat(AllMade(calls, h, history, k - 1, loopback),
        Made(CallsAt(calls, h, history, k - 1), TimeAt(history, k - 1), CreatedBefore(calls, h, history, k - 1), loopback),
        0, CreatedBefore(calls, h, history, k - 1), CreatedBefore(calls, h, history, k));
    }
  }

  lemma NoSerials()
    ensures Serials([], 0, 0)
  {
  }

  /** The event of the i-th call of turn k. */
  ghost function Asked(calls: seq<Call>, h: Handlers, history: seq<Handled>, k: nat, i: nat): BaseEvent
    requires k <= |history| && i < |CallsAt(calls, h, history, k)| && !CallsAt(calls, h, history, k)[i].Halt?
  {
    EventOf(CallsAt(calls, h, history, k)[i], TimeAt(history, k),
      CreatedBefore(calls, h, history, k) + Creates(CallsAt(calls, h, history, k)[..i]))
  }

  lemma {:induction false} MadeHas(calls: seq<Call>, time: int, next: nat, i: nat)
    requires i < |calls| && !calls[i].Halt?
    ensures EventOf(calls[i], time, next + Creates(calls[..i])) in Made(calls, time, next, calls[i].Loopback?)
    decreases |calls|
  {
    var init := calls[..|calls| - 1];
    if i < |init| {
      assert init[..i] == calls[..i];
      MadeHas(init, time, next, i);
    } else {
      assert calls[..i] == init;
    }
  }

  lemma {:induction false} AllMadeHas(calls: seq<Call>, h: Handlers, history: seq<Handled>, n: nat, k: nat, i: nat)
    requires k < n <= |history| + 1 && i < |CallsAt(calls, h, history, k)| && !CallsAt(calls, h, history, k)[i].Halt?
    ensures Asked(calls, h, history, k, i) in AllMade(calls, h, history, n, CallsAt(calls, h, history, k)[i].Loopback?)
    decreases n
  {
    hide Made, Creates, EventOf;
    if k == n - 1 {
      MadeHas(CallsAt(calls, h, history, k), TimeAt(history, k), CreatedBefore(calls, h, history, k), i);
    } else {
      AllMadeHas(calls, h, history, n - 1, k, i);
    }
  }

  lemma OnlyOnce(q: seq<BaseEvent>, lo: nat, hi: nat, e: BaseEvent)
    requires Serials(q, lo, hi) && e in q
    ensures multiset(q)[e] == 1
  {
    var k :| 0 <= k < |q| && q[k] == e;
    assert q == q[..k] + [e] + q[k + 1..];
    assert e !in q[..k] && e !in q[k + 1..];
  }

  /** In every run, the event of every call that a handler has made is there exactly once: handled, or
      still waiting. */
  lemma AskedOnce(calls: seq<Call>, h: Handlers, fuel: nat, k: nat, i: nat)
    requires var history := RunOf(calls, h, fuel).1;
      k <= |history| && i < |CallsAt(calls, h, history, k)| && !CallsAt(calls, h, history, k)[i].Halt?
    ensures var r := RunOf(calls, h, fuel); var loopback := CallsAt(calls, h, r.1, k)[i].Loopback?;
      multiset(Line(r.1, loopback) + Pending(r.0, loopback))[Asked(calls, h, r.1, k, i)] == 1
  {
    hide RunOf, Line, Pending, Asked, AllMade, Serials;
    var history := RunOf(calls, h, fuel).1;
    var loopback := CallsAt(calls, h, history, k)[i].Loopback?;
    var n := |history| + 1;
    NothingLost(calls, h, fuel, loopback);
    AllMadeHas(calls, h, history, n, k, i);
    AllMadeSerials(calls, h, history, n, loopback);
    OnlyOnce(AllMade(calls, h, history, n, loopback), 0, CreatedBefore(calls, h, history, n), Asked(calls, h, history, k, i));
  }

  // ----- the turns of a run -----

  lemma {:induction false} RunExtends(s: State, history: seq<Handled>, h: Handlers, fuel: nat)
    ensures history <= RunState(s, history, h, fuel).1
    decreases fuel
  {
    hide DoCalls, Dispatched, NextEvent, CanRun;
    if fuel > 0 && CanRun(s) {
      var past := history + [NextEvent(s)];
      RunExtends(DoCalls(Dispatched(s), h(past)), past, h, fuel - 1);
    }
  }

  lemma {:induction false} RunPrefix(s: State, history: seq<Handled>, h: Handlers, fuel: nat, m: nat)
    requires |history| + m <= |RunState(s, history, h, fuel).1|
    ensures history <= RunState(s, history, h, fuel).1
    ensures RunState(s, history, h, m).1 == RunState(s, history, h, fuel).1[..|history| + m]
    ensures |history| + m < |RunState(s, history, h, fuel).1| ==>
      var t := RunState(s, history, h, m).0;
      CanRun(t) && NextEvent(t) == RunState(s, history, h, fuel).1[|history| + m]
    decreases fuel
  {
    hide DoCalls, Dispatched, NextEvent, CanRun;
    if fuel > 0 && CanRun(s) {
      var past := history + [NextEvent(s)];
      var t := DoCalls(Dispatched(s), h(past));
      if m > 0 {
        RunPrefix(t, past, h, fuel - 1, m - 1);
      } else {
        RunExtends(t, past, h, fuel - 1);
      }
    }
  }

  /** The state before turn j of a run. */
  ghost function Before(calls: seq<Call>, h: Handlers, j: nat): State {
    RunOf(calls, h, j).0
  }

  /** At turn j of a run, the event recorded is the next one, it is handled with the clock at its time,
      and what came before is the run up to j. */
  lemma TurnOf(calls: seq<Call>, h: Handlers, fuel: nat, j: nat)
    requires j < |RunOf(calls, h, fuel).1|
    ensures var t := Before(calls, h, j); var history := RunOf(calls, h, fuel).1;
      CanRun(t) && NextEvent(t) == history[j] && Dispatched(t).clock == history[j].event.time &&
      RunOf(calls, h, j).1 == history[..j]
  {
    hide Started;
    RunPrefix(ResetState(Started(calls)), [], h, fuel, j);
    hide RunState;
  }

  lemma {:induction false} LineHas(history: seq<Handled>, loopback: bool, e: BaseEvent)
    ensures e in Line(history, loopback) <==> Handled(e, loopback) in history
  {
    if history != [] {
      var init, x := history[..|history| - 1], history[|history| - 1];
      LineHas(init, loopback, e);
      assert history == init + [x];
    }
  }

  /** An event of turn k is handled after turn k. */
  lemma NotBefore(calls: seq<Call>, h: Handlers, fuel: nat, k: nat, i: nat, j: nat)
    requires var history := RunOf(calls, h, fuel).1;
      k <= |history| && i < |CallsAt(calls, h, history, k)| && !CallsAt(calls, h, history, k)[i].Halt? && j < |history|
    ensures var history := RunOf(calls, h, fuel).1;
      history[j] == Handled(Asked(calls, h, history, k, i), CallsAt(calls, h, history, k)[i].Loopback?) ==> j >= k
  {
    hide RunOf, Line, Pending, AllMade, Serials, Creates;
    var history := RunOf(calls, h, fuel).1;
    var c := CallsAt(calls, h, history, k)[i];
    var e := Asked(calls, h, history, k, i);
    if j < k && history[j] == Handled(e, c.Loopback?) {
      EarlierSerials(calls, h, fuel, k, j, e, c.Loopback?);
      assert false;
    }
  }

  /** What has been handled before turn k was created before turn k. */
  lemma EarlierSerials(calls: seq<Call>, h: Handlers, fuel: nat, k: nat, j: nat, e: BaseEvent, loopback: bool)
    requires j < k <= |RunOf(calls, h, fuel).1| && RunOf(calls, h, fuel).1[j] == Handled(e, loopback)
    ensures e.serial < CreatedBefore(calls, h, RunOf(calls, h, fuel).1, k)
  {
    hide RunOf, Line, Pending, AllMade, Creates;
    var history := RunOf(calls, h, fuel).1;
    TurnOf(calls, h, fuel, k - 1);
    TurnOf(calls, h, fuel, j);
    var before := history[..j];
    assert before <= history;
    // the event waits before turn j, so it was asked for by then
    NothingLost(calls, h, j, loopback);
    WaitingNext(Before(calls, h, j), loopback, e);
    assert RunOf(calls, h, j).1 == before;
    InMultiset(Line(before, loopback), Pending(Before(calls, h, j), loopback), AllMade(calls, h, before, j + 1, loopback), e);
    PastMade(calls, h, before, history, j + 1, loopback);
    AllMadeSerials(calls, h, history, j + 1, loopback);
    CreatedMore(calls, h, history, j + 1, k);
  }

  lemma WaitingNext(t: State, loopback: bool, e: BaseEvent)
    requires CanRun(t) && NextEvent(t) == Handled(e, loopback)
    ensures e in Pending(t, loopback)
  {
  }

  lemma InMultiset(a: seq<BaseEvent>, b: seq<BaseEvent>, c: seq<BaseEvent>, e: BaseEvent)
    requires multiset(a + b) == multiset(c)
    ensures e in b ==> e in c
    ensures e in c && e !in a ==> e in b
  {
    assert e in a + b <==> e in multiset(a + b);
    assert e in c <==> e in multiset(c);
  }

  lemma {:induction false} CreatedMore(calls: seq<Call>, h: Handlers, history: seq<Handled>, j: nat, k: nat)
    requires j <= k <= |history| + 1
    ensures CreatedBefore(calls, h, history, j) <= CreatedBefore(calls, h, history, k)
    decreases k
  {
    hide Creates;
    if j < k {
      CreatedMore(calls, h, history, j, k - 1);
    }
  }

  /** A run that ends with nothing of its kind waiting has handled every event that was asked for once,
      at its turn or later, with the clock at exactly the event's time. */
  lemma AskedIsHandled(calls: seq<Call>, h: Handlers, fuel: nat, k: nat, i: nat) returns (j: nat)
    requires var history := RunOf(calls, h, fuel).1;
      k <= |history| && i < |CallsAt(calls, h, history, k)| && !CallsAt(calls, h, history, k)[i].Halt?
    requires var r := RunOf(calls, h, fuel); Pending(r.0, CallsAt(calls, h, r.1, k)[i].Loopback?) == []
    ensures var history := RunOf(calls, h, fuel).1; var c := CallsAt(calls, h, history, k)[i];
      k <= j < |history| && history[j] == Handled(Asked(calls, h, history, k, i), c.Loopback?) &&
      history[j].event.target == c.target &&
      CanRun(Before(calls, h, j)) && Dispatched(Before(calls, h, j)).clock == history[j].event.time &&
      history[j].event.time == TimeAt(history, k) + (if c.Schedule? then c.delay else 0) &&
      (forall l :: 0 <= l < |history| && history[l] == history[j] ==> l == j)
  {
    hide RunOf, Line, Creates, CreatedBefore, Before, Pending;
    var r := RunOf(calls, h, fuel);
    var c, e := CallsAt(calls, h, r.1, k)[i], Asked(calls, h, r.1, k, i);
    AskedOnce(calls, h, fuel, k, i);
    assert Line(r.1, c.Loopback?) + [] == Line(r.1, c.Loopback?);
    LineHas(r.1, c.Loopback?, e);
    j :| 0 <= j < |r.1| && r.1[j] == Handled(e, c.Loopback?);
    NotBefore(calls, h, fuel, k, i, j);
    TurnOf(calls, h, fuel, j);
    HandledOnce(r.1, c.Loopback?, e, j);
  }

  lemma {:induction false} LineCount(history: seq<Handled>, loopback: bool, e: BaseEvent)
    ensures multiset(Line(history, loopback))[e] == multiset(history)[Handled(e, loopback)]
  {
    if history == [] {
      assert Line(history, loopback) == [];
    } else {
      var init, x := history[..|history| - 1], history[|history| - 1];
      LineCount(init, loopback, e);
      assert history == init + [x];
      hide Line;
      LineAppend(init, x, loopback);
    }
  }

  lemma HandledOnce(history: seq<Handled>, loopback: bool, e: BaseEvent, j: nat)
    requires j < |history| && history[j] == Handled(e, loopback) && multiset(Line(history, loopback))[e] == 1
    ensures forall l :: 0 <= l < |history| && history[l] == history[j] ==> l == j
  {
    LineCount(history, loopback, e);
    forall l | 0 <= l < |history| && l != j ensures history[l] != history[j] {
      var a, b := if l < j then l else j, if l < j then j else l;
      TwiceHandled(history, a, b);
    }
  }

  lemma TwiceHandled(history: seq<Handled>, a: nat, b: nat)
    requires a < b < |history|
    ensures history[a] == history[b] ==> multiset(history)[history[a]] >= 2
  {
    assert history == history[..a] + [history[a]] + history[a + 1..b] + [history[b]] + history[b + 1..];
  }

  /** NetSimulator.Send in a run that delivers everything: a message sent at time t with delay d is
      handled once, with the clock at t + d + 1. */
  lemma SentIsHandled(calls: seq<Call>, h: Handlers, fuel: nat, k: nat, i: nat, target: int, delay: nat) returns (j: nat)
    requires var history := RunOf(calls, h, fuel).1;
      k <= |history| && i < |CallsAt(calls, h, history, k)| && CallsAt(calls, h, history, k)[i] == SendCall(target, delay)
    requires RunOf(calls, h, fuel).0.queue == []
    ensures var history := RunOf(calls, h, fuel).1;
      k <= j < |history| && !history[j].loopback && history[j].event.target == target &&
      CanRun(Before(calls, h, j)) && Dispatched(Before(calls, h, j)).clock == TimeAt(history, k) + delay + 1
  {
    hide RunOf, Creates, CreatedBefore, Before, Dispatched;
    j := AskedIsHandled(calls, h, fuel, k, i);
  }

  /** A loopback is handled before the clock can move: from the call until it is handled, every event
      handled is a loopback, and the clock stays at the time of the call. */
  lemma LoopbacksFirst(calls: seq<Call>, h: Handlers, fuel: nat, k: nat, i: nat, m: nat)
    requires var history := RunOf(calls, h, fuel).1;
      k <= m < |history| && i < |CallsAt(calls, h, history, k)| && CallsAt(calls, h, history, k)[i].Loopback?
    requires var history := RunOf(calls, h, fuel).1; Handled(Asked(calls, h, history, k, i), true) !in history[..m]
    ensures var history := RunOf(calls, h, fuel).1;
      history[m].loopback && history[m].event.time == TimeAt(history, k)
  {
    hide RunOf, Line, Creates, CreatedBefore, AllMade;
    var history := RunOf(calls, h, fuel).1;
    var e := Asked(calls, h, history, k, i);
    TurnOf(calls, h, fuel, m);
    var before, t := history[..m], Before(calls, h, m);
    NothingLost(calls, h, m, true);
    AllMadeHas(calls, h, history, m + 1, k, i);
    PastMade(calls, h, before, history, m + 1, true);
    LineHas(before, true, e);
    InMultiset(Line(before, true), Pending(t, true), AllMade(calls, h, before, m + 1, true), e);
    RunInv(calls, h, m);
    hide Inv;
    LoopsNow(t, before, e);
  }

  lemma RunInv(calls: seq<Call>, h: Handlers, fuel: nat)
    ensures Inv(RunOf(calls, h, fuel).0, RunOf(calls, h, fuel).1)
  {
    hide Inv, RunState, Started;
    StartedAtZero(calls);
    RunKeeps(ResetState(Started(calls)), [], h, fuel);
  }

  lemma LoopsNow(t: State, history: seq<Handled>, e: BaseEvent)
    requires Inv(t, history) && e in t.loops && CanRun(t)
    ensures NextEvent(t).loopback && NextEvent(t).event.time == t.clock == e.time
  {
    hide InDueOrder, Line, NeverBack;
    assert t.loops[0] in t.loops;
  }

  // ----- the bound on the number of events -----

  /** Once a run has come to its end, a larger bound changes nothing: the result is that of the
      unbounded loop. */
  lemma {:induction false} EnoughFuel(s: State, history: seq<Handled>, h: Handlers, fuel: nat, more: nat)
    requires !CanRun(RunState(s, history, h, fuel).0) && fuel <= more
    ensures RunState(s, history, h, more) == RunState(s, history, h, fuel)
    decreases fuel
  {
    hide DoCalls, Dispatched, NextEvent, CanRun;
    if fuel > 0 && CanRun(s) {
      var past := history + [NextEvent(s)];
      EnoughFuel(DoCalls(Dispatched(s), h(past)), past, h, fuel - 1, more - 1);
    }
  }

  /** A run that handles fewer events than it may has come to its end. */
  lemma {:induction false} EndReached(s: State, history: seq<Handled>, h: Handlers, fuel: nat)
    ensures var r := RunState(s, history, h, fuel);
      |history| <= |r.1| <= |history| + fuel && (|r.1| < |history| + fuel ==> !CanRun(r.0))
    decreases fuel
  {
    hide DoCalls, Dispatched, NextEvent, CanRun;
    if fuel > 0 && CanRun(s) {
      var past := history + [NextEvent(s)];
      EndReached(DoCalls(Dispatched(s), h(past)), past, h, fuel - 1);
    }
  }

  // ----- how a run ends, and its largest time -----

  lemma {:induction false} CallsHalt(s: State, calls: seq<Call>)
    ensures DoCalls(s, calls).halted <==> s.halted || Halt in calls
    ensures DoCalls(s, calls).maxClock == s.maxClock
    decreases |calls|
  {
    if calls != [] {
      var init, c := calls[..|calls| - 1], calls[|calls| - 1];
      CallsHalt(s, init);
      assert calls == init + [c];
      hide DoCalls;
    }
  }

  lemma {:induction false} RunHalts(s: State, history: seq<Handled>, h: Handlers, fuel: nat)
    requires !s.halted
    ensures var r := RunState(s, history, h, fuel);
      history <= r.1 && |r.1| <= |history| + fuel &&
      (forall k :: |history| < k < |r.1| ==> Halt !in h(r.1[..k])) &&
      (|r.1| < |history| + fuel ==> (|r.1| > |history| && Halt in h(r.1)) || (r.0.queue == [] && r.0.loops == []))
    decreases fuel
  {
    if fuel > 0 && CanRun(s) {
      var past := history + [NextEvent(s)];
      var t := DoCalls(Dispatched(s), h(past));
      assert !Dispatched(s).halted;
      CallsHalt(Dispatched(s), h(past));
      hide DoCalls, Dispatched, NextEvent;
      var r := RunState(t, past, h, fuel - 1);
      if t.halted {
        assert r == (t, past);
      } else {
        RunHalts(t, past, h, fuel - 1);
        assert past == r.1[..|past|];
      }
    }
  }

  /** A run goes on until a handler halts it or nothing waits: no handler but the last one called Halt, and
      with fewer events than the bound the last one did or both queues are empty. What was called before the
      start does not halt it. */
  lemma RunEnds(calls: seq<Call>, h: Handlers, fuel: nat)
    ensures var r := RunOf(calls, h, fuel);
      (forall k :: 0 < k < |r.1| ==> Halt !in CallsAt(calls, h, r.1, k)) &&
      (|r.1| < fuel ==> (r.1 != [] && Halt in h(r.1)) || (r.0.queue == [] && r.0.loops == []))
  {
    hide RunState, Started;
    RunHalts(ResetState(Started(calls)), [], h, fuel);
  }

  /** m is the largest time in the history, or 0 when there is none. */
  ghost predicate IsLargest(m: int, history: seq<Handled>) {
    && (forall i :: 0 <= i < |history| ==> history[i].event.time <= m)
    && if history == [] then m == 0 else exists i :: 0 <= i < |history| && history[i].event.time == m
  }

  lemma LargestNext(m: int, history: seq<Handled>, e: Handled, n: int)
    requires IsLargest(m, history) && e.event.time >= 0
    requires n == if e.event.time > m then e.event.time else m
    ensures IsLargest(n, history + [e])
  {
    var next := history + [e];
    assert next[|history|] == e;
    if history != [] {
      var i :| 0 <= i < |history| && history[i].event.time == m;
      assert next[i] == history[i];
    }
  }

  lemma {:induction false} MaxClockKept(s: State, history: seq<Handled>, h: Handlers, fuel: nat)
    requires Inv(s, history) && s.clock >= 0 && IsLargest(s.maxClock, history)
    ensures var r := RunState(s, history, h, fuel); IsLargest(r.0.maxClock, r.1)
    decreases fuel
  {
    if fuel > 0 && CanRun(s) {
      var e := NextEvent(s);
      var past, d := history + [e], Dispatched(s);
      assert d.maxClock == if e.event.time > s.maxClock then e.event.time else s.maxClock;
      DispatchKeeps(s, history);
      LargestNext(s.maxClock, history, e, d.maxClock);
      hide Inv, DoCalls, Dispatched, NextEvent, IsLargest;
      CallsKeep(d, past, h(past));
      CallsHalt(d, h(past));
      ClockKept(d, h(past));
      MaxClockKept(DoCalls(d, h(past)), past, h, fuel - 1);
    }
  }

  /** After every run MaxClock is the largest time at which something was handled. */
  lemma MaxClockIs(calls: seq<Call>, h: Handlers, fuel: nat)
    ensures IsLargest(RunOf(calls, h, fuel).0.maxClock, RunOf(calls, h, fuel).1)
  {
    var zero := State(0, 0, false, [], [], 0);
    StartedAtZero(calls);
    CallsHalt(zero, calls);
    assert IsLargest(0, []);
    hide RunState, Inv, DoCalls;
    MaxClockKept(ResetState(Started(calls)), [], h, fuel);
  }
}
