/** The discrete-event scheduler: a clock, a queue of scheduled events and a queue of loopbacks. */
module EventSimulators {
  import opened HeapTheory
  import opened EventQueues

  /** What a handler may ask for while it runs. */
  datatype Call = Schedule(target: int, delay: nat) | Loopback(target: int) | Halt

  datatype Handled = Handled(event: BaseEvent, loopback: bool)

  /** A handler may do anything that depends on what has been handled so far. */
  type Handlers = seq<Handled> -> seq<Call>

  datatype State = State(clock: int, maxClock: int, halted: bool, queue: seq<BaseEvent>, loops: seq<BaseEvent>, next: nat)

  function DoCall(s: State, c: Call): State {
    match c
    case Schedule(target, delay) =>
      s.(queue := Enqueued(s.queue, BaseEvent(s.clock + delay, target, s.next)), next := s.next + 1)
    case Loopback(target) =>
      s.(loops := Enqueued(s.loops, BaseEvent(s.clock, target, s.next)), next := s.next + 1)
    case Halt => s.(halted := true)
  }

  function DoCalls(s: State, calls: seq<Call>): State {
    if calls == [] then s else DoCall(DoCalls(s, calls[..|calls| - 1]), calls[|calls| - 1])
  }

  predicate CanRun(s: State) {
    !s.halted && (s.loops != [] || s.queue != [])
  }

  /** The event that is dispatched next: loopbacks come first. */
  function NextEvent(s: State): Handled
    requires CanRun(s)
  {
    if s.loops != [] then Handled(s.loops[0], true) else Handled(s.queue[0], false)
  }

  /** The state when the handler of the next event starts. */
  function Dispatched(s: State): State
    requires CanRun(s)
  {
    var e := NextEvent(s).event;
    var t := if s.loops != [] then s.(loops := s.loops[1..]) else s.(queue := s.queue[1..]);
    t.(clock := e.time, maxClock := if e.time > s.maxClock then e.time else s.maxClock)
  }

  /** The state and the history after at most fuel events. */
  function RunState(s: State, history: seq<Handled>, h: Handlers, fuel: nat): (r: (State, seq<Handled>))
    decreases fuel
  {
    if fuel == 0 || !CanRun(s) then (s, history)
    else
      var past := history + [NextEvent(s)];
      RunState(DoCalls(Dispatched(s), h(past)), past, h, fuel - 1)
  }

  function ResetState(s: State): State {
    s.(clock := 0, halted := false)
  }

  class EventSimulator {
    var clock: int
    var maxClock: int
    var halted: bool
    const queue: EventQueue
    const loopbackQueue: EventQueue
    /** Tells event objects apart: how many have been created. */
    var created: nat

    ghost function Queues(): set<object>
      reads this, queue, queue.pQueue, queue.pQueue.Impl, loopbackQueue, loopbackQueue.pQueue, loopbackQueue.pQueue.Impl
    {
      queue.Repr() + loopbackQueue.Repr()
    }

    ghost predicate Valid()
      reads this, queue, queue.pQueue, queue.pQueue.Impl, queue.pQueue.Impl.data
      reads loopbackQueue, loopbackQueue.pQueue, loopbackQueue.pQueue.Impl, loopbackQueue.pQueue.Impl.data
    {
      && queue.Valid() && loopbackQueue.Valid()
      && queue.Repr() !! loopbackQueue.Repr() && this !in Queues()
    }

    ghost function Value(): State
      reads this, queue, queue.pQueue, loopbackQueue, loopbackQueue.pQueue
    {
      State(clock, maxClock, halted, queue.Pending(), loopbackQueue.Pending(), created)
    }

    constructor ()
      ensures Valid() && fresh(Queues())
      ensures Value() == State(0, 0, false, [], [], 0)
    {
      hide StableBinaryHeap.Valid, EventQueue.Valid, EventQueue.Pending;
      clock, maxClock, halted, created := 0, 0, false, 0;
      queue := new EventQueue();
      loopbackQueue := new EventQueue();
    }

    method ScheduleEvent(target: int, delay: nat)
      requires Valid()
      modifies this, Queues()
      ensures Valid() && fresh(Queues() - old(Queues()))
      ensures Value() == DoCall(old(Value()), Schedule(target, delay))
    {
      hide EventQueue.Valid, EventQueue.Pending, Enqueued;
      queue.Enqueue(BaseEvent(clock + delay, target, created));
      created := created + 1;
    }

    method LoopbackEvent(target: int)
      requires Valid()
      modifies this, Queues()
      ensures Valid() && fresh(Queues() - old(Queues()))
      ensures Value() == DoCall(old(Value()), Loopback(target))
    {
      hide EventQueue.Valid, EventQueue.Pending, Enqueued;
      loopbackQueue.Enqueue(BaseEvent(clock, target, created));
      created := created + 1;
    }

    method Make(call: Call)
      requires Valid()
      modifies this, Queues()
      ensures Valid() && fresh(Queues() - old(Queues()))
      ensures Value() == DoCall(old(Value()), call)
    {
      match call
      case Schedule(target, delay) => ScheduleEvent(target, delay);
      case Loopback(target) => LoopbackEvent(target);
      case Halt => halted := true;
    }

    /** Runs a handler: it makes its calls one after the other. */
    method Handle(calls: seq<Call>)
      requires Valid()
      modifies this, Queues()
      ensures Valid() && fresh(Queues() - old(Queues()))
      ensures Value() == DoCalls(old(Value()), calls)
    {
      hide DoCall, EventQueue.Valid, EventQueue.Pending, Enqueued;
      for i := 0 to |calls|
        invariant Valid() && fresh(Queues() - old(Queues()))
        invariant Value() == DoCalls(old(Value()), calls[..i])
      {
        Make(calls[i]);
        assert calls[..i + 1][..i] == calls[..i];
      }
      assert calls[..|calls|] == calls;
    }

    method Next() returns (e: Handled)
      requires Valid() && CanRun(Value())
      modifies this, Queues()
      ensures Valid() && Queues() == old(Queues())
      ensures e == NextEvent(old(Value())) && Value() == Dispatched(old(Value()))
    {
      hide EventQueue.Valid, EventQueue.Pending;
      var waiting := loopbackQueue.Count();
      if waiting > 0 {
        var next := loopbackQueue.Dequeue();
        e := Handled(next.value, true);
      } else {
        var next := queue.Dequeue();
        e := Handled(next.value, false);
      }
      clock := e.event.time;
      if clock > maxClock {
        maxClock := clock;
      }
    }

    method HasWork() returns (r: bool)
      requires Valid()
      ensures r <==> CanRun(Value())
    {
      var waiting := loopbackQueue.Count();
      var scheduled := queue.Count();
      r := !halted && (waiting > 0 || scheduled > 0);
    }

    method Reset()
      requires Valid()
      modifies this
      ensures Valid() && Queues() == old(Queues()) && Value() == ResetState(old(Value()))
    {
      halted, clock := false, 0;
    }

    /** One turn of the loop. */
    method Turn(h: Handlers, past: seq<Handled>) returns (history: seq<Handled>, more: bool)
      requires Valid() && CanRun(Value())
      modifies this, Queues()
      ensures Valid() && fresh(Queues() - old(Queues())) && (more <==> CanRun(Value()))
      ensures history == past + [NextEvent(old(Value()))]
      ensures Value() == DoCalls(Dispatched(old(Value())), h(history))
    {
      hide EventQueue.Valid, EventQueue.Pending, CanRun, NextEvent, Dispatched, DoCalls;
      var e := Next();
      history := past + [e];
      Handle(h(history));
      more := HasWork();
    }

    /** Run, stopped after at most fuel events; with fewer events it has come to its end. */
    method Run(h: Handlers, fuel: nat) returns (history: seq<Handled>)
      requires Valid()
      modifies this, Queues()
      ensures Valid()
      ensures (Value(), history) == RunState(ResetState(old(Value())), [], h, fuel)
      ensures |history| < fuel ==> !CanRun(Value())
    {
      hide EventQueue.Valid, EventQueue.Pending, CanRun, NextEvent, Dispatched, DoCalls, RunState;
      Reset();
      history := [];
      var left := fuel;
      ghost var start := Value();
      var more := HasWork();
      while left > 0 && more
        invariant Valid() && fresh(Queues() - old(Queues())) && (more <==> CanRun(Value()))
        invariant RunState(Value(), history, h, left) == RunState(start, [], h, fuel)
        invariant |history| + left == fuel
        decreases left
      {
        RunNext(Value(), history, h, left);
        history, more := Turn(h, history);
        left := left - 1;
      }
      RunStops(Value(), history, h, left);
    }
  }

  lemma RunNext(s: State, history: seq<Handled>, h: Handlers, fuel: nat)
    requires fuel > 0 && CanRun(s)
    ensures var past := history + [NextEvent(s)];
      RunState(s, history, h, fuel) == RunState(DoCalls(Dispatched(s), h(past)), past, h, fuel - 1)
  {
    hide CanRun, NextEvent, Dispatched, DoCalls;
  }

  lemma RunStops(s: State, history: seq<Handled>, h: Handlers, fuel: nat)
    requires fuel == 0 || !CanRun(s)
    ensures RunState(s, history, h, fuel) == (s, history)
  {
  }
}
