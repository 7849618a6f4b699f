/** Running a simulator again. */
module SchedulerReruns {
  // Run sets the clock back to 0 while events of the run before may wait at later times.

  import opened EventQueues
  import opened EventSimulators
  import opened SchedulerRuns

  /** The calls without those that halt the run. */
  function NoHalts(calls: seq<Call>): seq<Call> {
    if calls == [] then []
    else
      var c := calls[|calls| - 1];
      NoHalts(calls[..|calls| - 1]) + (if c.Halt? then [] else [c])
  }

  /** Two runs as one: what is asked for between them is asked for by the last handler of the first run, or
      before the start when that run handles nothing, and nobody halts the first run. */
  function MergedCalls(calls: seq<Call>, first: seq<Handled>, between: seq<Call>): seq<Call> {
    if first == [] then calls + between else calls
  }

  function MergedHandlers(h: Handlers, first: seq<Handled>, between: seq<Call>, again: Handlers): Handlers {
    (past: seq<Handled>) =>
      if |past| < |first| then h(past)
      else if |past| == |first| then NoHalts(h(past)) + NoHalts(between)
      else again(past[|first|..])
  }

  // ----- calls -----

  lemma {:induction false} CallsConcat(s: State, a: seq<Call>, b: seq<Call>)
    ensures DoCalls(s, a + b) == DoCalls(DoCalls(s, a), b)
    decreases |b|
  {
    hide DoCall;
    if b == [] {
      assert a + b == a;
    } else {
      var n := |b| - 1;
      CallsConcat(s, a, b[..n]);
      assert (a + b)[..|a| + n] == a + b[..n] && (a + b)[|a| + n] == b[n];
    }
  }

  /** Without halting, the same but for the flag. */
  lemma {:induction false} NeverHalted(s: State, calls: seq<Call>, x: bool)
    ensures DoCalls(s.(halted := x), NoHalts(calls)) == DoCalls(s, calls).(halted := x)
    decreases |calls|
  {
    if calls != [] {
      var n := |calls| - 1;
      var init := NoHalts(calls[..n]);
      NeverHalted(s, calls[..n], x);
      if !calls[n].Halt? {
        assert (init + [calls[n]])[..|init|] == init;
        hide DoCalls;
        CallsConcat(s.(halted := x), init, [calls[n]]);
        OneCall(DoCalls(s.(halted := x), init), calls[n]);
        LastOfCalls(s, calls);
        HaltFlagApart(DoCalls(s, calls[..n]), calls[n], x);
      } else {
        assert init + [] == init;
        HaltOnly(s, calls, x);
      }
    }
  }

  lemma OneCall(s: State, c: Call)
    ensures DoCalls(s, [c]) == DoCall(s, c)
  {
    assert [c][..0] == [];
  }

  lemma LastOfCalls(s: State, calls: seq<Call>)
    requires calls != []
    ensures DoCalls(s, calls) == DoCall(DoCalls(s, calls[..|calls| - 1]), calls[|calls| - 1])
  {
  }

  lemma HaltFlagApart(s: State, c: Call, x: bool)
    requires !c.Halt?
    ensures DoCall(s.(halted := x), c) == DoCall(s, c).(halted := x)
  {
    hide Enqueued;
  }

  lemma HaltOnly(s: State, calls: seq<Call>, x: bool)
    requires calls != [] && calls[|calls| - 1].Halt?
    ensures DoCalls(s, calls).(halted := x) == DoCalls(s, calls[..|calls| - 1]).(halted := x)
  {
  }

  // ----- runs -----

  lemma {:induction false} RunSplit(s: State, history: seq<Handled>, h: Handlers, a: nat, b: nat)
    ensures var r := RunState(s, history, h, a); RunState(s, history, h, a + b) == RunState(r.0, r.1, h, b)
    decreases a
  {
    hide DoCalls, Dispatched, NextEvent, CanRun;
    if a > 0 && CanRun(s) {
      var past := history + [NextEvent(s)];
      RunSplit(DoCalls(Dispatched(s), h(past)), past, h, a - 1, b);
    }
  }

  /** What is handled longer ago than the past of a handler does not matter to it. */
  lemma {:induction false} Later(s: State, first: seq<Handled>, history: seq<Handled>, h: Handlers, again: Handlers, fuel: nat)
    requires forall x: seq<Handled> :: x != [] ==> h(first + x) == again(x)
    ensures var r := RunState(s, history, again, fuel); RunState(s, first + history, h, fuel) == (r.0, first + r.1)
    decreases fuel
  {
    hide DoCalls, Dispatched, NextEvent, CanRun;
    if fuel > 0 && CanRun(s) {
      var past := history + [NextEvent(s)];
      assert first + history + [NextEvent(s)] == first + past;
      Later(DoCalls(Dispatched(s), again(past)), first, past, h, again, fuel - 1);
    }
  }

  /** Handlers that agree on short histories make the same short runs. */
  lemma {:induction false} Agreeing(s: State, history: seq<Handled>, h: Handlers, h': Handlers, fuel: nat)
    requires forall x: seq<Handled> :: |x| <= |history| + fuel ==> h(x) == h'(x)
    ensures RunState(s, history, h, fuel) == RunState(s, history, h', fuel)
    decreases fuel
  {
    hide DoCalls, Dispatched, NextEvent, CanRun;
    if fuel > 0 && CanRun(s) {
      var past := history + [NextEvent(s)];
      Agreeing(DoCalls(Dispatched(s), h(past)), past, h, h', fuel - 1);
    }
  }

  lemma NothingHandled(s: State, history: seq<Handled>, h: Handlers, fuel: nat)
    requires |RunState(s, history, h, fuel).1| == |history|
    ensures RunState(s, history, h, fuel) == (s, history)
  {
    hide DoCalls, Dispatched, NextEvent, CanRun;
    if fuel > 0 && CanRun(s) {
      var past := history + [NextEvent(s)];
      RunExtends(DoCalls(Dispatched(s), h(past)), past, h, fuel - 1);
    }
  }

  /** The first event that is handled sets the clock, whatever it was. */
  lemma ClockForgotten(s: State, time: int, history: seq<Handled>, h: Handlers, fuel: nat)
    requires fuel > 0 && CanRun(s)
    ensures RunState(s.(clock := time), history, h, fuel) == RunState(s, history, h, fuel)
  {
    assert Dispatched(s.(clock := time)) == Dispatched(s);
  }

  /** The last turn of a run that handles something. */
  lemma LastTurn(s: State, h: Handlers, fuel: nat)
    requires RunState(s, [], h, fuel).1 != []
    ensures var g := RunState(s, [], h, fuel).1; var a := RunState(s, [], h, |g| - 1);
      CanRun(a.0) && a.1 == g[..|g| - 1] && g == a.1 + [NextEvent(a.0)] && !Dispatched(a.0).halted &&
      RunState(s, [], h, fuel) == (DoCalls(Dispatched(a.0), h(g)), g)
  {
    var r := RunState(s, [], h, fuel);
    var n := |r.1| - 1;
    EndReached(s, [], h, fuel);
    RunPrefix(s, [], h, fuel, n);
    RunSplit(s, [], h, n, fuel - n);
    var a := RunState(s, [], h, n);
    hide RunState;
    TurnThenNothing(a.0, a.1, h, fuel - n);
  }

  lemma TurnThenNothing(s: State, history: seq<Handled>, h: Handlers, fuel: nat)
    requires |RunState(s, history, h, fuel).1| == |history| + 1
    ensures CanRun(s) && !Dispatched(s).halted
    ensures var past := history + [NextEvent(s)]; RunState(s, history, h, fuel) == (DoCalls(Dispatched(s), h(past)), past)
  {
    assert fuel > 0 && CanRun(s);
    assert !Dispatched(s).halted;
    hide DoCalls, Dispatched, NextEvent, CanRun;
    var past := history + [NextEvent(s)];
    NothingHandled(DoCalls(Dispatched(s), h(past)), past, h, fuel - 1);
  }

  /** The merged run up to the end of the first one: the same state, with the flag down and with what is
      asked for in between. */
  lemma FirstPart(calls: seq<Call>, h: Handlers, fuel: nat, between: seq<Call>, again: Handlers)
    requires RunOf(calls, h, fuel).1 != []
    ensures var r := RunOf(calls, h, fuel); var merged := MergedHandlers(h, r.1, between, again);
      RunOf(calls, merged, |r.1|) == (DoCalls(r.0, between).(halted := false), r.1)
  {
    hide DoCalls, Dispatched, NextEvent, CanRun, Started;
    var s, r := ResetState(Started(calls)), RunOf(calls, h, fuel);
    var g, merged := r.1, MergedHandlers(h, r.1, between, again);
    var n := |g| - 1;
    LastTurn(s, h, fuel);
    var a := RunState(s, [], h, n);
    Agreeing(s, [], h, merged, n);
    RunSplit(s, [], merged, n, 1);
    hide RunState;
    OneTurn(a.0, a.1, merged);
    var d := Dispatched(a.0);
    CallsConcat(d, NoHalts(h(g)), NoHalts(between));
    NeverHalted(d, h(g), false);
    assert d.(halted := false) == d;
    NeverHalted(DoCalls(d, h(g)), between, false);
  }

  lemma OneTurn(s: State, history: seq<Handled>, h: Handlers)
    requires CanRun(s)
    ensures var past := history + [NextEvent(s)]; RunState(s, history, h, 1) == (DoCalls(Dispatched(s), h(past)), past)
  {
    hide DoCalls, Dispatched, NextEvent, CanRun;
  }

  /** A second run continues the first: together they are one run of a new simulator, in which nobody
      halts after the first part. That is so exactly when the second run has something to handle, or the
      clock was at 0 anyhow; otherwise it only puts the clock back. */
  lemma RunsMerge(calls: seq<Call>, h: Handlers, fuel: nat, between: seq<Call>, again: Handlers, more: nat)
    ensures var r := RunOf(calls, h, fuel); var s := DoCalls(r.0, between); var t := RunState(ResetState(s), [], again, more);
      RunOf(MergedCalls(calls, r.1, between), MergedHandlers(h, r.1, between, again), |r.1| + more) == (t.0, r.1 + t.1)
      <==> (more > 0 && (s.loops != [] || s.queue != [])) || s.clock == 0
  {
    hide DoCalls, Dispatched, NextEvent, Started, RunState;
    var r := RunOf(calls, h, fuel);
    var merged := MergedHandlers(h, r.1, between, again);
    if r.1 == [] {
      MergeAtStart(calls, h, fuel, between, again, more);
      var t := RunState(ResetState(DoCalls(r.0, between)), [], again, more);
      assert r.1 + t.1 == t.1;
    } else {
      FirstPart(calls, h, fuel, between, again);
      var b := DoCalls(r.0, between).(halted := false);
      RunSplit(ResetState(Started(calls)), [], merged, |r.1|, more);
      forall x: seq<Handled> | x != [] ensures merged(r.1 + x) == again(x) {
        assert (r.1 + x)[|r.1|..] == x;
      }
      Later(b, r.1, [], merged, again, more);
      assert r.1 + [] == r.1;
      SecondPart(b, again, more);
      assert ResetState(DoCalls(r.0, between)) == b.(clock := 0);
      SamePrefix(r.1, RunState(b, [], again, more).1, RunState(b.(clock := 0), [], again, more).1);
    }
  }

  lemma SamePrefix(a: seq<Handled>, b: seq<Handled>, c: seq<Handled>)
    ensures a + b == a + c <==> b == c
  {
    if a + b == a + c {
      assert b == (a + b)[|a|..] && c == (a + c)[|a|..];
    }
  }

  /** The run from where the first one stopped, and the run with the clock set back. */
  lemma SecondPart(b: State, again: Handlers, more: nat)
    requires !b.halted
    ensures RunState(b, [], again, more) == RunState(b.(clock := 0), [], again, more)
      <==> (more > 0 && (b.loops != [] || b.queue != [])) || b.clock == 0
  {
    if more > 0 && CanRun(b) {
      ClockForgotten(b, 0, [], again, more);
    } else {
      assert RunState(b, [], again, more) == (b, []);
      assert RunState(b.(clock := 0), [], again, more) == (b.(clock := 0), []);
    }
  }

  /** A first run that handles nothing leaves what was asked for before it. */
  lemma MergeAtStart(calls: seq<Call>, h: Handlers, fuel: nat, between: seq<Call>, again: Handlers, more: nat)
    requires RunOf(calls, h, fuel).1 == []
    ensures var s := DoCalls(RunOf(calls, h, fuel).0, between);
      RunOf(calls + between, MergedHandlers(h, [], between, again), more) == RunState(ResetState(s), [], again, more) && s.clock == 0
  {
    hide DoCalls, Dispatched, NextEvent;
    var zero := State(0, 0, false, [], [], 0);
    var start := ResetState(Started(calls));
    NothingHandled(start, [], h, fuel);
    CallsConcat(zero, calls, between);
    StartedAtZero(calls);
    ClockKept(start, between);
    ClockKept(Started(calls), between);
    NeverHalted(Started(calls), between, false);
    NeverHalted(start, between, false);
    assert start == Started(calls).(halted := false);
    var merged := MergedHandlers(h, [], between, again);
    forall x: seq<Handled> | x != [] ensures merged([] + x) == again(x) {
      assert [] + x == x && x[0..] == x;
    }
    var s := DoCalls(start, between);
    Later(ResetState(s), [], [], merged, again, more);
    var t := RunState(ResetState(s), [], again, more);
    assert [] + t.1 == t.1;
  }

  /** Times never went back, both kinds were handled in due order, and what waits is not late. */
  ghost predicate Orderly(s: State, history: seq<Handled>) {
    && NeverBack(history, s.clock) && InDueOrder(Line(history, false)) && InDueOrder(Line(history, true))
    && (forall e :: e in s.queue ==> e.time >= s.clock) && (forall e :: e in s.loops ==> e.time == s.clock)
  }

  lemma RunIsOrderly(calls: seq<Call>, h: Handlers, fuel: nat)
    ensures Orderly(RunOf(calls, h, fuel).0, RunOf(calls, h, fuel).1)
  {
    hide RunState, Started, Line, NeverBack, AllMade, InDueOrder;
    EveryRunInOrder(calls, h, fuel);
  }

  /** So the order holds for what both runs have handled, one after the other. */
  lemma SecondRunInOrder(calls: seq<Call>, h: Handlers, fuel: nat, between: seq<Call>, again: Handlers, more: nat)
    requires var s := DoCalls(RunOf(calls, h, fuel).0, between); (more > 0 && (s.loops != [] || s.queue != [])) || s.clock == 0
    ensures var r := RunOf(calls, h, fuel); var t := RunState(ResetState(DoCalls(r.0, between)), [], again, more);
      Orderly(t.0, r.1 + t.1)
  {
    hide RunState, DoCalls, Started, Orderly, MergedHandlers, MergedCalls;
    RunsMerge(calls, h, fuel, between, again, more);
    var r := RunOf(calls, h, fuel);
    RunIsOrderly(MergedCalls(calls, r.1, between), MergedHandlers(h, r.1, between, again), |r.1| + more);
  }
}
