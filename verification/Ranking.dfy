/** What the topological ranking of a circuit promises, and what its worklist keeps. */
module Ranking {
  import opened WireOps
  import opened Graphs
  import opened Collapsing

  ghost predicate HasPredecessor(g: Graph, t: Gate) {
    exists i: nat :: i < Arity(t.kind) && InAddr(t, i) in g.bwd
  }

  /** A gate with no predecessor has two inputs. */
  ghost predicate WideSources(g: Graph) {
    forall t :: t in g.gates ==> HasPredecessor(g, t) || Arity(t.kind) >= 2
  }

  /** The order lists every gate once, the rank of a gate is its position, and every gate comes
      after its predecessors. */
  ghost predicate RankedOrder(g: Graph, order: seq<Gate>, ranks: map<Gate, nat>) {
    && (forall t :: t in order <==> t in g.gates)
    && SortedSoFar(g, order, ranks)
  }

  ghost predicate SortedSoFar(g: Graph, order: seq<Gate>, ranks: map<Gate, nat>) {
    && ranks.Keys <= g.gates
    && (forall t :: t in order <==> t in ranks)
    && (forall i :: 0 <= i < |order| ==> order[i] in ranks && ranks[order[i]] == i)
    && (forall b :: b in g.bwd && b.gate in ranks ==> PredecessorRanked(g, ranks, b))
  }

  ghost predicate PredecessorRanked(g: Graph, ranks: map<Gate, nat>, b: InAddr)
    requires b in g.bwd && b.gate in ranks
  {
    g.bwd[b].gate in ranks && ranks[g.bwd[b].gate] < ranks[b.gate]
  }

  lemma RankedOrderIsTopological(g: Graph, order: seq<Gate>, ranks: map<Gate, nat>)
    requires WF(g) && RankedOrder(g, order, ranks)
    ensures forall i, j :: 0 <= i < j < |order| ==> order[i] != order[j]
    ensures forall b :: b in g.bwd ==>
      exists i, j :: 0 <= i < j < |order| && order[i] == g.bwd[b].gate && order[j] == b.gate
  {
    hide WellFormedKind, Unconnected, HasOut;
    forall b | b in g.bwd
      ensures exists i, j :: 0 <= i < j < |order| && order[i] == g.bwd[b].gate && order[j] == b.gate
    {
      assert HasIn(g, b);
      assert PredecessorRanked(g, ranks, b);
      var j :| 0 <= j < |order| && order[j] == b.gate;
      var i :| 0 <= i < |order| && order[i] == g.bwd[b].gate;
    }
  }

  // ----- the worklist -----

  /** Gates with an unconnected input other than the one that is skipped. */
  ghost predicate StartsAt(g: Graph, skipped: set<InAddr>, t: Gate) {
    exists b :: b in g.ins && b !in skipped && b.gate == t
  }

  ghost predicate Follows(g: Graph, ranks: map<Gate, nat>, t: Gate) {
    exists b :: b in g.bwd && b.gate == t && g.bwd[b].gate in ranks
  }

  /** The worklist holds every unranked gate that can be reached so far. */
  ghost predicate Queued(g: Graph, skipped: set<InAddr>, deque: seq<Gate>, ranks: map<Gate, nat>) {
    && (forall t :: t in deque ==> t in g.gates)
    && (forall t :: t in g.gates && t !in ranks && (StartsAt(g, skipped, t) || Follows(g, ranks, t)) ==> t in deque)
  }

  /** Ranked gates at the front, plus the rank of the first unranked one. */
  ghost function Work(deque: seq<Gate>, ranks: map<Gate, nat>, rank: Gate -> nat): nat {
    if deque == [] then 0
    else if deque[0] in ranks then 1 + Work(deque[1..], ranks, rank)
    else rank(deque[0])
  }

  /** When the worklist is empty every gate is ranked. */
  lemma {:induction false} AllRanked(g: Graph, skipped: set<InAddr>, ranks: map<Gate, nat>, rank: Gate -> nat, t: Gate)
    requires WF(g) && Ranked(g, rank) && WideSources(g) && Queued(g, skipped, [], ranks) && |skipped| <= 1
    requires t in g.gates
    ensures t in ranks
    decreases rank(t)
  {
    hide WellFormedKind;
    if HasPredecessor(g, t) {
      var i: nat :| i < Arity(t.kind) && InAddr(t, i) in g.bwd;
      var s := g.bwd[InAddr(t, i)].gate;
      assert HasOut(g, g.bwd[InAddr(t, i)]) by { assert g.bwd[InAddr(t, i)] in g.fwd; }
      AllRanked(g, skipped, ranks, rank, s);
      assert Follows(g, ranks, t);
    } else {
      var a, b := InAddr(t, 0), InAddr(t, 1);
      assert a in g.ins && b in g.ins;
      assert a !in skipped || b !in skipped by {
        if a in skipped && b in skipped {
          assert |{a, b}| <= |skipped| by { Subset({a, b}, skipped); }
        }
      }
      assert StartsAt(g, skipped, t);
    }
  }

  lemma {:induction false} Subset<T>(a: set<T>, b: set<T>)
    requires a <= b
    ensures |a| <= |b|
  {
    assert b == a + (b - a);
  }

  /** A gate whose predecessors are all ranked can be ranked next. */
  lemma RankNext(g: Graph, order: seq<Gate>, ranks: map<Gate, nat>, t: Gate)
    requires WF(g) && SortedSoFar(g, order, ranks) && t in g.gates && t !in ranks
    requires forall b :: b in g.bwd && b.gate == t ==> g.bwd[b].gate in ranks
    ensures SortedSoFar(g, order + [t], ranks[t := |order|])
  {
    var next, r := order + [t], ranks[t := |order|];
    hide WF;
    forall s ensures s in next <==> s in r { }
    forall i | 0 <= i < |next| ensures next[i] in r && r[next[i]] == i {
      if i < |order| { assert order[i] in ranks; }
    }
    forall b | b in g.bwd && b.gate in r ensures PredecessorRanked(g, r, b) {
      if b.gate == t {
        RankBelow(order, ranks, g.bwd[b].gate, g);
      } else {
        assert PredecessorRanked(g, ranks, b);
      }
    }
  }

  lemma RankBelow(order: seq<Gate>, ranks: map<Gate, nat>, s: Gate, g: Graph)
    requires SortedSoFar(g, order, ranks) && s in ranks
    ensures ranks[s] < |order|
  {
    hide PredecessorRanked;
    var i :| 0 <= i < |order| && order[i] == s;
  }

  /** Taking a ranked gate off the front loses nothing. */
  lemma QueuedDrop(g: Graph, skipped: set<InAddr>, deque: seq<Gate>, ranks: map<Gate, nat>, rank: Gate -> nat)
    requires Queued(g, skipped, deque, ranks) && deque != [] && deque[0] in ranks
    ensures Queued(g, skipped, deque[1..], ranks)
    ensures Work(deque[1..], ranks, rank) < Work(deque, ranks, rank)
  {
    hide StartsAt, Follows;
    forall t | t in deque && t != deque[0] ensures t in deque[1..] {
      var i :| 0 <= i < |deque| && deque[i] == t;
      assert deque[1..][i - 1] == t;
    }
    forall t | t in deque[1..] ensures t in deque { }
  }

  lemma QueuedMore(g: Graph, skipped: set<InAddr>, deque: seq<Gate>, ranks: map<Gate, nat>, more: seq<Gate>)
    requires Queued(g, skipped, deque, ranks) && forall t :: t in more ==> t in g.gates
    ensures Queued(g, skipped, more + deque, ranks)
  {
    hide StartsAt, Follows;
  }

  /** Ranking the front gate and queueing its successors keeps the worklist complete. */
  lemma QueuedNext(g: Graph, skipped: set<InAddr>, deque: seq<Gate>, ranks: map<Gate, nat>, t: Gate, rank: nat, more: seq<Gate>)
    requires Queued(g, skipped, deque, ranks) && deque != [] && deque[0] == t
    requires forall s :: s in more <==> exists b :: b in g.bwd && b.gate == s && g.bwd[b].gate == t
    requires forall s :: s in more ==> s in g.gates
    ensures Queued(g, skipped, deque[1..] + more, ranks[t := rank])
  {
    var r := ranks[t := rank];
    hide StartsAt;
    forall s | s in g.gates && s !in r && (StartsAt(g, skipped, s) || Follows(g, r, s)) ensures s in deque[1..] + more {
      if StartsAt(g, skipped, s) || Follows(g, ranks, s) {
        var i :| 0 <= i < |deque| && deque[i] == s;
        assert deque[1..][i - 1] == s;
      } else {
        var b :| b in g.bwd && b.gate == s && g.bwd[b].gate in r;
        assert g.bwd[b].gate == t;
      }
    }
  }

  /** Unranked predecessors put at the front come before what was there. */
  lemma WorkDecreases(g: Graph, deque: seq<Gate>, ranks: map<Gate, nat>, rank: Gate -> nat, more: seq<Gate>)
    requires deque != [] && deque[0] !in ranks && more != []
    requires Ranked(g, rank) && more[0] !in ranks
    requires exists b :: b in g.bwd && b.gate == deque[0] && g.bwd[b].gate == more[0]
    ensures Work(more + deque, ranks, rank) < Work(deque, ranks, rank)
  {
  }

  // ----- what the two port loops collect -----

  /** Unranked predecessors of t through its first k inputs, as AddFirst leaves them. */
  function NewPredecessors(g: Graph, ranks: map<Gate, nat>, t: Gate, k: nat): seq<Gate> {
    if k == 0 then []
    else
      var b := InAddr(t, k - 1);
      var rest := NewPredecessors(g, ranks, t, k - 1);
      if b in g.bwd && g.bwd[b].gate !in ranks then [g.bwd[b].gate] + rest else rest
  }

  function Successors(g: Graph, t: Gate, k: nat): seq<Gate> {
    if k == 0 then []
    else
      var a := OutAddr(t, k - 1);
      var rest := Successors(g, t, k - 1);
      if a in g.fwd then rest + [g.fwd[a].gate] else rest
  }

  lemma {:induction false} NewPredecessorsAre(g: Graph, ranks: map<Gate, nat>, t: Gate, k: nat)
    requires WF(g) && k <= Arity(t.kind)
    ensures forall s :: s in NewPredecessors(g, ranks, t, k) <==>
      exists i: nat :: i < k && InAddr(t, i) in g.bwd && g.bwd[InAddr(t, i)].gate == s && s !in ranks
    ensures forall s :: s in NewPredecessors(g, ranks, t, k) ==> s in g.gates
  {
    hide WellFormedKind, Unconnected;
    if k > 0 {
      NewPredecessorsAre(g, ranks, t, k - 1);
      var b := InAddr(t, k - 1);
      if b in g.bwd {
        assert HasOut(g, g.bwd[b]) by { assert g.bwd[b] in g.fwd; }
      }
    }
  }

  lemma {:induction false} SuccessorsAre(g: Graph, t: Gate, k: nat)
    requires WF(g) && k <= Arity(t.kind)
    ensures forall s :: s in Successors(g, t, k) <==>
      exists b :: b in g.bwd && b.gate == s && g.bwd[b].gate == t && g.bwd[b].port < k
    ensures forall s :: s in Successors(g, t, k) ==> s in g.gates
  {
    hide WellFormedKind, Unconnected;
    if k > 0 {
      SuccessorsAre(g, t, k - 1);
      var a := OutAddr(t, k - 1);
      if a in g.fwd {
        assert HasIn(g, g.fwd[a]) && g.bwd[g.fwd[a]] == a;
      }
      forall s ensures s in Successors(g, t, k) <==>
        exists b :: b in g.bwd && b.gate == s && g.bwd[b].gate == t && g.bwd[b].port < k
      {
        if b :| b in g.bwd && b.gate == s && g.bwd[b].gate == t && g.bwd[b].port < k {
          if g.bwd[b].port == k - 1 {
            assert g.bwd[b] == a && g.fwd[a] == b;
          }
        }
      }
    }
  }

  /** Nothing to queue means that every predecessor is ranked. */
  lemma NoNewPredecessors(g: Graph, ranks: map<Gate, nat>, t: Gate)
    requires WF(g) && NewPredecessors(g, ranks, t, Arity(t.kind)) == []
    ensures forall b :: b in g.bwd && b.gate == t ==> g.bwd[b].gate in ranks
  {
    hide WF;
    forall b | b in g.bwd && b.gate == t ensures g.bwd[b].gate in ranks {
      PredecessorListed(g, ranks, b);
    }
  }

  lemma PredecessorListed(g: Graph, ranks: map<Gate, nat>, b: InAddr)
    requires WF(g) && b in g.bwd
    ensures g.bwd[b].gate in ranks || g.bwd[b].gate in NewPredecessors(g, ranks, b.gate, Arity(b.gate.kind))
  {
    NewPredecessorsAre(g, ranks, b.gate, Arity(b.gate.kind));
    assert HasIn(g, b);
    assert b == InAddr(b.gate, b.port);
    hide WF, NewPredecessors;
  }

  lemma PortCases(g: Graph, b: InAddr, a: OutAddr)
    requires WF(g)
    ensures HasIn(g, b) ==> (b in g.ins <==> b !in g.bwd)
    ensures HasOut(g, a) ==> (a in g.outs <==> a !in g.fwd)
  {
    hide HasIn, HasOut, Inverse, WellFormedKind;
  }

  // ----- one round of the ranking loop -----

  lemma NothingRanked(g: Graph)
    ensures SortedSoFar(g, [], map[])
  {
  }

  lemma QueuedGate(g: Graph, skipped: set<InAddr>, deque: seq<Gate>, ranks: map<Gate, nat>)
    requires Queued(g, skipped, deque, ranks) && deque != []
    ensures deque[0] in g.gates
  {
  }

  lemma PredecessorsQueued(g: Graph, skipped: set<InAddr>, deque: seq<Gate>, ranks: map<Gate, nat>, rank: Gate -> nat)
    requires WF(g) && Ranked(g, rank) && Queued(g, skipped, deque, ranks) && deque != [] && deque[0] !in ranks
    ensures var more := NewPredecessors(g, ranks, deque[0], Arity(deque[0].kind));
      Queued(g, skipped, more + deque, ranks) &&
      (more != [] ==> Work(more + deque, ranks, rank) < Work(deque, ranks, rank)) &&
      (more == [] ==> more + deque == deque)
  {
    hide WF, Ranked, Queued, NewPredecessors, Work;
    var t := deque[0];
    var more := NewPredecessors(g, ranks, t, Arity(t.kind));
    QueuedGate(g, skipped, deque, ranks);
    NewPredecessorsAre(g, ranks, t, Arity(t.kind));
    QueuedMore(g, skipped, deque, ranks, more);
    if more != [] {
      assert more[0] in more;
      WorkDecreases(g, deque, ranks, rank, more);
    }
  }

  lemma NextRanked(g: Graph, order: seq<Gate>, ranks: map<Gate, nat>, t: Gate, gates: set<Gate>)
    requires WF(g) && SortedSoFar(g, order, ranks) && t in g.gates && t !in ranks && gates == g.gates
    requires NewPredecessors(g, ranks, t, Arity(t.kind)) == []
    ensures SortedSoFar(g, order + [t], ranks[t := |order|])
    ensures |gates - ranks[t := |order|].Keys| < |gates - ranks.Keys|
  {
    NoNewPredecessors(g, ranks, t);
    RankNext(g, order, ranks, t);
    hide *;
    FewerUnranked(gates, ranks, t, |order|);
  }

  lemma FewerUnranked(gates: set<Gate>, ranks: map<Gate, nat>, t: Gate, rank: nat)
    requires t in gates && t !in ranks
    ensures |gates - ranks[t := rank].Keys| < |gates - ranks.Keys|
  {
    assert gates - ranks[t := rank].Keys == (gates - ranks.Keys) - {t};
  }

  lemma QueueAfter(g: Graph, skipped: set<InAddr>, deque: seq<Gate>, ranks: map<Gate, nat>, rank: nat)
    requires WF(g) && Queued(g, skipped, deque, ranks) && deque != []
    ensures var t := deque[0];
      Queued(g, skipped, deque[1..] + Successors(g, t, Arity(t.kind)), ranks[t := rank])
  {
    var t := deque[0];
    SuccessorsAre(g, t, Arity(t.kind));
    forall b | b in g.bwd && g.bwd[b].gate == t ensures g.bwd[b].port < Arity(t.kind) {
      assert HasOut(g, g.bwd[b]) by { assert g.bwd[b] in g.fwd; }
    }
    hide WF, Queued, Successors;
    QueuedNext(g, skipped, deque, ranks, t, rank, Successors(g, t, Arity(t.kind)));
  }

  lemma EverythingRanked(g: Graph, skipped: set<InAddr>, order: seq<Gate>, ranks: map<Gate, nat>, rank: Gate -> nat)
    requires WF(g) && Ranked(g, rank) && WideSources(g) && Queued(g, skipped, [], ranks) && |skipped| <= 1
    requires SortedSoFar(g, order, ranks)
    ensures RankedOrder(g, order, ranks)
  {
    hide WF, WideSources, Ranked, Queued;
    forall t | t in g.gates ensures t in ranks {
      AllRanked(g, skipped, ranks, rank, t);
    }
  }

  /** What the ranking loop keeps. */
  ghost predicate RankingState(g: Graph, skipped: set<InAddr>, deque: seq<Gate>, order: seq<Gate>, ranks: map<Gate, nat>) {
    SortedSoFar(g, order, ranks) && Queued(g, skipped, deque, ranks)
  }

  ghost function Unranked(g: Graph, ranks: map<Gate, nat>): nat {
    |g.gates - ranks.Keys|
  }

  lemma StartState(g: Graph, skipped: set<InAddr>, deque: seq<Gate>)
    requires Queued(g, skipped, deque, map[])
    ensures RankingState(g, skipped, deque, [], map[])
  {
    NothingRanked(g);
  }

  lemma DropState(g: Graph, skipped: set<InAddr>, deque: seq<Gate>, order: seq<Gate>, ranks: map<Gate, nat>, rank: Gate -> nat)
    requires RankingState(g, skipped, deque, order, ranks) && deque != [] && deque[0] in ranks
    ensures RankingState(g, skipped, deque[1..], order, ranks)
    ensures Work(deque[1..], ranks, rank) < Work(deque, ranks, rank)
  {
    hide SortedSoFar, Queued;
    QueuedDrop(g, skipped, deque, ranks, rank);
  }

  lemma QueueState(g: Graph, skipped: set<InAddr>, deque: seq<Gate>, order: seq<Gate>, ranks: map<Gate, nat>, rank: Gate -> nat)
    requires WF(g) && Ranked(g, rank) && RankingState(g, skipped, deque, order, ranks) && deque != [] && deque[0] !in ranks
    ensures deque[0] in g.gates
    ensures var more := NewPredecessors(g, ranks, deque[0], Arity(deque[0].kind));
      RankingState(g, skipped, more + deque, order, ranks) &&
      (more != [] ==> Work(more + deque, ranks, rank) < Work(deque, ranks, rank)) &&
      (more == [] ==> more + deque == deque)
  {
    QueuedGate(g, skipped, deque, ranks);
    hide WF, SortedSoFar, Queued, NewPredecessors, Ranked;
    PredecessorsQueued(g, skipped, deque, ranks, rank);
  }

  lemma RankState(g: Graph, skipped: set<InAddr>, deque: seq<Gate>, order: seq<Gate>, ranks: map<Gate, nat>)
    requires WF(g) && RankingState(g, skipped, deque, order, ranks) && deque != []
    requires deque[0] in g.gates && deque[0] !in ranks
    requires NewPredecessors(g, ranks, deque[0], Arity(deque[0].kind)) == []
    ensures var t := deque[0];
      RankingState(g, skipped, deque[1..] + Successors(g, t, Arity(t.kind)), order + [t], ranks[t := |order|]) &&
      Unranked(g, ranks[t := |order|]) < Unranked(g, ranks)
  {
    hide WF, SortedSoFar, Queued, NewPredecessors, Successors;
    NextRanked(g, order, ranks, deque[0], g.gates);
    QueueAfter(g, skipped, deque, ranks, |order|);
  }

  lemma EndState(g: Graph, skipped: set<InAddr>, order: seq<Gate>, ranks: map<Gate, nat>, rank: Gate -> nat)
    requires WF(g) && Ranked(g, rank) && WideSources(g) && |skipped| <= 1 && RankingState(g, skipped, [], order, ranks)
    ensures RankedOrder(g, order, ranks)
  {
    hide WF, Ranked, WideSources, SortedSoFar, Queued;
    EverythingRanked(g, skipped, order, ranks, rank);
  }
}
