/** Circuit graphs that are updated in place. */
module Circuits {
  import opened Options
  import opened WireOps
  import opened Graphs
  import opened Collapsing
  import opened Ranking
  import opened Cloning

  /** The sequence lists the set, each element once. */
  ghost predicate Enumerates<T(!new)>(s: seq<T>, elements: set<T>) {
    && (forall x :: x in s <==> x in elements)
    && (forall i, j :: 0 <= i < j < |s| ==> s[i] != s[j])
  }

  lemma EnumeratesAppend<T(!new)>(s: seq<T>, elements: set<T>, x: T)
    requires Enumerates(s, elements) && x !in elements
    ensures Enumerates(s + [x], elements + {x})
  {
    var t := s + [x];
    forall i, j | 0 <= i < j < |t| ensures t[i] != t[j] {
      if j == |s| {
        assert t[i] == s[i] && s[i] in s;
      }
    }
    forall y ensures y in t <==> y in elements + {x} { }
  }

  lemma ConnectAppend(g: Graph, cs: seq<Connection>, c: Connection)
    ensures Connect(g, cs + [c]) == AddConnection(Connect(g, cs), c)
  {
    assert (cs + [c])[..|cs|] == cs;
  }

  class Circuit {
    var Gates: set<Gate>
    var InputAddrs: set<InAddr>
    var OutputAddrs: set<OutAddr>
    var OutputCounterparties: map<OutAddr, InAddr>
    var InputCounterparties: map<InAddr, OutAddr>
    /** TopologicalRank of the gates that have one. */
    var Ranks: map<Gate, nat>
    var Order: Option<seq<Gate>>

    function Value(): Graph
      reads this
    {
      Graph(Gates, InputAddrs, OutputAddrs, OutputCounterparties, InputCounterparties)
    }

    constructor ()
      ensures Value() == EMPTY && Ranks == map[] && Order == None
    {
      Gates, InputAddrs, OutputAddrs := {}, {}, {};
      OutputCounterparties, InputCounterparties := map[], map[];
      Ranks, Order := map[], None;
    }

    method AddConnection(connection: Connection)
      modifies this
      ensures Value() == Graphs.AddConnection(old(Value()), connection)
      ensures Ranks == old(Ranks) && Order == None
    {
      if connection.from in OutputCounterparties {
        var oldTo := OutputCounterparties[connection.from];
        InputCounterparties := InputCounterparties - {oldTo};
        InputAddrs := InputAddrs + {oldTo};
      }
      if connection.to in InputCounterparties {
        var oldFrom := InputCounterparties[connection.to];
        OutputCounterparties := OutputCounterparties - {oldFrom};
        OutputAddrs := OutputAddrs + {oldFrom};
      }
      OutputCounterparties := OutputCounterparties[connection.from := connection.to];
      OutputAddrs := OutputAddrs - {connection.from};
      InputCounterparties := InputCounterparties[connection.to := connection.from];
      InputAddrs := InputAddrs - {connection.to};
      Order := None;
    }

    /** Adds the gate and makes the connections, in whatever order the set lists them. */
    method AddGate(gate: Gate, connections: set<Connection>) returns (ghost cs: seq<Connection>)
      modifies this
      ensures Enumerates(cs, connections)
      ensures Value() == Connect(Union(old(Value()), GateGraph(gate)), cs)
      ensures Ranks == old(Ranks) && Order == None
    {
      Gates := Gates + {gate};
      AddPorts(gate);
      assert Value() == Union(old(Value()), GateGraph(gate));
      cs := AddConnections(connections);
      Order := None;
    }

    method AddPorts(gate: Gate)
      modifies `InputAddrs, `OutputAddrs
      ensures InputAddrs == old(InputAddrs) + InSet(gate, Arity(gate.kind))
      ensures OutputAddrs == old(OutputAddrs) + OutSet(gate, Arity(gate.kind))
    {
      for i := 0 to Arity(gate.kind)
        invariant InputAddrs == old(InputAddrs) + InSet(gate, i)
        invariant OutputAddrs == old(OutputAddrs)
      {
        InputAddrs := InputAddrs + {InAddr(gate, i)};
        assert InSet(gate, i + 1) == InSet(gate, i) + {InAddr(gate, i)};
      }
      for i := 0 to Arity(gate.kind)
        invariant InputAddrs == old(InputAddrs) + InSet(gate, Arity(gate.kind))
        invariant OutputAddrs == old(OutputAddrs) + OutSet(gate, i)
      {
        OutputAddrs := OutputAddrs + {OutAddr(gate, i)};
        assert OutSet(gate, i + 1) == OutSet(gate, i) + {OutAddr(gate, i)};
      }
    }

    method AddConnections(connections: set<Connection>) returns (ghost cs: seq<Connection>)
      modifies this
      ensures Enumerates(cs, connections) && Value() == Connect(old(Value()), cs)
      ensures Ranks == old(Ranks)
    {
      hide Graphs.AddConnection;
      ghost var g := Value();
      cs := [];
      var rest := connections;
      while rest != {}
        invariant rest <= connections && Enumerates(cs, connections - rest)
        invariant Value() == Connect(g, cs) && Ranks == old(Ranks)
        decreases |rest|
      {
        var c :| c in rest;
        AddConnection(c);
        EnumeratesAppend(cs, connections - rest, c);
        ConnectAppend(g, cs, c);
        assert connections - (rest - {c}) == connections - rest + {c};
        rest := rest - {c};
        cs := cs + [c];
      }
      assert connections - rest == connections;
    }

    /** Takes over the gates and connections of c, then makes the joins in order. */
    method JoinWith(c: Circuit, joins: seq<Connection>)
      requires c != this && Gates !! c.Gates && Inverse(c.Value())
      modifies this
      ensures Value() == Connect(Union(old(Value()), old(c.Value())), joins)
      ensures Ranks == old(Ranks) + old(c.Ranks) && Order == None
    {
      ghost var u := Union(Value(), c.Value());
      Gates := Gates + c.Gates;
      InputAddrs := InputAddrs + c.InputAddrs;
      OutputAddrs := OutputAddrs + c.OutputAddrs;
      Ranks := Ranks + c.Ranks;
      CopyConnections(c);
      assert Value() == u;
      for i := 0 to |joins|
        invariant Value() == Connect(u, joins[..i])
        invariant Ranks == old(Ranks) + old(c.Ranks)
      {
        hide Graphs.AddConnection;
        AddConnection(joins[i]);
        ConnectAppend(u, joins[..i], joins[i]);
        assert joins[..i + 1] == joins[..i] + [joins[i]];
      }
      assert joins[..|joins|] == joins;
      Order := None;
    }

    method CopyConnections(c: Circuit)
      requires c != this && Inverse(c.Value())
      modifies `OutputCounterparties, `InputCounterparties
      ensures OutputCounterparties == old(OutputCounterparties) + c.OutputCounterparties
      ensures InputCounterparties == old(InputCounterparties) + c.InputCounterparties
    {
      ghost var g, h := Value(), c.Value();
      var rest := c.InputCounterparties.Keys;
      while rest != {}
        invariant rest <= h.bwd.Keys && c.Value() == h
        invariant Copied(g, h, rest, OutputCounterparties, InputCounterparties)
        decreases |rest|
      {
        hide Copied, Inverse;
        var inAddr :| inAddr in rest;
        var outAddr := c.InputCounterparties[inAddr];
        CopyOne(g, h, rest, OutputCounterparties, InputCounterparties, inAddr);
        InputCounterparties := InputCounterparties[inAddr := outAddr];
        OutputCounterparties := OutputCounterparties[outAddr := inAddr];
        rest := rest - {inAddr};
      }
      CopyAll(g, h, OutputCounterparties, InputCounterparties);
    }

    /** Removes a gate none of whose ports is connected. */
    method RemoveGate(gate: Gate)
      requires forall i :: 0 <= i < Arity(gate.kind) ==> InAddr(gate, i) !in InputCounterparties
      requires forall i :: 0 <= i < Arity(gate.kind) ==> OutAddr(gate, i) !in OutputCounterparties
      modifies `Gates, `InputAddrs, `OutputAddrs
      ensures Value() == Without(old(Value()), gate)
    {
      for i := 0 to Arity(gate.kind)
        invariant InputAddrs == old(InputAddrs) - InSet(gate, i)
        invariant OutputAddrs == old(OutputAddrs) && Gates == old(Gates)
      {
        InputAddrs := InputAddrs - {InAddr(gate, i)};
        assert InSet(gate, i + 1) == InSet(gate, i) + {InAddr(gate, i)};
      }
      for i := 0 to Arity(gate.kind)
        invariant InputAddrs == old(InputAddrs) - InSet(gate, Arity(gate.kind))
        invariant OutputAddrs == old(OutputAddrs) - OutSet(gate, i) && Gates == old(Gates)
      {
        OutputAddrs := OutputAddrs - {OutAddr(gate, i)};
        assert OutSet(gate, i + 1) == OutSet(gate, i) + {OutAddr(gate, i)};
      }
      Gates := Gates - {gate};
    }

    /** Takes every permutation gate out and connects what it connected directly. */
    method CollapsePermutationGates()
      requires WF(Value()) && Acyclic(Value())
      requires forall t :: t in Gates && IsPermutation(t) ==> FullyConnected(Value(), t)
      modifies this
      ensures WF(Value()) && Acyclic(Value()) && SameMeaning(old(Value()), Value())
      ensures forall t :: t in Gates <==> t in old(Gates) && !IsPermutation(t)
    {
      ghost var g := Value();
      ghost var rank: Gate -> nat :| Ranked(g, rank);
      SameMeaningSelf(g);
      var rest := Gates;
      hide WF, Ranked, SameMeaning, PermutationOf, Acyclic;
      CollapseStarts(g);
      while rest != {}
        invariant WF(Value()) && Ranked(Value(), rank) && SameMeaning(g, Value())
        invariant CollapsedExcept(g, Value(), rest)
        decreases |rest|
      {
        var gate :| gate in rest;
        ghost var h := Value();
        if IsPermutation(gate) {
          CollapseNext(g, h, rest, gate);
          BypassGate(gate, rank);
          BypassedMeaning(h, gate, rank, Value());
          SameMeaningThen(g, h, Value());
          BypassedRanked(h, gate, rank, Value());
        }
        CollapseRest(g, h, rest, gate, Value());
        rest := rest - {gate};
      }
      AcyclicIntro(Value(), rank);
    }

    /** Connects the counterparties of one wire of the permutation gate. */
    method JoinThrough(ghost g: Graph, gate: Gate, ghost rank: Gate -> nat, i: nat)
      requires WF(g) && Ranked(g, rank) && PermutationOf(g, gate) && i < Arity(gate.kind)
      requires Spliced(g, gate, i, Value())
      modifies this
      ensures Spliced(g, gate, i + 1, Value())
    {
      SpliceStep(g, gate, rank, i, Value());
      assert IsPermutation(gate);
      hide WF, Ranked, Spliced, Graphs.AddConnection, PermutationOf;
      var inputCounterparty := InputCounterparties[InAddr(gate, i)];
      var outputCounterparty := OutputCounterparties[OutAddr(gate, Permute(gate, i))];
      AddConnection(Connection(inputCounterparty, outputCounterparty));
    }

    method BypassGate(gate: Gate, ghost rank: Gate -> nat)
      requires WF(Value()) && Ranked(Value(), rank) && PermutationOf(Value(), gate)
      modifies this
      ensures Bypassed(old(Value()), gate, Value()) && WF(Value())
    {
      ghost var g := Value();
      SplicedNone(g, gate);
      hide WF, Ranked, Spliced, Bypassed, PermutationOf, Without;
      for i := 0 to Arity(gate.kind)
        invariant Spliced(g, gate, i, Value())
      {
        JoinThrough(g, gate, rank, i);
      }
      SplicedAll(g, gate, rank, Value());
      RemoveGate(gate);
      BypassedKeeps(g, gate, Value());
    }

    /** A circuit of new gates, with their identities from firstId on, connected in the same way. */
    method Clone(firstId: nat) returns (clone: Circuit, mapping: map<Gate, Gate>, nextId: nat)
      requires WF(Value())
      ensures fresh(clone) && Cloned(Value(), clone.Value(), mapping) && WF(clone.Value())
      ensures nextId >= firstId && Numbered(clone.Gates, firstId, nextId)
      ensures clone.Ranks == map[] && clone.Order == None
    {
      hide WF, Copies, CopiedConnections;
      clone := new Circuit();
      mapping, nextId := clone.CopyGatesOf(this, firstId);
      clone.CopyPortsOf(this, mapping);
      clone.CopyConnectionsOf(this, mapping);
      ClonedWF(Value(), clone.Value(), mapping);
    }

    method CopyGatesOf(c: Circuit, firstId: nat) returns (mapping: map<Gate, Gate>, nextId: nat)
      requires c != this && Gates == {}
      modifies `Gates
      ensures Copies(c.Gates, mapping) && Gates == CopyGates(mapping, c.Gates)
      ensures nextId >= firstId && Numbered(Gates, firstId, nextId)
    {
      hide Copies, CopyGates, Numbered, Split;
      mapping, nextId := map[], firstId;
      var rest := c.Gates;
      ghost var done: set<Gate> := {};
      NoCopies(firstId);
      SplitStart(c.Gates);
      while rest != {}
        invariant Split(c.Gates, done, rest) && nextId >= firstId
        invariant Copies(done, mapping) && Gates == CopyGates(mapping, done)
        invariant Numbered(Gates, firstId, nextId)
        decreases rest
      {
        var gate :| gate in rest;
        SplitNext(c.Gates, done, rest, gate);
        mapping := CopyGate(gate, done, mapping, firstId, nextId);
        nextId := nextId + 1;
        rest, done := rest - {gate}, done + {gate};
      }
      SplitEnd(c.Gates, done);
    }

    method CopyGate(gate: Gate, ghost done: set<Gate>, mapping: map<Gate, Gate>, ghost firstId: nat, id: nat)
      returns (extended: map<Gate, Gate>)
      requires Copies(done, mapping) && Gates == CopyGates(mapping, done) && gate !in done
      requires id >= firstId && Numbered(Gates, firstId, id)
      modifies `Gates
      ensures Copies(done + {gate}, extended) && Gates == CopyGates(extended, done + {gate})
      ensures Numbered(Gates, firstId, id + 1)
    {
      hide Copies, CopyGates, Numbered;
      var gateClone := Gate(id, gate.kind);
      NumberNext(Gates, firstId, id, gateClone);
      OneMoreCopy(done, mapping, gate, gateClone);
      Gates := Gates + {gateClone};
      extended := mapping[gate := gateClone];
    }

    method CopyPortsOf(c: Circuit, mapping: map<Gate, Gate>)
      requires c != this && InputAddrs == {} && OutputAddrs == {} && WF(c.Value()) && Copies(c.Gates, mapping)
      modifies `InputAddrs, `OutputAddrs
      ensures InputAddrs == CopyIns(mapping, c.InputAddrs) && OutputAddrs == CopyOuts(mapping, c.OutputAddrs)
    {
      hide WF, Copies, CopyIns, CopyOuts;
      CopyInputsOf(c, mapping);
      CopyOutputsOf(c, mapping);
    }

    method CopyInputsOf(c: Circuit, mapping: map<Gate, Gate>)
      requires c != this && InputAddrs == {} && WF(c.Value()) && Copies(c.Gates, mapping)
      modifies `InputAddrs
      ensures InputAddrs == CopyIns(mapping, c.InputAddrs)
    {
      hide WF, Copies;
      var ins := c.InputAddrs;
      while ins != {}
        invariant ins <= c.InputAddrs && InputAddrs == CopyIns(mapping, c.InputAddrs - ins)
        decreases ins
      {
        var input :| input in ins;
        PortHasCopy(c.Value(), mapping, input, OutAddr(input.gate, 0));
        InputAddrs := InputAddrs + {InAddr(mapping[input.gate], input.port)};
        ins := ins - {input};
      }
      assert c.InputAddrs - ins == c.InputAddrs;
    }

    method CopyOutputsOf(c: Circuit, mapping: map<Gate, Gate>)
      requires c != this && OutputAddrs == {} && WF(c.Value()) && Copies(c.Gates, mapping)
      modifies `OutputAddrs
      ensures OutputAddrs == CopyOuts(mapping, c.OutputAddrs)
    {
      hide WF, Copies;
      var outs := c.OutputAddrs;
      while outs != {}
        invariant outs <= c.OutputAddrs && OutputAddrs == CopyOuts(mapping, c.OutputAddrs - outs)
        decreases outs
      {
        var output :| output in outs;
        PortHasCopy(c.Value(), mapping, InAddr(output.gate, 0), output);
        OutputAddrs := OutputAddrs + {OutAddr(mapping[output.gate], output.port)};
        outs := outs - {output};
      }
      assert c.OutputAddrs - outs == c.OutputAddrs;
    }

    method CopyConnectionsOf(c: Circuit, mapping: map<Gate, Gate>)
      requires c != this && InputCounterparties == map[] && OutputCounterparties == map[]
      requires WF(c.Value()) && Copies(c.Gates, mapping)
      modifies `InputCounterparties, `OutputCounterparties
      ensures CopiedConnections(c.Value(), mapping, c.InputCounterparties.Keys, OutputCounterparties, InputCounterparties)
    {
      ghost var g := c.Value();
      var rest := c.InputCounterparties.Keys;
      assert CopiedConnections(g, mapping, {}, map[], map[]);
      hide WF, Copies, CopiedConnections, InCopied, OutCopied, Split;
      ghost var done: set<InAddr> := {};
      SplitStart(rest);
      while rest != {}
        invariant Split(g.bwd.Keys, done, rest) && c.Value() == g
        invariant CopiedConnections(g, mapping, done, OutputCounterparties, InputCounterparties)
        decreases rest
      {
        var oldInput :| oldInput in rest;
        SplitNext(g.bwd.Keys, done, rest, oldInput);
        var oldOutput := c.InputCounterparties[oldInput];
        ConnectionHasCopy(g, mapping, oldInput);
        CopyOneConnection(g, mapping, done, OutputCounterparties, InputCounterparties, oldInput);
        var newInput := InAddr(mapping[oldInput.gate], oldInput.port);
        var newOutput := OutAddr(mapping[oldOutput.gate], oldOutput.port);
        InputCounterparties := InputCounterparties[newInput := newOutput];
        OutputCounterparties := OutputCounterparties[newOutput := newInput];
        rest, done := rest - {oldInput}, done + {oldInput};
      }
      SplitEnd(g.bwd.Keys, done);
    }

    /** The cached topological order, computed on the first request. */
    method TopologicalOrder() returns (order: seq<Gate>)
      requires WF(Value()) && Acyclic(Value()) && WideSources(Value())
      requires if Order == None then Ranks == map[] else RankedOrder(Value(), Order.value, Ranks)
      modifies `Ranks, `Order
      ensures Order == Some(order) && RankedOrder(Value(), order, Ranks)
    {
      if Order == None {
        var computed := AssignTopologicalRanks();
        Order := Some(computed);
      }
      order := Order.value;
    }

    method AssignTopologicalRanks() returns (sortList: seq<Gate>)
      requires WF(Value()) && Acyclic(Value()) && WideSources(Value()) && Ranks == map[]
      modifies `Ranks
      ensures RankedOrder(Value(), sortList, Ranks)
    {
      ghost var g := Value();
      ghost var rank: Gate -> nat :| Ranked(g, rank);
      var gateDeque: seq<Gate>;
      ghost var skipped: set<InAddr>;
      gateDeque, skipped := InputGates();
      sortList := [];
      var nextRank := 0;
      StartState(g, skipped, gateDeque);
      hide WF, RankingState, Ranked, WideSources, Work, Unranked, Arity, RankedOrder, NewPredecessors, Queued;
      while gateDeque != []
        invariant Value() == g && nextRank == |sortList|
        invariant RankingState(g, skipped, gateDeque, sortList, Ranks)
        decreases Unranked(g, Ranks), Work(gateDeque, Ranks, rank)
      {
        if gateDeque[0] in Ranks {
          DropState(g, skipped, gateDeque, sortList, Ranks, rank);
          gateDeque := gateDeque[1..];
        } else {
          gateDeque, sortList, nextRank := RankFront(gateDeque, sortList, nextRank, skipped, rank);
        }
      }
      EndState(g, skipped, sortList, Ranks, rank);
    }

    /** Ranks the gate at the front, unless a predecessor still needs a rank. */
    method RankFront(deque: seq<Gate>, order: seq<Gate>, rank0: nat, ghost skipped: set<InAddr>, ghost rank: Gate -> nat)
      returns (gateDeque: seq<Gate>, sortList: seq<Gate>, nextRank: nat)
      requires WF(Value()) && Ranked(Value(), rank) && RankingState(Value(), skipped, deque, order, Ranks)
      requires deque != [] && deque[0] !in Ranks && rank0 == |order|
      modifies `Ranks
      ensures Value() == old(Value())
      ensures RankingState(Value(), skipped, gateDeque, sortList, Ranks) && nextRank == |sortList|
      ensures Unranked(Value(), Ranks) < Unranked(Value(), old(Ranks))
        || (Ranks == old(Ranks) && Work(gateDeque, Ranks, rank) < Work(deque, Ranks, rank))
    {
      ghost var g := Value();
      var current := deque[0];
      sortList, nextRank := order, rank0;
      hide WF, RankingState, Ranked, Work, Unranked, Arity, NewPredecessors, Successors;
      QueueState(g, skipped, deque, order, Ranks, rank);
      var shouldAssignRank: bool;
      gateDeque, shouldAssignRank := QueuePredecessors(current, deque);
      if shouldAssignRank {
        RankState(g, skipped, deque, order, Ranks);
        Ranks := Ranks[current := nextRank];
        nextRank := nextRank + 1;
        sortList := sortList + [current];
        gateDeque := QueueSuccessors(current, gateDeque[1..]);
      }
    }

    /** The gates of the unconnected inputs but for the first one listed, last one first. */
    method InputGates() returns (gateDeque: seq<Gate>, ghost skipped: set<InAddr>)
      requires WF(Value())
      ensures |skipped| <= 1 && Queued(Value(), skipped, gateDeque, map[])
    {
      gateDeque, skipped := [], {};
      var rest := InputAddrs;
      if rest != {} {
        var first :| first in rest;
        rest := rest - {first};
        skipped := {first};
      }
      while rest != {}
        invariant forall t :: t in gateDeque ==> t in Gates
        invariant forall b :: b in InputAddrs && b !in skipped && b !in rest ==> b.gate in gateDeque
        invariant rest <= InputAddrs
        decreases |rest|
      {
        var addr :| addr in rest;
        assert HasIn(Value(), addr);
        rest := rest - {addr};
        gateDeque := [addr.gate] + gateDeque;
      }
      hide WF;
    }

    /** Puts the unranked predecessors of the gate at the front. */
    method QueuePredecessors(current: Gate, deque: seq<Gate>) returns (gateDeque: seq<Gate>, shouldAssignRank: bool)
      requires WF(Value()) && current in Gates
      ensures var more := NewPredecessors(Value(), Ranks, current, Arity(current.kind));
        gateDeque == more + deque && (shouldAssignRank <==> more == [])
    {
      gateDeque, shouldAssignRank := deque, true;
      hide WF;
      for i := 0 to Arity(current.kind)
        invariant gateDeque == NewPredecessors(Value(), Ranks, current, i) + deque
        invariant shouldAssignRank <==> NewPredecessors(Value(), Ranks, current, i) == []
      {
        var addr := InAddr(current, i);
        assert HasIn(Value(), addr);
        PortCases(Value(), addr, OutAddr(current, 0));
        if addr in InputAddrs {
          continue;
        }
        var counterparty := InputCounterparties[addr].gate;
        if counterparty !in Ranks {
          gateDeque := [counterparty] + gateDeque;
          shouldAssignRank := false;
        }
      }
    }

    /** Puts the gates that the outputs of the gate go to at the end. */
    method QueueSuccessors(current: Gate, deque: seq<Gate>) returns (gateDeque: seq<Gate>)
      requires WF(Value()) && current in Gates
      ensures gateDeque == deque + Successors(Value(), current, Arity(current.kind))
    {
      gateDeque := deque;
      hide WF;
      for i := 0 to Arity(current.kind)
        invariant gateDeque == deque + Successors(Value(), current, i)
      {
        var addr := OutAddr(current, i);
        assert HasOut(Value(), addr);
        PortCases(Value(), InAddr(current, 0), addr);
        if addr in OutputAddrs {
          continue;
        }
        gateDeque := gateDeque + [OutputCounterparties[addr].gate];
      }
    }
  }

  /** Collapsing has dealt with the gates outside rest. */
  ghost predicate CollapsedExcept(g: Graph, h: Graph, rest: set<Gate>) {
    && (forall t :: t in h.gates <==> t in g.gates && (t in rest || !IsPermutation(t)))
    && (forall t :: t in rest && IsPermutation(t) ==> PermutationOf(h, t))
    && rest <= g.gates
  }

  /** The gates have identities from lo on, below hi. */
  ghost predicate Numbered(gates: set<Gate>, lo: nat, hi: nat) {
    forall t :: t in gates ==> lo <= t.id < hi
  }

  /** What a loop over a set has taken, and what is left. */
  ghost predicate Split<T>(all: set<T>, done: set<T>, rest: set<T>) {
    done + rest == all && done !! rest
  }

  lemma SplitStart<T>(all: set<T>)
    ensures Split(all, {}, all)
  {
  }

  lemma SplitNext<T>(all: set<T>, done: set<T>, rest: set<T>, x: T)
    requires Split(all, done, rest) && x in rest
    ensures Split(all, done + {x}, rest - {x}) && x in all && x !in done
  {
  }

  lemma SplitEnd<T>(all: set<T>, done: set<T>)
    requires Split(all, done, {})
    ensures done == all
  {
  }

  lemma NumberNext(gates: set<Gate>, lo: nat, hi: nat, t: Gate)
    requires Numbered(gates, lo, hi) && t.id == hi && lo <= hi
    ensures t !in gates && Numbered(gates + {t}, lo, hi + 1)
  {
  }

  lemma NoCopies(lo: nat)
    ensures Copies({}, map[]) && CopyGates(map[], {}) == {} && Numbered({}, lo, lo)
  {
  }

  lemma OneMoreCopy(gates: set<Gate>, m: map<Gate, Gate>, t: Gate, c: Gate)
    requires Copies(gates, m) && t !in gates && c.kind == t.kind && c !in CopyGates(m, gates)
    ensures Copies(gates + {t}, m[t := c]) && CopyGates(m[t := c], gates + {t}) == CopyGates(m, gates) + {c}
  {
    var n := m[t := c];
    hide CopyGates;
    forall s, u | s in gates + {t} && u in gates + {t} && n[s] == n[u] ensures s == u { }
    SameCopies(gates, m, t, c);
  }

  lemma SameCopies(gates: set<Gate>, m: map<Gate, Gate>, t: Gate, c: Gate)
    requires Copies(gates, m) && t !in gates
    ensures CopyGates(m[t := c], gates + {t}) == CopyGates(m, gates) + {c}
  {
    var n := m[t := c];
    forall x ensures x in CopyGates(n, gates + {t}) <==> x in CopyGates(m, gates) || x == c {
      if x in CopyGates(n, gates + {t}) {
        var s :| s in gates + {t} && s in n && n[s] == x;
      }
      if x in CopyGates(m, gates) {
        var s :| s in gates && s in m && m[s] == x;
        assert n[s] == x;
      }
      if x == c { assert n[t] == x; }
    }
  }

  lemma PortHasCopy(g: Graph, m: map<Gate, Gate>, b: InAddr, a: OutAddr)
    requires WF(g) && Copies(g.gates, m)
    ensures b in g.ins ==> b.gate in m && CopyIn(m, b) == InAddr(m[b.gate], b.port)
    ensures a in g.outs ==> a.gate in m && CopyOut(m, a) == OutAddr(m[a.gate], a.port)
  {
    UnconnectedAt(g, b, a);
    hide WF;
  }

  lemma ConnectionHasCopy(g: Graph, m: map<Gate, Gate>, b: InAddr)
    requires WF(g) && Copies(g.gates, m) && b in g.bwd
    ensures b.gate in m && CopyIn(m, b) == InAddr(m[b.gate], b.port)
    ensures var a := g.bwd[b]; a.gate in m && CopyOut(m, a) == OutAddr(m[a.gate], a.port)
  {
    BothEnds(g, b);
    hide WF;
  }

  lemma CollapseStarts(g: Graph)
    requires WF(g) && forall t :: t in g.gates && IsPermutation(t) ==> FullyConnected(g, t)
    ensures CollapsedExcept(g, g, g.gates)
  {
  }

  lemma CollapseNext(g: Graph, h: Graph, rest: set<Gate>, t: Gate)
    requires CollapsedExcept(g, h, rest) && t in rest && IsPermutation(t)
    ensures PermutationOf(h, t)
  {
  }

  lemma CollapseRest(g: Graph, h: Graph, rest: set<Gate>, t: Gate, k: Graph)
    requires WF(h) && CollapsedExcept(g, h, rest) && t in rest
    requires if IsPermutation(t) then PermutationOf(h, t) && Bypassed(h, t, k) else k == h
    ensures CollapsedExcept(g, k, rest - {t})
  {
    hide WF, PermutationOf;
    if IsPermutation(t) {
      forall q | q in rest - {t} && IsPermutation(q) ensures PermutationOf(k, q) {
        BypassedOthers(h, t, k, q);
      }
    }
  }

  lemma BypassedKeeps(g: Graph, p: Gate, h: Graph)
    requires WF(g) && PermutationOf(g, p) && Bypassed(g, p, h)
    ensures WF(h)
  {
  }

  lemma AcyclicIntro(g: Graph, rank: Gate -> nat)
    requires Ranked(g, rank)
    ensures Acyclic(g)
  {
  }

  /** JoinWith has copied every connection of h except those into rest. */
  ghost predicate Copied(g: Graph, h: Graph, rest: set<InAddr>, fwd: map<OutAddr, InAddr>, bwd: map<InAddr, OutAddr>) {
    && (forall b :: b in bwd <==> b in g.bwd || (b in h.bwd && b !in rest))
    && (forall b :: b in bwd ==> bwd[b] == if b in h.bwd && b !in rest then h.bwd[b] else g.bwd[b])
    && (forall a :: a in fwd <==> a in g.fwd || (a in h.fwd && h.fwd[a] !in rest))
    && (forall a :: a in fwd ==> fwd[a] == if a in h.fwd && h.fwd[a] !in rest then h.fwd[a] else g.fwd[a])
  }

  lemma CopyOne(g: Graph, h: Graph, rest: set<InAddr>, fwd: map<OutAddr, InAddr>, bwd: map<InAddr, OutAddr>, b: InAddr)
    requires Inverse(h) && b in rest && rest <= h.bwd.Keys && Copied(g, h, rest, fwd, bwd)
    ensures Copied(g, h, rest - {b}, fwd[h.bwd[b] := b], bwd[b := h.bwd[b]])
  {
    hide HasIn, HasOut;
    forall a | a in h.fwd ensures h.fwd[a] == b <==> a == h.bwd[b] {
      assert h.fwd[h.bwd[b]] == b && h.bwd[h.fwd[a]] == a;
    }
  }

  lemma CopyAll(g: Graph, h: Graph, fwd: map<OutAddr, InAddr>, bwd: map<InAddr, OutAddr>)
    requires Copied(g, h, {}, fwd, bwd)
    ensures fwd == g.fwd + h.fwd && bwd == g.bwd + h.bwd
  {
  }
}
