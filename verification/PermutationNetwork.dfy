/** Permutation networks that grow gate by gate and network by network. */
module PermutationNetworks {
  import opened Options
  import opened WireOps
  import opened Graphs
  import opened NetworkTheory
  import opened Circuits
  import opened Collapsing
  import opened Cloning
  import opened EndGates

  // ----- the order in which free connections are made does not matter -----

  /** A well-formed graph is determined by its gates and its backward table. */
  lemma Determined(a: Graph, b: Graph)
    requires WF(a) && WF(b) && a.gates == b.gates && a.bwd == b.bwd
    ensures a == b
  {
    hide WellFormedKind;
    forall x ensures x in a.fwd <==> x in b.fwd {
      if x in a.fwd { assert a.bwd[a.fwd[x]] == x; }
      if x in b.fwd { assert b.bwd[b.fwd[x]] == x; }
    }
    forall x | x in a.fwd ensures a.fwd[x] == b.fwd[x] {
      assert a.bwd[a.fwd[x]] == x;
    }
    assert a.fwd == b.fwd;
    SamePortSets(a, b);
  }

  lemma SamePortSets(a: Graph, b: Graph)
    requires Unconnected(a) && Unconnected(b) && a.gates == b.gates && a.bwd == b.bwd && a.fwd == b.fwd
    ensures a.ins == b.ins && a.outs == b.outs
  {
    forall x ensures x in a.ins <==> x in b.ins {
      assert HasIn(a, x) <==> HasIn(b, x);
    }
    forall x ensures x in a.outs <==> x in b.outs {
      assert HasOut(a, x) <==> HasOut(b, x);
    }
  }

  lemma ConnectOrder(u: Graph, cs: seq<Connection>, ds: seq<Connection>)
    requires WF(u) && FreeConnections(u, cs) && (forall c :: c in ds <==> c in cs)
    requires forall i, j :: 0 <= i < j < |ds| ==> ds[i] != ds[j]
    ensures Connect(u, ds) == Connect(u, cs)
  {
    FreeReordered(u, cs, ds);
    ConnectFree(u, cs);
    ConnectFree(u, ds);
    hide WF, Connect, FreeConnections;
    SameJoins(u, cs, ds, Connect(u, cs), Connect(u, ds));
    Determined(Connect(u, cs), Connect(u, ds));
  }

  lemma FreeReordered(u: Graph, cs: seq<Connection>, ds: seq<Connection>)
    requires FreeConnections(u, cs) && (forall c :: c in ds <==> c in cs)
    requires forall i, j :: 0 <= i < j < |ds| ==> ds[i] != ds[j]
    ensures FreeConnections(u, ds)
  {
    forall i | 0 <= i < |ds| ensures ds[i].from in u.outs && ds[i].to in u.ins {
      assert ds[i] in cs;
    }
    forall i, j | 0 <= i < j < |ds| ensures ds[i].from != ds[j].from && ds[i].to != ds[j].to {
      assert ds[i] in cs && ds[j] in cs;
      var k :| 0 <= k < |cs| && cs[k] == ds[i];
      var l :| 0 <= l < |cs| && cs[l] == ds[j];
      assert k < l || l < k;
    }
  }

  lemma SameJoins(u: Graph, cs: seq<Connection>, ds: seq<Connection>, a: Graph, b: Graph)
    requires Connected(u, cs, a) && Connected(u, ds, b) && (forall c :: c in ds <==> c in cs)
    ensures a.gates == b.gates && a.bwd == b.bwd
  {
    hide ConnectsFrom;
    forall x ensures x in a.bwd <==> x in b.bwd {
      if ConnectsTo(cs, x) {
        var i :| 0 <= i < |cs| && cs[i].to == x;
        assert cs[i] in ds;
      }
      if ConnectsTo(ds, x) {
        var i :| 0 <= i < |ds| && ds[i].to == x;
        assert ds[i] in cs;
      }
    }
    forall x | x in a.bwd ensures a.bwd[x] == b.bwd[x] {
      if x !in u.bwd {
        var i :| 0 <= i < |cs| && cs[i].to == x;
        assert cs[i] in ds;
      }
    }
  }

  // ----- what the wire loops of AppendGate and AppendNetwork do -----

  function LastSteps(last: seq<Option<OutAddr>>, more: seq<Option<OutAddr>>, wires: seq<nat>, k: nat): (r: seq<Option<OutAddr>>)
    requires k <= |wires| == |more| && forall i :: 0 <= i < |wires| ==> wires[i] < |last|
    ensures |r| == |last|
  {
    if k == 0 then last
    else
      var r := LastSteps(last, more, wires, k - 1);
      if more[k - 1].Some? then r[wires[k - 1] := more[k - 1]] else r
  }

  function FirstSteps(first: seq<Option<InAddr>>, more: seq<Option<InAddr>>, wires: seq<nat>, k: nat): (r: seq<Option<InAddr>>)
    requires k <= |wires| == |more| && forall i :: 0 <= i < |wires| ==> wires[i] < |first|
    ensures |r| == |first|
  {
    if k == 0 then first
    else
      var r := FirstSteps(first, more, wires, k - 1);
      if r[wires[k - 1]].None? then r[wires[k - 1] := more[k - 1]] else r
  }

  lemma {:induction false} LastStepsAt(last: seq<Option<OutAddr>>, more: seq<Option<OutAddr>>, wires: seq<nat>, k: nat, w: nat)
    requires k <= |wires| == |more| && ValidWires(wires, |last|) && w < |last|
    ensures LastSteps(last, more, wires, k)[w] ==
      if w in wires[..k] && more[Index(wires, w)].Some? then more[Index(wires, w)] else last[w]
  {
    if k > 0 {
      LastStepsAt(last, more, wires, k - 1, w);
      assert wires[..k] == wires[..k - 1] + [wires[k - 1]];
      if w == wires[k - 1] {
        assert Index(wires, w) == k - 1;
      }
    }
  }

  lemma {:induction false} FirstStepsAt(first: seq<Option<InAddr>>, more: seq<Option<InAddr>>, wires: seq<nat>, k: nat, w: nat)
    requires k <= |wires| == |more| && ValidWires(wires, |first|) && w < |first|
    ensures FirstSteps(first, more, wires, k)[w] ==
      if first[w].None? && w in wires[..k] then more[Index(wires, w)] else first[w]
  {
    if k > 0 {
      FirstStepsAt(first, more, wires, k - 1, w);
      assert wires[..k] == wires[..k - 1] + [wires[k - 1]];
      if w == wires[k - 1] {
        assert Index(wires, w) == k - 1;
        assert w !in wires[..k - 1];
      }
    }
  }

  /** A wire is untouched until the loop reaches it. */
  lemma LastUntouched(last: seq<Option<OutAddr>>, more: seq<Option<OutAddr>>, wires: seq<nat>, k: nat)
    requires k < |wires| == |more| && ValidWires(wires, |last|)
    ensures LastSteps(last, more, wires, k)[wires[k]] == last[wires[k]]
  {
    LastStepsAt(last, more, wires, k, wires[k]);
    assert wires[k] !in wires[..k];
  }

  lemma StepsAfter(n: Net, m: Net, wires: seq<nat>)
    requires Fits(n, m, wires) && |n.last| == |n.first| && |m.last| == |m.first|
    ensures LastSteps(n.last, m.last, wires, |wires|) == LastAfter(n, m, wires)
    ensures FirstSteps(n.first, m.first, wires, |wires|) == FirstAfter(n, m, wires)
  {
    assert wires[..|wires|] == wires;
    forall w | 0 <= w < |n.last| ensures LastSteps(n.last, m.last, wires, |wires|)[w] == LastAfter(n, m, wires)[w] {
      LastStepsAt(n.last, m.last, wires, |wires|, w);
    }
    forall w | 0 <= w < |n.first| ensures FirstSteps(n.first, m.first, wires, |wires|)[w] == FirstAfter(n, m, wires)[w] {
      FirstStepsAt(n.first, m.first, wires, |wires|, w);
    }
  }

  lemma RenameGate(t: Gate, wires: seq<nat>, n: nat)
    requires WellFormedKind(t.kind) && |wires| == Arity(t.kind)
    ensures ValidOps(GateNet(t).ops, |wires|) && Rename(GateNet(t).ops, wires) == [Op(t.kind, wires)]
  {
    hide WellFormedKind;
    assert ValidOp(GateNet(t).ops[0], |wires|);
    assert RenameOp(GateNet(t).ops[0], wires).wires == wires;
  }

  lemma LengthsOf(n: Net)
    requires NetOk(n)
    ensures |n.first| == |n.last| && Ends(n) && WF(n.g) && Inverse(n.g) && ValidOps(n.ops, |n.first|)
    ensures forall t :: t in n.order <==> t in n.g.gates
  {
  }

  ghost predicate CanPlace(n: Net, t: Gate, wires: seq<nat>) {
    && WellFormedKind(t.kind) && |wires| == Arity(t.kind)
    && ValidWires(wires, |n.first|) && t !in n.g.gates
  }

  lemma PlacedFits(n: Net, t: Gate, wires: seq<nat>)
    requires NetOk(n) && CanPlace(n, t, wires)
    ensures Fits(n, GateNet(t), wires) && NetOk(GateNet(t))
  {
    GateNetOk(t);
    hide NetOk, WellFormedKind;
  }

  lemma WithGateLabelled(n: Net, t: Gate, wires: seq<nat>)
    requires NetOk(n) && CanPlace(n, t, wires)
    ensures NetOk(GateNet(t)) && Fits(n, GateNet(t), wires)
    ensures Ends(n) && Ends(GateNet(t)) && ValidOps(GateNet(t).ops, |GateNet(t).first|)
    ensures Labelled(n) ==> Labelled(AppendNet(n, GateNet(t), wires))
  {
    PlacedFits(n, t, wires);
    LengthsOf(n);
    LengthsOf(GateNet(t));
    GateLabelled(t);
    if Labelled(n) { AppendLabelled(n, GateNet(t), wires); }
  }

  /** The network with another one appended. */
  ghost function WithNetwork(n: Net, m: Net, wires: seq<nat>): (r: Net)
    requires NetOk(n) && NetOk(m) && Fits(n, m, wires)
    ensures NetOk(r) && r.g.gates == n.g.gates + m.g.gates
    ensures ValidOps(m.ops, |wires|) && r.ops == n.ops + Rename(m.ops, wires) && r.order == n.order + m.order
    ensures Labelled(n) && Labelled(m) ==> Labelled(r)
  {
    LengthsOf(n);
    LengthsOf(m);
    AppendNetOk(n, m, wires);
    AppendKeepsGates(n, m, wires);
    if Labelled(n) && Labelled(m) then
      AppendLabelled(n, m, wires);
      AppendNet(n, m, wires)
    else AppendNet(n, m, wires)
  }

  lemma FitsOn(n: Net, m: Net, wires: seq<nat>)
    requires |wires| == |m.first| && ValidWires(wires, |n.first|) && n.g.gates !! m.g.gates
    ensures Fits(n, m, wires)
  {
  }

  lemma WithNetworkParts(n: Net, m: Net, wires: seq<nat>, joins: seq<Connection>, r: Net)
    requires NetOk(n) && NetOk(m) && Fits(n, m, wires) && |n.last| == |n.first| && |m.last| == |m.first| == |wires|
    requires joins == Joins(n.last, m.first, wires, |wires|)
    requires r.g == Connect(Union(n.g, m.g), joins)
    requires r.last == LastSteps(n.last, m.last, wires, |wires|)
    requires r.first == FirstSteps(n.first, m.first, wires, |wires|)
    requires ValidOps(m.ops, |wires|) && r.ops == n.ops + Rename(m.ops, wires) && r.order == n.order + m.order
    ensures r == WithNetwork(n, m, wires)
  {
    LengthsOf(n);
    LengthsOf(m);
    hide NetOk, Ends, WF, ValidOps, Rename, Connect, Union, Joins;
    StepsAfter(n, m, wires);
  }

  /** The network with one more gate. */
  ghost function WithGate(n: Net, t: Gate, wires: seq<nat>): (r: Net)
    requires NetOk(n) && CanPlace(n, t, wires)
    ensures NetOk(r) && r.g.gates == n.g.gates + {t}
    ensures r.ops == n.ops + [Op(t.kind, wires)] && r.order == n.order + [t]
    ensures Labelled(n) ==> Labelled(r)
  {
    WithGateLabelled(n, t, wires);
    PlacedFits(n, t, wires);
    LengthsOf(n);
    LengthsOf(GateNet(t));
    AppendNetOk(n, GateNet(t), wires);
    AppendKeepsGates(n, GateNet(t), wires);
    RenameGate(t, wires, |wires|);
    AppendNet(n, GateNet(t), wires)
  }

  lemma WithGateParts(n: Net, t: Gate, wires: seq<nat>, joins: set<Connection>, cs: seq<Connection>, r: Net)
    requires NetOk(n) && CanPlace(n, t, wires) && |n.last| == |n.first|
    requires joins == set c | c in Joins(n.last, InPorts(t), wires, |wires|)
    requires Enumerates(cs, joins)
    requires r.g == Connect(Union(n.g, GateGraph(t)), cs)
    requires r.last == LastSteps(n.last, OutPorts(t), wires, |wires|)
    requires r.first == FirstSteps(n.first, InPorts(t), wires, |wires|)
    requires r.ops == n.ops + [Op(t.kind, wires)] && r.order == n.order + [t]
    ensures r == WithGate(n, t, wires)
  {
    var m := GateNet(t);
    PlacedFits(n, t, wires);
    LengthsOf(n);
    LengthsOf(m);
    hide NetOk, Ends, WF, ValidOps, Rename, Connect, Union, Joins, WellFormedKind, Enumerates;
    JoinsInAnyOrder(n, m, wires, joins, cs);
    StepsAfter(n, m, wires);
    RenameGate(t, wires, |wires|);
  }

  lemma CanPlaceFacts(n: Net, t: Gate, wires: seq<nat>)
    requires CanPlace(n, t, wires)
    ensures |wires| == Arity(t.kind) && ValidWires(wires, |n.first|)
  {
  }

  class PermutationNetwork {
    const WireCount: nat
    const Circuit: Circuit
    const LastGateForWire: array<Option<OutAddr>>
    const FirstGateForWire: array<Option<InAddr>>
    /** The gates in append order, and the wires each one was put on. */
    ghost var Appended: seq<Gate>
    ghost var Ops: seq<Op>

    ghost function Repr(): set<object> {
      {this, Circuit, LastGateForWire, FirstGateForWire}
    }

    ghost function Value(): Net
      reads Repr()
    {
      Net(Circuit.Value(), FirstGateForWire[..], LastGateForWire[..], Ops, Appended)
    }

    ghost predicate Valid()
      reads Repr()
    {
      FirstGateForWire.Length == LastGateForWire.Length == WireCount && NetOk(Value()) && Labelled(Value())
    }

    constructor (wireCount: nat)
      ensures Valid() && fresh(Repr()) && WireCount == wireCount && Value() == EmptyNet(wireCount)
    {
      WireCount := wireCount;
      LastGateForWire := new Option<OutAddr>[wireCount](i => None);
      FirstGateForWire := new Option<InAddr>[wireCount](i => None);
      Circuit := new Circuit();
      Appended, Ops := [], [];
      new;
      assert Value() == EmptyNet(wireCount);
      EmptyNetOk(wireCount);
      EmptyLabelled(wireCount);
    }

    /** Puts the gate at the end of the given wires. */
    method AppendGate(gate: Gate, wires: seq<nat>)
      requires Valid() && CanPlace(Value(), gate, wires)
      modifies Repr()
      ensures Valid() && Value() == WithGate(old(Value()), gate, wires)
    {
      ghost var n := Value();
      LengthsOf(n);
      hide NetOk, Ends, WF, ValidOps, Connect, Union, CanPlace, Enumerates, WithGate, Joins, LastSteps, FirstSteps, Labelled;
      CanPlaceFacts(n, gate, wires);
      var joins := PlaceGate(gate, wires);
      Ops := Ops + [Op(gate.kind, wires)];
      Appended := Appended + [gate];
      ghost var cs := Circuit.AddGate(gate, joins);
      WithGateParts(n, gate, wires, joins, cs, Value());
    }

    method PlaceGate(gate: Gate, wires: seq<nat>) returns (joins: set<Connection>)
      requires FirstGateForWire.Length == LastGateForWire.Length == WireCount
      requires |wires| == Arity(gate.kind) && ValidWires(wires, WireCount)
      modifies LastGateForWire, FirstGateForWire
      ensures LastGateForWire[..] == LastSteps(old(LastGateForWire[..]), OutPorts(gate), wires, |wires|)
      ensures FirstGateForWire[..] == FirstSteps(old(FirstGateForWire[..]), InPorts(gate), wires, |wires|)
      ensures joins == set c | c in Joins(old(LastGateForWire[..]), InPorts(gate), wires, |wires|)
    {
      ghost var last, first := LastGateForWire[..], FirstGateForWire[..];
      joins := {};
      for i := 0 to |wires|
        invariant LastGateForWire[..] == LastSteps(last, OutPorts(gate), wires, i)
        invariant FirstGateForWire[..] == FirstSteps(first, InPorts(gate), wires, i)
        invariant joins == set c | c in Joins(last, InPorts(gate), wires, i)
      {
        var wire := wires[i];
        LastUntouched(last, OutPorts(gate), wires, i);
        assert LastGateForWire[wire] == LastGateForWire[..][wire];
        assert FirstGateForWire[wire] == FirstGateForWire[..][wire];
        if LastGateForWire[wire].Some? {
          joins := joins + {Connection(LastGateForWire[wire].value, InAddr(gate, i))};
        }
        LastGateForWire[wire] := Some(OutAddr(gate, i));
        if FirstGateForWire[wire].None? {
          FirstGateForWire[wire] := Some(InAddr(gate, i));
        }
      }
    }

    /** Puts wire i of the other network at the end of wires[i]. */
    method AppendNetwork(pn: PermutationNetwork, wires: seq<nat>)
      requires Valid() && pn.Valid() && Repr() !! pn.Repr()
      requires |wires| == pn.WireCount && ValidWires(wires, WireCount) && Circuit.Gates !! pn.Circuit.Gates
      modifies Repr()
      ensures Valid() && Fits(old(Value()), old(pn.Value()), wires)
      ensures Value() == WithNetwork(old(Value()), old(pn.Value()), wires)
    {
      hide NetOk, Ends, WF, ValidOps, Rename, Connect, Union, Fits, Joins, Labelled, WithNetwork, LastSteps, FirstSteps;
      ghost var n, m := Value(), pn.Value();
      FitsOn(n, m, wires);
      LengthsOf(n);
      LengthsOf(m);
      var joins := PlaceNetwork(pn, wires);
      Ops := Ops + Rename(pn.Ops, wires);
      Appended := Appended + pn.Appended;
      Circuit.JoinWith(pn.Circuit, joins);
      WithNetworkParts(n, m, wires, joins, Value());
    }

    method PlaceNetwork(pn: PermutationNetwork, wires: seq<nat>) returns (joins: seq<Connection>)
      requires FirstGateForWire.Length == LastGateForWire.Length == WireCount
      requires pn.FirstGateForWire.Length == pn.LastGateForWire.Length == pn.WireCount
      requires |wires| == pn.WireCount && ValidWires(wires, WireCount) && Repr() !! pn.Repr()
      modifies LastGateForWire, FirstGateForWire
      ensures LastGateForWire[..] == LastSteps(old(LastGateForWire[..]), pn.LastGateForWire[..], wires, |wires|)
      ensures FirstGateForWire[..] == FirstSteps(old(FirstGateForWire[..]), pn.FirstGateForWire[..], wires, |wires|)
      ensures joins == Joins(old(LastGateForWire[..]), pn.FirstGateForWire[..], wires, |wires|)
    {
      ghost var last, first := LastGateForWire[..], FirstGateForWire[..];
      ghost var pnLast, pnFirst := pn.LastGateForWire[..], pn.FirstGateForWire[..];
      joins := [];
      for i := 0 to |wires|
        invariant pn.LastGateForWire[..] == pnLast && pn.FirstGateForWire[..] == pnFirst
        invariant LastGateForWire[..] == LastSteps(last, pnLast, wires, i)
        invariant FirstGateForWire[..] == FirstSteps(first, pnFirst, wires, i)
        invariant joins == Joins(last, pnFirst, wires, i)
      {
        var wire := wires[i];
        LastUntouched(last, pnLast, wires, i);
        assert LastGateForWire[wire] == LastGateForWire[..][wire];
        assert FirstGateForWire[wire] == FirstGateForWire[..][wire];
        assert pn.LastGateForWire[i] == pnLast[i] && pn.FirstGateForWire[i] == pnFirst[i];
        if LastGateForWire[wire].Some? && pn.FirstGateForWire[i].Some? {
          joins := joins + [Connection(LastGateForWire[wire].value, pn.FirstGateForWire[i].value)];
        }
        if pn.LastGateForWire[i].Some? {
          LastGateForWire[wire] := pn.LastGateForWire[i];
        }
        if FirstGateForWire[wire].None? {
          FirstGateForWire[wire] := pn.FirstGateForWire[i];
        }
      }
    }

    /** Puts the other network on consecutive wires. */
    method AppendNetworkAt(pn: PermutationNetwork, startWire: nat)
      requires Valid() && pn.Valid() && Repr() !! pn.Repr()
      requires startWire + pn.WireCount <= WireCount && Circuit.Gates !! pn.Circuit.Gates
      modifies Repr()
      ensures Valid() && Fits(old(Value()), old(pn.Value()), Range(startWire, pn.WireCount))
      ensures Value() == WithNetwork(old(Value()), old(pn.Value()), Range(startWire, pn.WireCount))
    {
      hide NetOk, Labelled, WithNetwork, Ends;
      RangeIsValid(startWire, pn.WireCount, WireCount);
      var mapping := Consecutive(startWire, pn.WireCount);
      AppendNetwork(pn, mapping[..]);
    }

    static method Consecutive(startWire: nat, count: nat) returns (mapping: array<nat>)
      ensures fresh(mapping) && mapping[..] == Range(startWire, count)
    {
      mapping := new nat[count];
      for i := 0 to count
        invariant mapping[..i] == Range(startWire, i)
      {
        mapping[i] := startWire + i;
        assert mapping[..i + 1] == mapping[..i] + [startWire + i];
      }
      assert mapping[..count] == mapping[..];
    }

    /** A network of new gates that computes the same gate list. */
    method Clone(firstId: nat) returns (clone: PermutationNetwork, nextId: nat)
      requires Valid()
      ensures clone.Valid() && fresh(clone.Repr()) && clone.WireCount == WireCount && clone.Ops == Ops
      ensures exists m: map<Gate, Gate> :: ClonedNet(Value(), clone.Value(), m)
      ensures nextId >= firstId && Numbered(clone.Circuit.Gates, firstId, nextId)
    {
      hide NetOk, Labelled, Cloned, WF, Ends, CopyIn, CopyOut, CopyGate, CopyFirst, CopyLast, ClonedNet, Numbered;
      ghost var n := Value();
      LengthsOf(n);
      var copy, mapping, next := Circuit.Clone(firstId);
      clone := new PermutationNetwork.Around(WireCount, copy);
      nextId := next;
      clone.CopyEndsOf(this, mapping);
      clone.Ops := Ops;
      clone.Appended := CopiedOrder(mapping, Appended);
      ClonedNetIntro(n, clone.Value(), mapping);
      ClonedNetOk(n, clone.Value(), mapping);
      ClonedLabelled(n, clone.Value(), mapping);
      assert Value() == n;
      assert ClonedNet(Value(), clone.Value(), mapping);
    }

    /** A network with no wires used yet, around a given circuit. */
    constructor Around(wireCount: nat, circuit: Circuit)
      ensures fresh(Repr() - {circuit}) && WireCount == wireCount && Circuit == circuit
      ensures FirstGateForWire.Length == LastGateForWire.Length == wireCount
      ensures forall i :: 0 <= i < wireCount ==> FirstGateForWire[i] == None && LastGateForWire[i] == None
    {
      WireCount := wireCount;
      LastGateForWire := new Option<OutAddr>[wireCount](i => None);
      FirstGateForWire := new Option<InAddr>[wireCount](i => None);
      Circuit := circuit;
      Appended, Ops := [], [];
    }

    method CopyEndsOf(pn: PermutationNetwork, mapping: map<Gate, Gate>)
      requires pn.FirstGateForWire.Length == pn.LastGateForWire.Length == pn.WireCount == WireCount
      requires FirstGateForWire.Length == LastGateForWire.Length == WireCount
      requires FirstGateForWire != pn.FirstGateForWire && LastGateForWire != pn.LastGateForWire
      requires forall i :: 0 <= i < WireCount ==> FirstGateForWire[i] == None && LastGateForWire[i] == None
      modifies FirstGateForWire, LastGateForWire
      ensures forall i :: 0 <= i < WireCount ==> FirstGateForWire[i] == CopyFirst(mapping, pn.FirstGateForWire[i])
      ensures forall i :: 0 <= i < WireCount ==> LastGateForWire[i] == CopyLast(mapping, pn.LastGateForWire[i])
    {
      hide CopyIn, CopyOut;
      for i := 0 to WireCount
        invariant forall k :: 0 <= k < i ==> FirstGateForWire[k] == CopyFirst(mapping, pn.FirstGateForWire[k])
        invariant forall k :: 0 <= k < i ==> LastGateForWire[k] == CopyLast(mapping, pn.LastGateForWire[k])
        invariant forall k :: i <= k < WireCount ==> FirstGateForWire[k] == None && LastGateForWire[k] == None
      {
        if pn.FirstGateForWire[i].Some? {
          FirstGateForWire[i] := Some(CopyIn(mapping, pn.FirstGateForWire[i].value));
        }
        if pn.LastGateForWire[i].Some? {
          LastGateForWire[i] := Some(CopyOut(mapping, pn.LastGateForWire[i].value));
        }
      }
    }

    /** Takes the permutation gates out of the circuit. Afterwards the network still computes what
        its gate list says, with the same ends. */
    method CollapsePermutationGates()
      requires Valid() && forall t :: t in Circuit.Gates && IsPermutation(t) ==> FullyConnected(Circuit.Value(), t)
      modifies Circuit
      ensures WF(Circuit.Value()) && Acyclic(Circuit.Value()) && Ends(Value())
      ensures forall t :: t in Circuit.Gates <==> t in old(Circuit.Gates) && !IsPermutation(t)
      ensures Computes(Value()) && Realizable(Value())
    {
      ghost var n := Value();
      OrderedAcyclic(n);
      LengthsOf(n);
      hide NetOk, Labelled, WF, Acyclic, SameMeaning, Ends, Computes, Realizable, FullyConnected;
      Circuit.CollapsePermutationGates();
      CollapsedNet(n, Value());
    }
  }

  ghost function CopiedOrder(m: map<Gate, Gate>, order: seq<Gate>): (r: seq<Gate>)
    ensures |r| == |order| && forall i :: 0 <= i < |r| ==> r[i] == CopyGate(m, order[i])
  {
    seq(|order|, i requires 0 <= i < |order| => CopyGate(m, order[i]))
  }

  lemma ClonedNetIntro(n: Net, k: Net, m: map<Gate, Gate>)
    requires Cloned(n.g, k.g, m) && k.ops == n.ops && k.order == CopiedOrder(m, n.order)
    requires |k.first| == |n.first| && forall i :: 0 <= i < |n.first| ==> k.first[i] == CopyFirst(m, n.first[i])
    requires |k.last| == |n.last| && forall i :: 0 <= i < |n.last| ==> k.last[i] == CopyLast(m, n.last[i])
    ensures ClonedNet(n, k, m)
  {
    hide Cloned;
  }

  lemma ClonedLabelled(n: Net, k: Net, m: map<Gate, Gate>)
    requires NetOk(n) && Labelled(n) && ClonedNet(n, k, m)
    ensures Labelled(k)
  {
    LengthsOf(n);
    hide NetOk, WF, Ends, Cloned, FirstKind, LastKind;
    forall w | 0 <= w < |k.first| ensures InKind(k.first[w]) == FirstKind(k.ops, w) && OutKind(k.last[w]) == LastKind(k.ops, w) {
      assert InKind(n.first[w]) == FirstKind(n.ops, w);
      KindOfCopy(n, k, m, w);
    }
  }

  lemma KindOfCopy(n: Net, k: Net, m: map<Gate, Gate>, w: nat)
    requires ClonedNet(n, k, m) && w < |n.first| == |n.last|
    ensures InKind(CopyFirst(m, n.first[w])) == InKind(n.first[w]) && OutKind(CopyLast(m, n.last[w])) == OutKind(n.last[w])
  {
    ClonedCopies(n.g, k.g, m);
    hide Cloned;
  }

  lemma RangeIsValid(lo: nat, k: nat, n: nat)
    requires lo + k <= n
    ensures ValidWires(Range(lo, k), n)
  {
  }

  lemma OrderedAcyclic(n: Net)
    requires NetOk(n)
    ensures Acyclic(n.g)
  {
    hide WF, Ends, Computes, Realizable;
    var rank: Gate -> nat := t => Position(n.order, t);
    forall b | b in n.g.bwd ensures rank(n.g.bwd[b].gate) < rank(b.gate) {
      var i, j :| 0 <= i < j < |n.order| && n.order[i] == n.g.bwd[b].gate && n.order[j] == b.gate;
      PositionIs(n.order, i);
      PositionIs(n.order, j);
    }
    assert Ranked(n.g, rank);
  }

  ghost function Position(order: seq<Gate>, t: Gate): nat {
    if order == [] || order[0] == t then 0 else 1 + Position(order[1..], t)
  }

  lemma {:induction false} PositionIs(order: seq<Gate>, i: nat)
    requires NoRepeats(order) && i < |order|
    ensures Position(order, order[i]) == i
  {
    if i > 0 {
      assert order[1..][i - 1] == order[i];
      PositionIs(order[1..], i - 1);
    }
  }

  lemma CollapsedNet(n: Net, m: Net)
    requires NetOk(n) && WF(m.g) && SameMeaning(n.g, m.g)
    requires m == n.(g := m.g)
    ensures Ends(m) && Computes(m) && Realizable(m)
  {
    EndsKept(n, m);
    assert ValidOps(m.ops, |m.first|);
    hide *;
    CollapsedComputes(n, m);
    CollapsedRealizable(n, m);
  }

  lemma EndsKept(n: Net, m: Net)
    requires Ends(n) && SameMeaning(n.g, m.g) && m == n.(g := m.g)
    ensures Ends(m)
  {
    assert m.g.ins == n.g.ins && m.g.outs == n.g.outs;
    hide SameMeaning;
  }

  lemma CollapsedComputes(n: Net, m: Net)
    requires NetOk(n) && WF(m.g) && SameMeaning(n.g, m.g) && m == n.(g := m.g) && Ends(m)
    ensures Computes(m)
  {
    assert ValidOps(m.ops, |m.first|);
    hide NetOk, Run, WF, Ends, SameMeaning, Consistent, Feeds, Delivers, ValidOps;
    forall v: Ins, w: Outs, x: seq<int> | Consistent(m.g, v, w) && Feeds(m.first, v, x)
      ensures ValidOps(m.ops, |x|) && Delivers(m.last, w, x, Run(m.ops, x))
    {
      CollapsedDelivers(n, m, v, w, x);
    }
  }

  lemma CollapsedRealizable(n: Net, m: Net)
    requires NetOk(n) && SameMeaning(n.g, m.g) && m == n.(g := m.g)
    ensures Realizable(m)
  {
    hide NetOk, SameMeaning, Evaluation;
    forall x: seq<int> | |x| == |m.first| ensures exists v: Ins, w: Outs :: Evaluation(m, v, w, x) {
      CollapsedEvaluation(n, m, x);
    }
  }

  lemma CollapsedEvaluation(n: Net, m: Net, x: seq<int>)
    requires NetOk(n) && SameMeaning(n.g, m.g) && m == n.(g := m.g) && |x| == |n.first|
    ensures exists v: Ins, w: Outs :: Evaluation(m, v, w, x)
  {
    var v: Ins, w: Outs :| Evaluation(n, v, w, x);
    hide Run, Ordered, WF, Ends, NetOk;
    assert Evaluation(m, v, w, x);
  }

  lemma CollapsedDelivers(n: Net, m: Net, v: Ins, w: Outs, x: seq<int>)
    requires NetOk(n) && WF(m.g) && SameMeaning(n.g, m.g) && m == n.(g := m.g) && Ends(m)
    requires Consistent(m.g, v, w) && Feeds(m.first, v, x)
    ensures ValidOps(m.ops, |x|) && Delivers(m.last, w, x, Run(m.ops, x))
  {
    assert Extends(n.g, m.g, v, w);
    var v': Ins, w': Outs :| Consistent(n.g, v', w') && AgreeOn(m.g, v, w, v', w');
    assert ValidOps(m.ops, |x|);
    EndsAgree(m, v, w, v', w', x);
    hide WF, Ends, AgreeOn, SameMeaning, Ordered, Realizable, Run, Consistent, Delivers, Feeds, ValidOps;
    assert Delivers(n.last, w', x, Run(n.ops, x));
    DeliversAgree(m, w, w', x, Run(n.ops, x));
  }

  lemma EndsAgree(m: Net, v: Ins, w: Outs, v': Ins, w': Outs, x: seq<int>)
    requires WF(m.g) && Ends(m) && AgreeOn(m.g, v, w, v', w') && Feeds(m.first, v, x)
    ensures Feeds(m.first, v', x)
    ensures forall i :: 0 <= i < |m.last| && m.last[i].Some? ==> w(m.last[i].value) == w'(m.last[i].value)
  {
    hide WF, Ends;
    forall i | 0 <= i < |m.first| && m.first[i].Some? ensures v'(m.first[i].value) == x[i] {
      PortOf(m, i);
    }
    forall i | 0 <= i < |m.last| && m.last[i].Some? ensures w(m.last[i].value) == w'(m.last[i].value) {
      EndsLength(m);
      EndsMatch(m, i);
      PortOf(m, i);
    }
  }

  lemma EndsLength(m: Net)
    requires Ends(m)
    ensures |m.first| == |m.last|
  {
  }

  lemma DeliversAgree(m: Net, w: Outs, w': Outs, x: seq<int>, y: seq<int>)
    requires Delivers(m.last, w', x, y)
    requires forall i :: 0 <= i < |m.last| && m.last[i].Some? ==> w(m.last[i].value) == w'(m.last[i].value)
    ensures Delivers(m.last, w, x, y)
  {
  }

  lemma JoinsInAnyOrder(n: Net, m: Net, wires: seq<nat>, joins: set<Connection>, cs: seq<Connection>)
    requires Fits(n, m, wires) && NetOk(n) && NetOk(m)
    requires joins == set c | c in AllJoins(n, m, wires)
    requires Enumerates(cs, joins)
    ensures Connect(Union(n.g, m.g), cs) == Connect(Union(n.g, m.g), AllJoins(n, m, wires))
  {
    AppendWF(n, m, wires);
    hide NetOk, Connect, WF, Union, Connected, FreeConnections, Joins;
    ConnectOrder(Union(n.g, m.g), AllJoins(n, m, wires), cs);
  }

  lemma AppendKeepsGates(n: Net, m: Net, wires: seq<nat>)
    requires Fits(n, m, wires) && NetOk(n) && NetOk(m)
    ensures AppendNet(n, m, wires).g.gates == n.g.gates + m.g.gates
  {
    AppendWF(n, m, wires);
    hide NetOk, Connect, WF, FreeConnections, Joins;
  }
}
