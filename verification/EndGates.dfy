/** Which gates are at the two ends of every wire of a network. */
module EndGates {
  import opened Options
  import opened WireOps
  import opened Graphs
  import opened NetworkTheory
  import opened Collapsing

  ghost function FirstKind(ops: seq<Op>, w: nat): Option<Kind> {
    if ops == [] then None
    else
      var k := FirstKind(ops[..|ops| - 1], w);
      var op := ops[|ops| - 1];
      if k.None? && w in op.wires then Some(op.kind) else k
  }

  ghost function LastKind(ops: seq<Op>, w: nat): Option<Kind> {
    if ops == [] then None
    else
      var op := ops[|ops| - 1];
      if w in op.wires then Some(op.kind) else LastKind(ops[..|ops| - 1], w)
  }

  lemma KindsOfOne(op: Op, w: nat)
    ensures FirstKind([op], w) == LastKind([op], w) == if w in op.wires then Some(op.kind) else None
  {
    assert [op][..0] == [];
  }

  lemma {:induction false} KindsConcat(a: seq<Op>, b: seq<Op>, w: nat)
    ensures FirstKind(a + b, w) == if FirstKind(a, w).Some? then FirstKind(a, w) else FirstKind(b, w)
    ensures LastKind(a + b, w) == if LastKind(b, w).Some? then LastKind(b, w) else LastKind(a, w)
    decreases |b|
  {
    if b == [] {
      assert a + b == a;
    } else {
      var c := b[..|b| - 1];
      assert (a + b)[..|a + b| - 1] == a + c;
      KindsConcat(a, c, w);
    }
  }

  lemma {:induction false} KindsRename(ops: seq<Op>, wires: seq<nat>, w: nat)
    requires ValidOps(ops, |wires|) && Distinct(wires)
    ensures FirstKind(Rename(ops, wires), w) == if w in wires then FirstKind(ops, Index(wires, w)) else None
    ensures LastKind(Rename(ops, wires), w) == if w in wires then LastKind(ops, Index(wires, w)) else None
    decreases |ops|
  {
    if ops != [] {
      var k := |ops| - 1;
      KindsRename(ops[..k], wires, w);
      assert Rename(ops, wires)[..k] == Rename(ops[..k], wires);
      assert ValidOp(ops[k], |wires|);
      RenamedWire(ops[k], wires, w);
    }
  }

  lemma RenamedWire(op: Op, wires: seq<nat>, w: nat)
    requires ValidOp(op, |wires|) && Distinct(wires)
    ensures w in RenameOp(op, wires).wires <==> w in wires && Index(wires, w) in op.wires
  {
    var r := RenameOp(op, wires).wires;
    if w in r {
      var j :| 0 <= j < |r| && r[j] == w;
      assert wires[op.wires[j]] == w;
      assert Index(wires, w) == op.wires[j];
    }
    if w in wires && Index(wires, w) in op.wires {
      var j :| 0 <= j < |op.wires| && op.wires[j] == Index(wires, w);
      assert r[j] == w;
    }
  }

  ghost function InKind(b: Option<InAddr>): Option<Kind> {
    if b.None? then None else Some(b.value.gate.kind)
  }

  ghost function OutKind(a: Option<OutAddr>): Option<Kind> {
    if a.None? then None else Some(a.value.gate.kind)
  }

  /** The end ports of each wire belong to the first and the last gate put on it. */
  ghost predicate Labelled(n: Net) {
    && |n.first| == |n.last|
    && forall w :: 0 <= w < |n.first| ==> InKind(n.first[w]) == FirstKind(n.ops, w) && OutKind(n.last[w]) == LastKind(n.ops, w)
  }

  lemma EmptyLabelled(k: nat)
    ensures Labelled(EmptyNet(k))
  {
  }

  lemma GateLabelled(t: Gate)
    ensures Labelled(GateNet(t))
  {
    var n := GateNet(t);
    forall w | 0 <= w < |n.first| ensures InKind(n.first[w]) == FirstKind(n.ops, w) && OutKind(n.last[w]) == LastKind(n.ops, w) {
      KindsOfOne(n.ops[0], w);
      assert n.ops[0].wires[w] == w;
    }
  }

  lemma AppendLabelled(n: Net, m: Net, wires: seq<nat>)
    requires Fits(n, m, wires) && NetOk(n) && NetOk(m) && Labelled(n) && Labelled(m)
    ensures Labelled(AppendNet(n, m, wires))
  {
    var j := AppendNet(n, m, wires);
    hide NetOk, Connect, FirstKind, LastKind;
    forall w | 0 <= w < |j.first| ensures InKind(j.first[w]) == FirstKind(j.ops, w) && OutKind(j.last[w]) == LastKind(j.ops, w) {
      KindsConcat(n.ops, Rename(m.ops, wires), w);
      KindsRename(m.ops, wires, w);
    }
  }

  // ----- networks whose wires begin and end with compare-and-swap gates -----

  ghost predicate ComparesAtEnds(ops: seq<Op>, n: nat) {
    forall w: nat :: w < n ==> ComparesOnly(FirstKind(ops, w)) && ComparesOnly(LastKind(ops, w))
  }

  predicate ComparesOnly(k: Option<Kind>) {
    k.Some? ==> k.value == CompareAndSwap
  }

  /** Then no permutation gate has a free port. */
  lemma PermutationsConnected(n: Net)
    requires NetOk(n) && Labelled(n) && ComparesAtEnds(n.ops, |n.first|)
    ensures forall t :: t in n.g.gates && IsPermutation(t) ==> FullyConnected(n.g, t)
  {
    hide Computes, Realizable, Ordered, WellFormedKind, FirstKind, LastKind;
    forall t, i: nat | t in n.g.gates && IsPermutation(t) && i < Arity(t.kind)
      ensures InAddr(t, i) in n.g.bwd && OutAddr(t, i) in n.g.fwd
    {
      assert HasIn(n.g, InAddr(t, i)) && HasOut(n.g, OutAddr(t, i));
      NoPermutationEnds(n, t, i);
    }
  }

  lemma NoPermutationEnds(n: Net, t: Gate, i: nat)
    requires Ends(n) && Labelled(n) && ComparesAtEnds(n.ops, |n.first|) && IsPermutation(t)
    ensures InAddr(t, i) !in n.g.ins && OutAddr(t, i) !in n.g.outs
  {
    forall w | 0 <= w < |n.first| ensures n.first[w] != Some(InAddr(t, i)) && n.last[w] != Some(OutAddr(t, i)) {
      assert ComparesOnly(FirstKind(n.ops, w)) && ComparesOnly(LastKind(n.ops, w));
    }
  }
}
