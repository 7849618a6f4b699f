/** Removing permutation gates from a graph does not change what it computes. */
module Collapsing {
  import opened WireOps
  import opened Graphs

  /** Every connection goes from a lower to a higher gate. */
  ghost predicate Ranked(g: Graph, rank: Gate -> nat) {
    forall b :: b in g.bwd ==> rank(g.bwd[b].gate) < rank(b.gate)
  }

  ghost predicate Acyclic(g: Graph) {
    exists rank: Gate -> nat :: Ranked(g, rank)
  }

  ghost predicate FullyConnected(g: Graph, t: Gate) {
    forall i: nat :: i < Arity(t.kind) ==> InAddr(t, i) in g.bwd && OutAddr(t, i) in g.fwd
  }

  predicate IsPermutation(t: Gate) {
    t.kind.Permutation?
  }

  function Permute(t: Gate, i: nat): nat
    requires IsPermutation(t) && i < Arity(t.kind)
  {
    t.kind.perm[i]
  }

  /** The input port of a permutation gate that its output port j repeats. */
  ghost function Back(t: Gate, j: nat): (i: nat)
    requires IsPermutation(t) && WellFormedKind(t.kind) && j < Arity(t.kind)
    ensures i < Arity(t.kind) && Permute(t, i) == j
  {
    assert t.kind.perm[0..] == t.kind.perm;
    Unpermute(t.kind.perm, j, 0)
  }

  lemma BackOfPermute(t: Gate, i: nat)
    requires IsPermutation(t) && WellFormedKind(t.kind) && i < Arity(t.kind)
    ensures Permute(t, i) < Arity(t.kind) && Back(t, Permute(t, i)) == i
  {
    var k := Back(t, Permute(t, i));
    assert t.kind.perm[k] == t.kind.perm[i];
  }

  ghost predicate PermutationOf(g: Graph, p: Gate) {
    p in g.gates && IsPermutation(p) && WellFormedKind(p.kind) && FullyConnected(g, p)
  }

  // ----- one permutation gate -----

  /** Where b is connected to once the first i wires of p have been joined through. */
  ghost function Source(g: Graph, p: Gate, i: nat, b: InAddr): OutAddr
    requires WF(g) && PermutationOf(g, p) && b in g.bwd
  {
    var a := g.bwd[b];
    assert HasOut(g, a) by { assert g.bwd[b] in g.fwd; }
    if a.gate == p && Back(p, a.port) < i then g.bwd[InAddr(p, Back(p, a.port))] else a
  }

  /** The first i wires of p have been joined through. */
  ghost predicate Spliced(g: Graph, p: Gate, i: nat, h: Graph)
    requires WF(g) && PermutationOf(g, p)
  {
    && WF(h) && h.gates == g.gates
    && (forall b :: b in h.bwd <==> b in g.bwd && !(b.gate == p && b.port < i))
    && (forall b :: b in h.bwd ==> h.bwd[b] == Source(g, p, i, b))
  }

  lemma SplicedNone(g: Graph, p: Gate)
    requires WF(g) && PermutationOf(g, p)
    ensures Spliced(g, p, 0, g)
  {
  }

  /** What is on both sides of wire i of p after joining the wires before it. */
  lemma SpliceEnds(g: Graph, p: Gate, rank: Gate -> nat, i: nat, h: Graph) returns (from: OutAddr, to: InAddr)
    requires WF(g) && PermutationOf(g, p) && Ranked(g, rank) && i < Arity(p.kind) && Spliced(g, p, i, h)
    ensures InAddr(p, i) in h.bwd && h.bwd[InAddr(p, i)] == from == g.bwd[InAddr(p, i)] && from.gate != p
    ensures OutAddr(p, Permute(p, i)) in h.fwd && h.fwd[OutAddr(p, Permute(p, i))] == to && to.gate != p
    ensures to in g.bwd && g.bwd[to] == OutAddr(p, Permute(p, i))
    ensures HasOut(h, from) && HasIn(h, to)
  {
    BackOfPermute(p, i);
    hide WellFormedKind, Unconnected;
    from := g.bwd[InAddr(p, i)];
    var out := OutAddr(p, Permute(p, i));
    assert out in g.fwd;
    to := g.fwd[out];
    assert to in g.bwd && g.bwd[to] == out;
    assert rank(g.bwd[InAddr(p, i)].gate) < rank(p) < rank(to.gate);
    assert to in h.bwd && h.bwd[to] == out;
    assert h.fwd[h.bwd[to]] == to;
    assert HasOut(h, from) by { assert h.bwd[InAddr(p, i)] in h.fwd; }
  }

  /** Joining wire i through is what AddConnection does with the two counterparties. */
  lemma SpliceStep(g: Graph, p: Gate, rank: Gate -> nat, i: nat, h: Graph)
    requires WF(g) && PermutationOf(g, p) && Ranked(g, rank) && i < Arity(p.kind) && Spliced(g, p, i, h)
    ensures InAddr(p, i) in h.bwd && Permute(p, i) < Arity(p.kind) && OutAddr(p, Permute(p, i)) in h.fwd
    ensures Spliced(g, p, i + 1, AddConnection(h, Connection(h.bwd[InAddr(p, i)], h.fwd[OutAddr(p, Permute(p, i))])))
  {
    var from, to := SpliceEnds(g, p, rank, i, h);
    var c := Connection(from, to);
    var n := AddConnection(h, c);
    BackOfPermute(p, i);
    AddConnectionWF(h, c);
    SplicedKeeps(g, p, i, h);
    SplicedThrough(g, p, i, h, from, to);
    hide *;
    SplicedIntro(g, p, i + 1, n);
  }

  lemma SplicedKeeps(g: Graph, p: Gate, i: nat, h: Graph)
    requires WF(g) && PermutationOf(g, p) && Spliced(g, p, i, h)
    ensures WF(h) && h.gates == g.gates
  {
  }

  lemma SplicedIntro(g: Graph, p: Gate, i: nat, n: Graph)
    requires WF(g) && PermutationOf(g, p) && WF(n) && n.gates == g.gates
    requires forall b :: b in n.bwd <==> b in g.bwd && !(b.gate == p && b.port < i)
    requires forall b :: b in n.bwd ==> n.bwd[b] == Source(g, p, i, b)
    ensures Spliced(g, p, i, n)
  {
    hide WF, Source, PermutationOf;
  }

  lemma SplicedThrough(g: Graph, p: Gate, i: nat, h: Graph, from: OutAddr, to: InAddr)
    requires WF(g) && PermutationOf(g, p) && i < Arity(p.kind) && Spliced(g, p, i, h)
    requires InAddr(p, i) in h.bwd && h.bwd[InAddr(p, i)] == from == g.bwd[InAddr(p, i)] && from.gate != p
    requires to in g.bwd && g.bwd[to] == OutAddr(p, Permute(p, i)) && to.gate != p
    ensures var n := AddConnection(h, Connection(from, to));
      (forall b :: b in n.bwd <==> b in g.bwd && !(b.gate == p && b.port < i + 1)) &&
      (forall b :: b in n.bwd ==> n.bwd[b] == Source(g, p, i + 1, b))
  {
    var n := AddConnection(h, Connection(from, to));
    var next := i + 1;
    hide WF, AddConnection, Source, Spliced, PermutationOf;
    forall b ensures (b in n.bwd <==> b in g.bwd && !(b.gate == p && b.port < next))
      && (b in n.bwd ==> n.bwd[b] == Source(g, p, next, b))
    {
      SplicedSource(g, p, i, h, from, to, b);
    }
  }

  lemma SplicedSource(g: Graph, p: Gate, i: nat, h: Graph, from: OutAddr, to: InAddr, b: InAddr)
    requires WF(g) && PermutationOf(g, p) && i < Arity(p.kind) && Spliced(g, p, i, h)
    requires InAddr(p, i) in h.bwd && h.bwd[InAddr(p, i)] == from == g.bwd[InAddr(p, i)] && from.gate != p
    requires to in g.bwd && g.bwd[to] == OutAddr(p, Permute(p, i)) && to.gate != p
    ensures var n := AddConnection(h, Connection(from, to));
      (b in n.bwd <==> b in g.bwd && !(b.gate == p && b.port < i + 1)) &&
      (b in n.bwd ==> n.bwd[b] == Source(g, p, i + 1, b))
  {
    AddConnectionBackward(h, Connection(from, to), b);
    BackOfPermute(p, i);
    hide AddConnection, WellFormedKind, Unconnected, HasIn, HasOut;
    if b in h.bwd {
      assert h.bwd[b] == from <==> b == InAddr(p, i) by {
        assert h.fwd[h.bwd[b]] == b;
      }
      if b != to && g.bwd[b].gate == p {
        assert g.fwd[g.bwd[b]] == b && g.fwd[g.bwd[to]] == to;
        assert Permute(p, Back(p, g.bwd[b].port)) == g.bwd[b].port by { assert HasOutPort(g, b); }
        assert Back(p, g.bwd[b].port) != i;
      }
    }
  }

  ghost predicate HasOutPort(g: Graph, b: InAddr)
    requires b in g.bwd
  {
    HasOut(g, g.bwd[b])
  }

  /** h is g without p, what p permuted being connected directly. */
  ghost predicate Bypassed(g: Graph, p: Gate, h: Graph)
    requires WF(g) && PermutationOf(g, p)
  {
    && WF(h) && h.gates == g.gates - {p} && h.ins == g.ins && h.outs == g.outs
    && (forall b :: b in h.bwd <==> b in g.bwd && b.gate != p)
    && (forall b :: b in h.bwd ==> h.bwd[b] == Source(g, p, Arity(p.kind), b))
  }

  /** When all wires are joined through, no port of p is connected, and the gate can be removed. */
  lemma SplicedAll(g: Graph, p: Gate, rank: Gate -> nat, h: Graph)
    requires WF(g) && PermutationOf(g, p) && Ranked(g, rank) && Spliced(g, p, Arity(p.kind), h)
    ensures forall i :: 0 <= i < Arity(p.kind) ==> InAddr(p, i) !in h.bwd
    ensures forall j :: 0 <= j < Arity(p.kind) ==> OutAddr(p, j) !in h.fwd
    ensures Bypassed(g, p, Without(h, p))
  {
    NothingAt(g, p, rank, h);
    SplicedKeeps(g, p, Arity(p.kind), h);
    WithoutWF(h, p);
    WithoutPorts(g, p, rank, h);
    hide WF, Source, WellFormedKind, Spliced, PermutationOf, InSet, OutSet;
    BypassedIntro(g, p, h);
  }

  lemma BypassedIntro(g: Graph, p: Gate, h: Graph)
    requires WF(g) && PermutationOf(g, p) && Spliced(g, p, Arity(p.kind), h)
    requires forall b :: b in h.bwd ==> b.gate != p
    requires WF(Without(h, p)) && Without(h, p).ins == g.ins && Without(h, p).outs == g.outs
    ensures Bypassed(g, p, Without(h, p))
  {
    hide Source, PermutationOf, Unconnected, WellFormedKind, HasOut, InSet, OutSet;
    assert forall b :: b in g.bwd ==> HasIn(g, b);
  }

  lemma NothingAt(g: Graph, p: Gate, rank: Gate -> nat, h: Graph)
    requires WF(g) && PermutationOf(g, p) && Ranked(g, rank) && Spliced(g, p, Arity(p.kind), h)
    ensures forall b :: b in h.bwd ==> b.gate != p && h.bwd[b].gate != p
    ensures forall a :: a in h.fwd ==> a.gate != p
  {
    hide WellFormedKind, Source, Unconnected, PermutationOf;
    forall b | b in h.bwd ensures b.gate != p && h.bwd[b].gate != p {
      SplicedAvoids(g, p, rank, h, b);
    }
    forall a | a in h.fwd ensures a.gate != p {
      assert h.fwd[a] in h.bwd && h.bwd[h.fwd[a]] == a;
    }
  }

  lemma SplicedAvoids(g: Graph, p: Gate, rank: Gate -> nat, h: Graph, b: InAddr)
    requires WF(g) && PermutationOf(g, p) && Ranked(g, rank) && Spliced(g, p, Arity(p.kind), h) && b in h.bwd
    ensures b.gate != p && h.bwd[b].gate != p
  {
    hide WellFormedKind, Unconnected;
    assert HasIn(h, b);
    if g.bwd[b].gate == p {
      assert HasOut(g, g.bwd[b]);
      var i := Back(p, g.bwd[b].port);
      assert rank(g.bwd[InAddr(p, i)].gate) < rank(p);
    }
  }

  lemma WithoutWF(h: Graph, p: Gate)
    requires WF(h)
    requires forall b :: b in h.bwd ==> b.gate != p && h.bwd[b].gate != p
    ensures WF(Without(h, p))
  {
    var n := Without(h, p);
    hide WellFormedKind;
    forall a | a in n.fwd ensures HasOut(n, a) && n.fwd[a] in n.bwd && n.bwd[n.fwd[a]] == a { }
    forall b | b in n.bwd ensures HasIn(n, b) && n.bwd[b] in n.fwd && n.fwd[n.bwd[b]] == b { }
    forall b ensures b in n.ins <==> HasIn(n, b) && b !in n.bwd {
      assert b in InSet(p, Arity(p.kind)) <==> b.gate == p && b.port < Arity(p.kind) by {
        assert b == InAddr(b.gate, b.port);
      }
    }
    forall a ensures a in n.outs <==> HasOut(n, a) && a !in n.fwd {
      assert a in OutSet(p, Arity(p.kind)) <==> a.gate == p && a.port < Arity(p.kind) by {
        assert a == OutAddr(a.gate, a.port);
      }
    }
  }

  lemma WithoutPorts(g: Graph, p: Gate, rank: Gate -> nat, h: Graph)
    requires WF(g) && Ranked(g, rank) && PermutationOf(g, p) && Spliced(g, p, Arity(p.kind), h) && WF(Without(h, p))
    requires forall b :: b in h.bwd ==> b.gate != p && h.bwd[b].gate != p
    ensures Without(h, p).ins == g.ins && Without(h, p).outs == g.outs
  {
    var n := Without(h, p);
    hide WellFormedKind, Source;
    forall b ensures b in n.ins <==> b in g.ins {
      assert HasIn(n, b) <==> HasIn(g, b) && b.gate != p;
      assert b in g.ins && b.gate == p ==> InAddr(p, b.port) in g.bwd;
    }
    forall a ensures a in n.outs <==> a in g.outs {
      assert HasOut(n, a) <==> HasOut(g, a) && a.gate != p;
      assert a in g.outs && a.gate == p ==> OutAddr(p, a.port) in g.fwd;
      if a.gate != p { SplicedForward(g, p, rank, h, a); }
    }
  }

  /** Other outputs stay connected. */
  lemma SplicedForward(g: Graph, p: Gate, rank: Gate -> nat, h: Graph, a: OutAddr)
    requires WF(g) && PermutationOf(g, p) && Ranked(g, rank) && Spliced(g, p, Arity(p.kind), h) && a.gate != p
    ensures a in h.fwd <==> a in g.fwd
  {
    hide WF, Spliced, Ranked, Source, WellFormedKind;
    if a in h.fwd { StillForward(g, p, h, a); }
    if a in g.fwd { KeptForward(g, p, rank, h, a); }
  }

  lemma StillForward(g: Graph, p: Gate, h: Graph, a: OutAddr)
    requires WF(g) && PermutationOf(g, p) && Spliced(g, p, Arity(p.kind), h) && a in h.fwd
    ensures a in g.fwd
  {
    hide WellFormedKind, Unconnected;
    var b := h.fwd[a];
    assert b in h.bwd && h.bwd[b] == a;
    assert HasOut(g, g.bwd[b]) by { assert g.bwd[b] in g.fwd; }
    if g.bwd[b].gate == p {
      assert g.bwd[InAddr(p, Back(p, g.bwd[b].port))] in g.fwd;
    }
  }

  lemma KeptForward(g: Graph, p: Gate, rank: Gate -> nat, h: Graph, a: OutAddr)
    requires WF(g) && PermutationOf(g, p) && Ranked(g, rank) && Spliced(g, p, Arity(p.kind), h) && a.gate != p && a in g.fwd
    ensures a in h.fwd
  {
    var b := g.fwd[a];
    assert b in g.bwd && g.bwd[b] == a && HasIn(g, b);
    if b.gate == p {
      BackOfPermute(p, b.port);
      var out := OutAddr(p, Permute(p, b.port));
      assert out in g.fwd;
      b := g.fwd[out];
      assert b in g.bwd && g.bwd[b] == out && rank(p) < rank(b.gate);
    }
    hide WellFormedKind, Unconnected;
    assert b in h.bwd && h.bwd[b] == a && h.bwd[b] in h.fwd;
  }

  // ----- the meaning is kept -----

  /** Each evaluation of g evaluates h, and each evaluation of h extends to one of g. */
  ghost predicate SameMeaning(g: Graph, h: Graph) {
    && h.gates <= g.gates && h.ins == g.ins && h.outs == g.outs
    && (forall v: Ins, w: Outs :: Consistent(g, v, w) ==> Consistent(h, v, w))
    && (forall v: Ins, w: Outs :: Consistent(h, v, w) ==> Extends(g, h, v, w))
  }

  ghost predicate Extends(g: Graph, h: Graph, v: Ins, w: Outs) {
    exists v': Ins, w': Outs :: Consistent(g, v', w') && AgreeOn(h, v, w, v', w')
  }

  ghost predicate AgreeOn(h: Graph, v: Ins, w: Outs, v': Ins, w': Outs) {
    && (forall b: InAddr :: b.gate in h.gates ==> v(b) == v'(b))
    && (forall a: OutAddr :: a.gate in h.gates ==> w(a) == w'(a))
  }

  /** The value that p forwards to b. */
  lemma Forwarded(g: Graph, p: Gate, v: Ins, w: Outs, b: InAddr)
    requires WF(g) && PermutationOf(g, p) && b in g.bwd
    requires GateHolds(p, v, w) && v(b) == w(g.bwd[b])
    requires forall i: nat :: i < Arity(p.kind) ==> v(InAddr(p, i)) == w(g.bwd[InAddr(p, i)])
    ensures v(b) == w(Source(g, p, Arity(p.kind), b))
  {
    assert HasOut(g, g.bwd[b]) by { assert g.bwd[b] in g.fwd; }
    if g.bwd[b].gate == p {
      var j := g.bwd[b].port;
      assert w(OutAddr(p, j)) == Output(p.kind, GateInputs(p, v), j);
    }
  }

  lemma BypassedForward(g: Graph, p: Gate, h: Graph, v: Ins, w: Outs)
    requires WF(g) && PermutationOf(g, p) && Bypassed(g, p, h) && Consistent(g, v, w)
    ensures Consistent(h, v, w)
  {
    assert GateHolds(p, v, w);
    hide WF, Source, GateHolds;
    forall b | b in h.bwd ensures v(b) == w(h.bwd[b]) {
      Forwarded(g, p, v, w, b);
    }
  }

  /** Label the ports of p with what comes in. */
  lemma BypassedBackward(g: Graph, p: Gate, rank: Gate -> nat, h: Graph, v: Ins, w: Outs)
    requires WF(g) && PermutationOf(g, p) && Ranked(g, rank) && Bypassed(g, p, h) && Consistent(h, v, w)
    ensures Extends(g, h, v, w)
  {
    var v', w' := InsWith(g, p, v, w), OutsWith(g, p, v, w);
    hide *;
    LabelsMatch(g, p, v, w);
    RankedAhead(g, p, rank);
    ExtendedConsistent(g, p, h, v, w, v', w');
    ExtendsIntro(g, h, v, w, v', w');
  }

  ghost function InsWith(g: Graph, p: Gate, v: Ins, w: Outs): Ins {
    (b: InAddr) => if b.gate == p && b in g.bwd then w(g.bwd[b]) else v(b)
  }

  ghost function OutsWith(g: Graph, p: Gate, v: Ins, w: Outs): Outs
    requires PermutationOf(g, p)
  {
    (a: OutAddr) => if a.gate == p && a.port < Arity(p.kind) then InsWith(g, p, v, w)(InAddr(p, Back(p, a.port))) else w(a)
  }

  lemma LabelsMatch(g: Graph, p: Gate, v: Ins, w: Outs)
    requires PermutationOf(g, p)
    ensures Relabelled(g, p, v, w, InsWith(g, p, v, w), OutsWith(g, p, v, w))
  {
    hide Back, WellFormedKind;
  }

  lemma RankedAhead(g: Graph, p: Gate, rank: Gate -> nat)
    requires PermutationOf(g, p) && Ranked(g, rank)
    ensures Ahead(g, p)
  {
    forall i: nat | i < Arity(p.kind) ensures g.bwd[InAddr(p, i)].gate != p {
      assert rank(g.bwd[InAddr(p, i)].gate) < rank(p);
    }
  }

  lemma ExtendsIntro(g: Graph, h: Graph, v: Ins, w: Outs, v': Ins, w': Outs)
    requires Consistent(g, v', w') && AgreeOn(h, v, w, v', w')
    ensures Extends(g, h, v, w)
  {
    hide Consistent, AgreeOn;
  }

  lemma ExtendedConsistent(g: Graph, p: Gate, h: Graph, v: Ins, w: Outs, v': Ins, w': Outs)
    requires WF(g) && PermutationOf(g, p) && Ahead(g, p) && Bypassed(g, p, h)
    requires Consistent(h, v, w) && Relabelled(g, p, v, w, v', w')
    ensures Consistent(g, v', w') && AgreeOn(h, v, w, v', w')
  {
    ExtendedGates(g, p, h, v, w, v', w');
    assert AgreeOn(h, v, w, v', w') by { hide Back, WF, WellFormedKind; }
    hide WF, PermutationOf, GateHolds, Bypassed, Relabelled, AgreeOn;
    forall b | b in g.bwd ensures v'(b) == w'(g.bwd[b]) {
      ExtendedConnection(g, p, h, v, w, v', w', b);
    }
  }

  /** p is not connected to itself. */
  ghost predicate Ahead(g: Graph, p: Gate)
    requires PermutationOf(g, p)
  {
    forall i: nat :: i < Arity(p.kind) ==> g.bwd[InAddr(p, i)].gate != p
  }

  ghost predicate Relabelled(g: Graph, p: Gate, v: Ins, w: Outs, v': Ins, w': Outs)
    requires PermutationOf(g, p)
  {
    && (forall b: InAddr :: v'(b) == if b.gate == p && b in g.bwd then w(g.bwd[b]) else v(b))
    && (forall a: OutAddr :: w'(a) == if a.gate == p && a.port < Arity(p.kind) then v'(InAddr(p, Back(p, a.port))) else w(a))
  }

  lemma ExtendedGates(g: Graph, p: Gate, h: Graph, v: Ins, w: Outs, v': Ins, w': Outs)
    requires WF(g) && PermutationOf(g, p) && Bypassed(g, p, h) && Consistent(h, v, w) && Relabelled(g, p, v, w, v', w')
    ensures forall t :: t in g.gates ==> GateHolds(t, v', w')
  {
    hide WF, Back, WellFormedKind;
    forall t | t in g.gates ensures GateHolds(t, v', w') {
      if t == p {
        PermutationHolds(g, p, v, w, v', w');
      } else {
        assert GateHolds(t, v, w);
        assert GateInputs(t, v') == GateInputs(t, v);
      }
    }
  }

  lemma PermutationHolds(g: Graph, p: Gate, v: Ins, w: Outs, v': Ins, w': Outs)
    requires PermutationOf(g, p) && Relabelled(g, p, v, w, v', w')
    ensures GateHolds(p, v', w')
  {
    forall j | 0 <= j < Arity(p.kind) ensures w'(OutAddr(p, j)) == Output(p.kind, GateInputs(p, v'), j) {
      assert GateInputs(p, v')[Back(p, j)] == v'(InAddr(p, Back(p, j)));
    }
  }

  lemma ExtendedConnection(g: Graph, p: Gate, h: Graph, v: Ins, w: Outs, v': Ins, w': Outs, b: InAddr)
    requires WF(g) && PermutationOf(g, p) && Ahead(g, p) && Bypassed(g, p, h)
    requires Consistent(h, v, w) && Relabelled(g, p, v, w, v', w') && b in g.bwd
    ensures v'(b) == w'(g.bwd[b])
  {
    assert IsPermutation(p) && WellFormedKind(p.kind);
    hide *;
    var a := g.bwd[b];
    PortsOf(g, b);
    if b.gate == p {
      AheadOf(g, p, b);
      LabelOf(g, p, v, w, v', w', b, a);
    } else {
      DirectlyFed(g, p, h, v, w, b);
      SourceIs(g, p, b);
      if a.gate == p {
        var c := InAddr(p, Back(p, a.port));
        LabelOf(g, p, v, w, v', w', b, a);
        LabelOf(g, p, v, w, v', w', c, a);
      } else {
        LabelOf(g, p, v, w, v', w', b, a);
      }
    }
  }

  lemma AheadOf(g: Graph, p: Gate, b: InAddr)
    requires PermutationOf(g, p) && Ahead(g, p) && b.gate == p && b.port < Arity(p.kind)
    ensures b in g.bwd && g.bwd[b].gate != p
  {
    hide WellFormedKind;
    assert b == InAddr(p, b.port);
  }

  lemma SourceIs(g: Graph, p: Gate, b: InAddr)
    requires WF(g) && PermutationOf(g, p) && b in g.bwd && (g.bwd[b].gate == p ==> g.bwd[b].port < Arity(p.kind))
    ensures var a := g.bwd[b];
      if a.gate == p then
        InAddr(p, Back(p, a.port)) in g.bwd && Source(g, p, Arity(p.kind), b) == g.bwd[InAddr(p, Back(p, a.port))]
      else Source(g, p, Arity(p.kind), b) == a
  {
    hide WF, WellFormedKind;
  }

  lemma LabelOf(g: Graph, p: Gate, v: Ins, w: Outs, v': Ins, w': Outs, b: InAddr, a: OutAddr)
    requires PermutationOf(g, p) && Relabelled(g, p, v, w, v', w')
    ensures v'(b) == if b.gate == p && b in g.bwd then w(g.bwd[b]) else v(b)
    ensures w'(a) == if a.gate == p && a.port < Arity(p.kind) then v'(InAddr(p, Back(p, a.port))) else w(a)
  {
    hide Back, PermutationOf;
  }

  lemma PortsOf(g: Graph, b: InAddr)
    requires WF(g) && b in g.bwd
    ensures b.gate in g.gates && b.port < Arity(b.gate.kind)
    ensures g.bwd[b].gate in g.gates && g.bwd[b].port < Arity(g.bwd[b].gate.kind)
  {
    hide WellFormedKind, Unconnected;
    assert HasIn(g, b) && HasOut(g, g.bwd[b]) by { assert g.bwd[b] in g.fwd; }
  }

  lemma DirectlyFed(g: Graph, p: Gate, h: Graph, v: Ins, w: Outs, b: InAddr)
    requires WF(g) && PermutationOf(g, p) && Bypassed(g, p, h) && Consistent(h, v, w) && b in g.bwd && b.gate != p
    ensures v(b) == w(Source(g, p, Arity(p.kind), b))
  {
    hide WF, WellFormedKind, Source, GateHolds;
    assert b in h.bwd;
    assert v(b) == w(h.bwd[b]);
  }

  lemma BypassedMeaning(g: Graph, p: Gate, rank: Gate -> nat, h: Graph)
    requires WF(g) && PermutationOf(g, p) && Ranked(g, rank) && Bypassed(g, p, h)
    ensures SameMeaning(g, h)
  {
    hide Consistent, WF, Extends;
    forall v: Ins, w: Outs | Consistent(g, v, w) ensures Consistent(h, v, w) {
      BypassedForward(g, p, h, v, w);
    }
    forall v: Ins, w: Outs | Consistent(h, v, w) ensures Extends(g, h, v, w) {
      BypassedBackward(g, p, rank, h, v, w);
    }
  }

  /** The same ranking still works, and the other permutation gates stay fully connected. */
  lemma BypassedRanked(g: Graph, p: Gate, rank: Gate -> nat, h: Graph)
    requires WF(g) && PermutationOf(g, p) && Ranked(g, rank) && Bypassed(g, p, h)
    ensures Ranked(h, rank)
  {
    hide WellFormedKind, Unconnected;
    forall b | b in h.bwd ensures rank(h.bwd[b].gate) < rank(b.gate) {
      assert HasOut(g, g.bwd[b]) by { assert g.bwd[b] in g.fwd; }
      if g.bwd[b].gate == p {
        assert rank(g.bwd[InAddr(p, Back(p, g.bwd[b].port))].gate) < rank(p);
      }
    }
  }

  lemma BypassedOthers(g: Graph, p: Gate, h: Graph, q: Gate)
    requires WF(g) && PermutationOf(g, p) && Bypassed(g, p, h) && PermutationOf(g, q) && q != p
    ensures PermutationOf(h, q)
  {
    hide WellFormedKind, Inverse;
    forall i: nat | i < Arity(q.kind) ensures InAddr(q, i) in h.bwd && OutAddr(q, i) in h.fwd {
      assert HasOut(h, OutAddr(q, i));
    }
  }

  lemma SameMeaningSelf(g: Graph)
    ensures SameMeaning(g, g)
  {
    forall v: Ins, w: Outs | Consistent(g, v, w) ensures Extends(g, g, v, w) {
      assert AgreeOn(g, v, w, v, w);
    }
  }

  lemma SameMeaningThen(g: Graph, h: Graph, k: Graph)
    requires SameMeaning(g, h) && SameMeaning(h, k)
    ensures SameMeaning(g, k)
  {
    hide Consistent, Extends, AgreeOn;
    forall v: Ins, w: Outs | Consistent(k, v, w) ensures Extends(g, k, v, w) {
      ExtendsThen(g, h, k, v, w);
    }
  }

  lemma ExtendsThen(g: Graph, h: Graph, k: Graph, v: Ins, w: Outs)
    requires SameMeaning(g, h) && SameMeaning(h, k) && Extends(h, k, v, w)
    ensures Extends(g, k, v, w)
  {
    hide Consistent;
    var v1: Ins, w1: Outs :| Consistent(h, v1, w1) && AgreeOn(k, v, w, v1, w1);
    assert Extends(g, h, v1, w1);
    var v2: Ins, w2: Outs :| Consistent(g, v2, w2) && AgreeOn(h, v1, w1, v2, w2);
    assert k.gates <= h.gates;
    hide SameMeaning, Extends, AgreeOn;
    AgreeThen(h, k, v, w, v1, w1, v2, w2);
    ExtendsIntro(g, k, v, w, v2, w2);
  }

  lemma AgreeThen(h: Graph, k: Graph, v: Ins, w: Outs, v1: Ins, w1: Outs, v2: Ins, w2: Outs)
    requires k.gates <= h.gates && AgreeOn(k, v, w, v1, w1) && AgreeOn(h, v1, w1, v2, w2)
    ensures AgreeOn(k, v, w, v2, w2)
  {
  }
}
