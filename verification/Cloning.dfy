/** Copying a graph onto new gates: the copy has the same connections and computes the same. */
module Cloning {
  import opened Options
  import opened WireOps
  import opened Graphs
  import opened NetworkTheory

  /** Each gate has its own copy, of the same kind. */
  ghost predicate Copies(gates: set<Gate>, m: map<Gate, Gate>) {
    && m.Keys == gates
    && (forall t :: t in gates ==> m[t].kind == t.kind)
    && (forall s, t :: s in gates && t in gates && m[s] == m[t] ==> s == t)
  }

  function CopyIn(m: map<Gate, Gate>, b: InAddr): InAddr {
    if b.gate in m then InAddr(m[b.gate], b.port) else b
  }

  function CopyOut(m: map<Gate, Gate>, a: OutAddr): OutAddr {
    if a.gate in m then OutAddr(m[a.gate], a.port) else a
  }

  function CopyIns(m: map<Gate, Gate>, s: set<InAddr>): (r: set<InAddr>)
    ensures forall b :: b in s ==> CopyIn(m, b) in r
    ensures forall c :: c in r ==> exists b :: b in s && CopyIn(m, b) == c
  {
    set b | b in s :: CopyIn(m, b)
  }

  function CopyOuts(m: map<Gate, Gate>, s: set<OutAddr>): (r: set<OutAddr>)
    ensures forall a :: a in s ==> CopyOut(m, a) in r
    ensures forall c :: c in r ==> exists a :: a in s && CopyOut(m, a) == c
  {
    set a | a in s :: CopyOut(m, a)
  }

  function CopyGates(m: map<Gate, Gate>, s: set<Gate>): (r: set<Gate>)
    ensures forall t :: t in s && t in m ==> m[t] in r
    ensures forall c :: c in r ==> exists t :: t in s && t in m && m[t] == c
  {
    set t | t in s && t in m :: m[t]
  }

  ghost predicate InCopied(m: map<Gate, Gate>, done: set<InAddr>, c: InAddr) {
    exists b :: b in done && CopyIn(m, b) == c
  }

  ghost predicate OutCopied(g: Graph, m: map<Gate, Gate>, done: set<InAddr>, c: OutAddr)
    requires done <= g.bwd.Keys
  {
    exists b :: b in done && CopyOut(m, g.bwd[b]) == c
  }

  lemma MoreCopied(g: Graph, m: map<Gate, Gate>, done: set<InAddr>, b: InAddr)
    requires done <= g.bwd.Keys && b in g.bwd
    ensures forall c :: InCopied(m, done, c) || c == CopyIn(m, b) ==> InCopied(m, done + {b}, c)
    ensures forall c :: OutCopied(g, m, done, c) || c == CopyOut(m, g.bwd[b]) ==> OutCopied(g, m, done + {b}, c)
  {
    hide CopyIn, CopyOut;
    forall c | InCopied(m, done, c) || c == CopyIn(m, b) ensures InCopied(m, done + {b}, c) {
      if InCopied(m, done, c) {
        var d :| d in done && CopyIn(m, d) == c;
        assert d in done + {b};
      } else {
        assert b in done + {b};
      }
    }
    forall c | OutCopied(g, m, done, c) || c == CopyOut(m, g.bwd[b]) ensures OutCopied(g, m, done + {b}, c) {
      if OutCopied(g, m, done, c) {
        var d :| d in done && CopyOut(m, g.bwd[d]) == c;
        assert d in done + {b};
      } else {
        assert b in done + {b};
      }
    }
  }

  /** The connections of g whose inputs are done have been copied. */
  ghost predicate CopiedConnections(g: Graph, m: map<Gate, Gate>, done: set<InAddr>, fwd: map<OutAddr, InAddr>, bwd: map<InAddr, OutAddr>) {
    && done <= g.bwd.Keys
    && (forall b :: b in done ==> CopyIn(m, b) in bwd && bwd[CopyIn(m, b)] == CopyOut(m, g.bwd[b]))
    && (forall c :: c in bwd ==> InCopied(m, done, c))
    && (forall b :: b in done ==> CopyOut(m, g.bwd[b]) in fwd && fwd[CopyOut(m, g.bwd[b])] == CopyIn(m, b))
    && (forall c :: c in fwd ==> OutCopied(g, m, done, c))
  }

  ghost predicate Cloned(g: Graph, h: Graph, m: map<Gate, Gate>) {
    && Copies(g.gates, m) && h.gates == CopyGates(m, g.gates)
    && h.ins == CopyIns(m, g.ins) && h.outs == CopyOuts(m, g.outs)
    && CopiedConnections(g, m, g.bwd.Keys, h.fwd, h.bwd)
  }

  lemma CopyInInjective(gates: set<Gate>, m: map<Gate, Gate>, b: InAddr, c: InAddr)
    requires Copies(gates, m) && b.gate in gates && c.gate in gates && CopyIn(m, b) == CopyIn(m, c)
    ensures b == c
  {
  }

  lemma CopyOutInjective(gates: set<Gate>, m: map<Gate, Gate>, a: OutAddr, c: OutAddr)
    requires Copies(gates, m) && a.gate in gates && c.gate in gates && CopyOut(m, a) == CopyOut(m, c)
    ensures a == c
  {
  }

  lemma BothEnds(g: Graph, b: InAddr)
    requires WF(g) && b in g.bwd
    ensures HasIn(g, b) && HasOut(g, g.bwd[b]) && g.bwd[b] in g.fwd && g.fwd[g.bwd[b]] == b
  {
    hide WellFormedKind;
  }

  lemma CopyOneConnection(g: Graph, m: map<Gate, Gate>, done: set<InAddr>, fwd: map<OutAddr, InAddr>, bwd: map<InAddr, OutAddr>, b: InAddr)
    requires WF(g) && Copies(g.gates, m) && CopiedConnections(g, m, done, fwd, bwd) && b in g.bwd && b !in done
    ensures var c, a := CopyIn(m, b), CopyOut(m, g.bwd[b]);
      CopiedConnections(g, m, done + {b}, fwd[a := c], bwd[c := a])
  {
    hide WF, Copies, CopyIn, CopyOut, InCopied, OutCopied;
    var c, a := CopyIn(m, b), CopyOut(m, g.bwd[b]);
    forall d | d in done ensures CopyIn(m, d) != c && CopyOut(m, g.bwd[d]) != a {
      DifferentCopies(g, m, b, d);
    }
    MoreCopied(g, m, done, b);
  }

  lemma DifferentCopies(g: Graph, m: map<Gate, Gate>, b: InAddr, d: InAddr)
    requires WF(g) && Copies(g.gates, m) && b in g.bwd && d in g.bwd && b != d
    ensures CopyIn(m, b) != CopyIn(m, d) && CopyOut(m, g.bwd[b]) != CopyOut(m, g.bwd[d])
  {
    hide WF;
    BothEnds(g, b);
    BothEnds(g, d);
    if CopyIn(m, b) == CopyIn(m, d) { CopyInInjective(g.gates, m, b, d); }
    if CopyOut(m, g.bwd[b]) == CopyOut(m, g.bwd[d]) { CopyOutInjective(g.gates, m, g.bwd[b], g.bwd[d]); }
  }

  // ----- the copy is well formed -----

  /** The original of a copied port. */
  lemma OriginalIn(g: Graph, h: Graph, m: map<Gate, Gate>, c: InAddr) returns (b: InAddr)
    requires Cloned(g, h, m) && c.gate in h.gates
    ensures b.gate in g.gates && b.port == c.port && CopyIn(m, b) == c && b.gate.kind == c.gate.kind
  {
    hide CopiedConnections, CopyIns, CopyOuts;
    var t :| t in g.gates && t in m && m[t] == c.gate;
    b := InAddr(t, c.port);
  }

  lemma OriginalOut(g: Graph, h: Graph, m: map<Gate, Gate>, c: OutAddr) returns (a: OutAddr)
    requires Cloned(g, h, m) && c.gate in h.gates
    ensures a.gate in g.gates && a.port == c.port && CopyOut(m, a) == c && a.gate.kind == c.gate.kind
  {
    hide CopiedConnections, CopyIns, CopyOuts;
    var t :| t in g.gates && t in m && m[t] == c.gate;
    a := OutAddr(t, c.port);
  }

  /** What holds of a port holds of its copy. */
  lemma CopiedIn(g: Graph, h: Graph, m: map<Gate, Gate>, b: InAddr)
    requires WF(g) && Cloned(g, h, m) && b.gate in g.gates
    ensures CopyIn(m, b).gate in h.gates && (HasIn(h, CopyIn(m, b)) <==> HasIn(g, b))
    ensures CopyIn(m, b) in h.ins <==> b in g.ins
    ensures CopyIn(m, b) in h.bwd <==> b in g.bwd
    ensures b in g.bwd ==> h.bwd[CopyIn(m, b)] == CopyOut(m, g.bwd[b])
  {
    hide WellFormedKind, Inverse, CopyOuts;
    if CopyIn(m, b) in h.ins {
      var c :| c in g.ins && CopyIn(m, c) == CopyIn(m, b);
      assert HasIn(g, c);
      CopyInInjective(g.gates, m, b, c);
    }
    if CopyIn(m, b) in h.bwd {
      assert InCopied(m, g.bwd.Keys, CopyIn(m, b));
      var c :| c in g.bwd && CopyIn(m, c) == CopyIn(m, b);
      BothEnds(g, c);
      CopyInInjective(g.gates, m, b, c);
    }
  }

  lemma CopiedOut(g: Graph, h: Graph, m: map<Gate, Gate>, a: OutAddr)
    requires WF(g) && Cloned(g, h, m) && a.gate in g.gates
    ensures CopyOut(m, a).gate in h.gates && (HasOut(h, CopyOut(m, a)) <==> HasOut(g, a))
    ensures CopyOut(m, a) in h.outs <==> a in g.outs
    ensures CopyOut(m, a) in h.fwd <==> a in g.fwd
    ensures a in g.fwd ==> h.fwd[CopyOut(m, a)] == CopyIn(m, g.fwd[a])
  {
    hide WellFormedKind, CopyIns, Inverse, InCopied;
    if CopyOut(m, a) in h.outs {
      var c :| c in g.outs && CopyOut(m, c) == CopyOut(m, a);
      assert HasOut(g, c);
      CopyOutInjective(g.gates, m, a, c);
    }
    if CopyOut(m, a) in h.fwd {
      assert OutCopied(g, m, g.bwd.Keys, CopyOut(m, a));
      var b :| b in g.bwd && CopyOut(m, g.bwd[b]) == CopyOut(m, a);
      BothEnds(g, b);
      CopyOutInjective(g.gates, m, a, g.bwd[b]);
    }
    if a in g.fwd {
      ForwardFacts(g, a);
    }
  }

  lemma ClonedWF(g: Graph, h: Graph, m: map<Gate, Gate>)
    requires WF(g) && Cloned(g, h, m)
    ensures WF(h)
  {
    ClonedKinds(g, h, m);
    ClonedInverse(g, h, m);
    ClonedPorts(g, h, m);
    hide Inverse, Unconnected, WellFormedKind, Cloned;
  }

  lemma ClonedKinds(g: Graph, h: Graph, m: map<Gate, Gate>)
    requires WF(g) && Cloned(g, h, m)
    ensures forall t :: t in h.gates ==> WellFormedKind(t.kind)
  {
    hide WellFormedKind, Inverse, Unconnected, CopiedConnections;
    forall c | c in h.gates ensures WellFormedKind(c.kind) {
      var t :| t in g.gates && t in m && m[t] == c;
    }
  }

  lemma BackCopies(g: Graph, h: Graph, m: map<Gate, Gate>, c: InAddr) returns (b: InAddr)
    requires WF(g) && Cloned(g, h, m) && c in h.bwd
    ensures b in g.bwd && CopyIn(m, b) == c && b.gate in g.gates
  {
    assert InCopied(m, g.bwd.Keys, c);
    b :| b in g.bwd && CopyIn(m, b) == c;
    BothEnds(g, b);
  }

  lemma ForthCopies(g: Graph, h: Graph, m: map<Gate, Gate>, c: OutAddr) returns (a: OutAddr)
    requires WF(g) && Cloned(g, h, m) && c in h.fwd
    ensures a in g.fwd && CopyOut(m, a) == c && a.gate in g.gates
  {
    assert OutCopied(g, m, g.bwd.Keys, c);
    var b :| b in g.bwd && CopyOut(m, g.bwd[b]) == c;
    BothEnds(g, b);
    a := g.bwd[b];
  }

  lemma ClonedInverse(g: Graph, h: Graph, m: map<Gate, Gate>)
    requires WF(g) && Cloned(g, h, m)
    ensures Inverse(h)
  {
    hide WF, Cloned, CopyIn, CopyOut, HasIn, HasOut;
    forall c | c in h.fwd ensures HasOut(h, c) && h.fwd[c] in h.bwd && h.bwd[h.fwd[c]] == c {
      var a := ForthCopies(g, h, m, c);
      CopiedOut(g, h, m, a);
      ForwardFacts(g, a);
      CopiedIn(g, h, m, g.fwd[a]);
    }
    forall c | c in h.bwd ensures HasIn(h, c) && h.bwd[c] in h.fwd && h.fwd[h.bwd[c]] == c {
      var b := BackCopies(g, h, m, c);
      CopiedIn(g, h, m, b);
      BothEnds(g, b);
      OutGate(g, g.bwd[b]);
      CopiedOut(g, h, m, g.bwd[b]);
    }
  }

  lemma OutGate(g: Graph, a: OutAddr)
    requires HasOut(g, a)
    ensures a.gate in g.gates
  {
  }

  lemma ForwardFacts(g: Graph, a: OutAddr)
    requires WF(g) && a in g.fwd
    ensures HasOut(g, a) && a.gate in g.gates && g.fwd[a] in g.bwd && g.bwd[g.fwd[a]] == a
    ensures HasIn(g, g.fwd[a]) && g.fwd[a].gate in g.gates
  {
    hide WellFormedKind, Unconnected;
  }

  lemma ClonedPorts(g: Graph, h: Graph, m: map<Gate, Gate>)
    requires WF(g) && Cloned(g, h, m)
    ensures Unconnected(h)
  {
    hide WF, Cloned, CopyIn, CopyOut;
    forall c ensures c in h.ins <==> HasIn(h, c) && c !in h.bwd {
      ClonedInGate(g, h, m, c);
      if c.gate in h.gates {
        var b := OriginalIn(g, h, m, c);
        CopiedIn(g, h, m, b);
        UnconnectedAt(g, b, OutAddr(b.gate, 0));
      }
    }
    forall c ensures c in h.outs <==> HasOut(h, c) && c !in h.fwd {
      ClonedOutGate(g, h, m, c);
      if c.gate in h.gates {
        var a := OriginalOut(g, h, m, c);
        CopiedOut(g, h, m, a);
        UnconnectedAt(g, InAddr(a.gate, 0), a);
      }
    }
  }

  lemma UnconnectedAt(g: Graph, b: InAddr, a: OutAddr)
    requires WF(g)
    ensures (b in g.ins <==> HasIn(g, b) && b !in g.bwd) && (a in g.outs <==> HasOut(g, a) && a !in g.fwd)
  {
    hide WellFormedKind, Inverse, HasIn, HasOut;
  }

  lemma ClonedInGate(g: Graph, h: Graph, m: map<Gate, Gate>, c: InAddr)
    requires WF(g) && Cloned(g, h, m)
    ensures c in h.ins || c in h.bwd ==> c.gate in h.gates
  {
    if c in h.ins {
      var b :| b in g.ins && CopyIn(m, b) == c;
      UnconnectedAt(g, b, OutAddr(b.gate, 0));
      hide WF, CopiedConnections;
    }
    if c in h.bwd {
      var b := BackCopies(g, h, m, c);
      hide WF, CopiedConnections;
    }
  }

  lemma ClonedOutGate(g: Graph, h: Graph, m: map<Gate, Gate>, c: OutAddr)
    requires WF(g) && Cloned(g, h, m)
    ensures c in h.outs || c in h.fwd ==> c.gate in h.gates
  {
    if c in h.outs {
      var a :| a in g.outs && CopyOut(m, a) == c;
      UnconnectedAt(g, InAddr(a.gate, 0), a);
      hide WF, CopiedConnections;
    }
    if c in h.fwd {
      var a := ForthCopies(g, h, m, c);
      hide WF, CopiedConnections;
    }
  }

  // ----- the copy computes the same -----

  /** Port values of the copy, read at the original's ports. */
  ghost function PullIns(m: map<Gate, Gate>, v: Ins): Ins {
    b => v(CopyIn(m, b))
  }

  ghost function PullOuts(m: map<Gate, Gate>, w: Outs): Outs {
    a => w(CopyOut(m, a))
  }

  lemma CloneHolds(gates: set<Gate>, m: map<Gate, Gate>, t: Gate, v: Ins, w: Outs)
    requires Copies(gates, m) && t in gates
    ensures GateHolds(m[t], v, w) <==> GateHolds(t, PullIns(m, v), PullOuts(m, w))
  {
    hide Output, WellFormedKind;
    assert m[t].kind == t.kind;
    forall i: nat ensures PullIns(m, v)(InAddr(t, i)) == v(InAddr(m[t], i)) {
      assert CopyIn(m, InAddr(t, i)) == InAddr(m[t], i);
    }
    forall j: nat ensures PullOuts(m, w)(OutAddr(t, j)) == w(OutAddr(m[t], j)) {
      assert CopyOut(m, OutAddr(t, j)) == OutAddr(m[t], j);
    }
    assert GateInputs(m[t], v) == GateInputs(t, PullIns(m, v));
  }

  /** An evaluation of the copy is an evaluation of the original, port by port. */
  lemma CloneConsistent(g: Graph, h: Graph, m: map<Gate, Gate>, v: Ins, w: Outs)
    requires WF(g) && Cloned(g, h, m)
    ensures Consistent(h, v, w) <==> Consistent(g, PullIns(m, v), PullOuts(m, w))
  {
    hide WF, GateHolds, CopyIns, CopyOuts, CopyIn, CopyOut;
    forall t | t in g.gates ensures GateHolds(m[t], v, w) <==> GateHolds(t, PullIns(m, v), PullOuts(m, w)) {
      CloneHolds(g.gates, m, t, v, w);
    }
    forall b | b in g.bwd ensures CopyIn(m, b) in h.bwd && h.bwd[CopyIn(m, b)] == CopyOut(m, g.bwd[b]) { }
    if Consistent(g, PullIns(m, v), PullOuts(m, w)) {
      forall c | c in h.gates ensures GateHolds(c, v, w) {
        var t :| t in g.gates && t in m && m[t] == c;
        assert GateHolds(t, PullIns(m, v), PullOuts(m, w));
      }
      forall c | c in h.bwd ensures v(c) == w(h.bwd[c]) {
        var b := BackCopies(g, h, m, c);
        assert PullIns(m, v)(b) == PullOuts(m, w)(g.bwd[b]);
      }
    }
    if Consistent(h, v, w) {
      forall t | t in g.gates ensures GateHolds(t, PullIns(m, v), PullOuts(m, w)) {
        assert m[t] in h.gates && GateHolds(m[t], v, w);
      }
      forall b | b in g.bwd ensures PullIns(m, v)(b) == PullOuts(m, w)(g.bwd[b]) {
        assert v(CopyIn(m, b)) == w(h.bwd[CopyIn(m, b)]);
      }
    }
  }

  // ----- the network around it -----

  function CopyFirst(m: map<Gate, Gate>, b: Option<InAddr>): Option<InAddr> {
    if b.Some? then Some(CopyIn(m, b.value)) else None
  }

  function CopyLast(m: map<Gate, Gate>, a: Option<OutAddr>): Option<OutAddr> {
    if a.Some? then Some(CopyOut(m, a.value)) else None
  }

  function CopyGate(m: map<Gate, Gate>, t: Gate): Gate {
    if t in m then m[t] else t
  }

  ghost predicate ClonedNet(n: Net, k: Net, m: map<Gate, Gate>) {
    && Cloned(n.g, k.g, m) && k.ops == n.ops
    && |k.first| == |n.first| && (forall i :: 0 <= i < |n.first| ==> k.first[i] == CopyFirst(m, n.first[i]))
    && |k.last| == |n.last| && (forall i :: 0 <= i < |n.last| ==> k.last[i] == CopyLast(m, n.last[i]))
    && |k.order| == |n.order| && (forall i :: 0 <= i < |n.order| ==> k.order[i] == CopyGate(m, n.order[i]))
  }

  /** The clone of a network is a network with the same gate list. */
  lemma ClonedNetOk(n: Net, k: Net, m: map<Gate, Gate>)
    requires NetOk(n) && ClonedNet(n, k, m)
    ensures NetOk(k)
  {
    hide WF, Ends, Ordered, Computes, Realizable, Cloned;
    ClonedWF(n.g, k.g, m);
    ClonedEnds(n, k, m);
    ClonedOrdered(n, k, m);
    ClonedComputes(n, k, m);
    ClonedRealizable(n, k, m);
  }

  lemma ClonedEnds(n: Net, k: Net, m: map<Gate, Gate>)
    requires WF(n.g) && Ends(n) && ClonedNet(n, k, m)
    ensures Ends(k)
  {
    assert |n.first| == |n.last| by { EndsLength(n); }
    hide WF, Ends, Cloned, CopyIn, CopyOut;
    forall i | 0 <= i < |n.first| ensures EndOk(k, i) {
      EndsMatch(n, i);
      if n.first[i].Some? { ClonedEnd(n, k, m, i); }
    }
    forall i, j | 0 <= i < j < |k.first| && k.first[i].Some? ensures k.first[i] != k.first[j] && k.last[i] != k.last[j] {
      ClonedEndsDiffer(n, k, m, i, j);
    }
    forall c | c in k.g.ins ensures Some(c) in k.first {
      var b :| b in n.g.ins && CopyIn(m, b) == c by { ClonedInputs(n.g, k.g, m, c); }
      var i := FirstIndex(n, b);
      assert k.first[i] == Some(c);
    }
    forall c | c in k.g.outs ensures Some(c) in k.last {
      var a :| a in n.g.outs && CopyOut(m, a) == c by { ClonedOutputs(n.g, k.g, m, c); }
      var i := LastIndex(n, a);
      assert k.last[i] == Some(c);
    }
    EndsIntro(k);
  }

  lemma EndsLength(n: Net)
    requires Ends(n)
    ensures |n.first| == |n.last|
  {
  }

  lemma FirstIndex(n: Net, b: InAddr) returns (i: nat)
    requires Ends(n) && b in n.g.ins
    ensures i < |n.first| && n.first[i] == Some(b)
  {
    i :| 0 <= i < |n.first| && n.first[i] == Some(b);
  }

  lemma LastIndex(n: Net, a: OutAddr) returns (i: nat)
    requires Ends(n) && a in n.g.outs
    ensures i < |n.last| && n.last[i] == Some(a)
  {
    i :| 0 <= i < |n.last| && n.last[i] == Some(a);
  }

  lemma ClonedInputs(g: Graph, h: Graph, m: map<Gate, Gate>, c: InAddr)
    requires Cloned(g, h, m) && c in h.ins
    ensures exists b :: b in g.ins && CopyIn(m, b) == c
  {
  }

  lemma ClonedOutputs(g: Graph, h: Graph, m: map<Gate, Gate>, c: OutAddr)
    requires Cloned(g, h, m) && c in h.outs
    ensures exists a :: a in g.outs && CopyOut(m, a) == c
  {
  }

  lemma UsedEnds(n: Net, i: nat)
    requires WF(n.g) && Ends(n) && i < |n.first| && n.first[i].Some?
    ensures i < |n.last| && n.last[i].Some? && n.first[i].value in n.g.ins && n.last[i].value in n.g.outs
    ensures n.first[i].value.gate in n.g.gates && n.last[i].value.gate in n.g.gates
  {
    PortOf(n, i);
    hide WF;
  }

  lemma ClonedEnd(n: Net, k: Net, m: map<Gate, Gate>, i: nat)
    requires WF(n.g) && Ends(n) && ClonedNet(n, k, m) && i < |n.first| == |n.last| && n.first[i].Some?
    ensures i < |k.first| == |k.last| && EndOk(k, i)
  {
    hide WF, Ends, Cloned, CopyIn, CopyOut;
    UsedEnds(n, i);
    CopiedIn(n.g, k.g, m, n.first[i].value);
    CopiedOut(n.g, k.g, m, n.last[i].value);
  }

  lemma ClonedEndsDiffer(n: Net, k: Net, m: map<Gate, Gate>, i: nat, j: nat)
    requires WF(n.g) && Ends(n) && ClonedNet(n, k, m) && i < j < |n.first| == |n.last| && k.first[i].Some?
    ensures k.first[i] != k.first[j] && k.last[i] != k.last[j]
  {
    hide WF, Ends, Cloned, CopyIn, CopyOut, Copies;
    assert Copies(n.g.gates, m) by { ClonedCopies(n.g, k.g, m); }
    UsedEnds(n, i);
    EndsDistinct(n, i, j);
    EndsMatch(n, j);
    if n.first[j].Some? {
      UsedEnds(n, j);
      if k.first[i] == k.first[j] { CopyInInjective(n.g.gates, m, n.first[i].value, n.first[j].value); }
      if k.last[i] == k.last[j] { CopyOutInjective(n.g.gates, m, n.last[i].value, n.last[j].value); }
    }
  }

  lemma ClonedCopies(g: Graph, h: Graph, m: map<Gate, Gate>)
    requires Cloned(g, h, m)
    ensures Copies(g.gates, m) && h.gates == CopyGates(m, g.gates)
  {
    hide Copies, CopyGates;
  }

  lemma ClonedOrdered(n: Net, k: Net, m: map<Gate, Gate>)
    requires WF(n.g) && Ordered(n) && ClonedNet(n, k, m)
    ensures Ordered(k)
  {
    hide WF, Cloned, CopyIn, CopyOut;
    ClonedCopies(n.g, k.g, m);
    forall i, j | 0 <= i < j < |k.order| ensures k.order[i] != k.order[j] {
      assert n.order[i] in n.g.gates && n.order[j] in n.g.gates && n.order[i] != n.order[j];
    }
    forall c ensures c in k.order <==> c in k.g.gates {
      OrderCopied(n, k, m, c);
    }
    forall c | c in k.g.bwd ensures Before(k.order, k.g.bwd[c].gate, c.gate) {
      BeforeCopied(n, k, m, c);
    }
  }

  lemma OrderCopied(n: Net, k: Net, m: map<Gate, Gate>, c: Gate)
    requires Ordered(n) && ClonedNet(n, k, m)
    ensures c in k.order <==> c in k.g.gates
  {
    hide CopiedConnections, CopyIns, CopyOuts, NoRepeats, Before;
    if c in k.order {
      var i :| 0 <= i < |k.order| && k.order[i] == c;
      assert n.order[i] in n.g.gates;
    }
    if c in k.g.gates {
      var t :| t in n.g.gates && t in m && m[t] == c;
      var i :| 0 <= i < |n.order| && n.order[i] == t;
      assert k.order[i] == c;
    }
  }

  lemma BeforeCopied(n: Net, k: Net, m: map<Gate, Gate>, c: InAddr)
    requires WF(n.g) && Ordered(n) && ClonedNet(n, k, m) && c in k.g.bwd
    ensures Before(k.order, k.g.bwd[c].gate, c.gate)
  {
    hide WF, Cloned, NoRepeats;
    var b := BackCopies(n.g, k.g, m, c);
    CopiedIn(n.g, k.g, m, b);
    ClonedCopies(n.g, k.g, m);
    BothEnds(n.g, b);
    var i, j :| 0 <= i < j < |n.order| && n.order[i] == n.g.bwd[b].gate && n.order[j] == b.gate;
    assert k.order[i] == k.g.bwd[c].gate && k.order[j] == c.gate;
  }

  lemma ClonedComputes(n: Net, k: Net, m: map<Gate, Gate>)
    requires NetOk(n) && ClonedNet(n, k, m)
    ensures Computes(k)
  {
    assert ValidOps(k.ops, |k.first|);
    hide WF, Ends, Ordered, Realizable, Cloned, Run, Consistent, CopyIn, CopyOut;
    forall v: Ins, w: Outs, x: seq<int> | Consistent(k.g, v, w) && Feeds(k.first, v, x)
      ensures Delivers(k.last, w, x, Run(k.ops, x))
    {
      CloneConsistent(n.g, k.g, m, v, w);
      PulledEnds(n, k, m, v, w, x);
      assert Delivers(n.last, PullOuts(m, w), x, Run(n.ops, x));
      PulledDelivers(n, k, m, w, x, Run(n.ops, x));
    }
  }

  lemma PulledEnds(n: Net, k: Net, m: map<Gate, Gate>, v: Ins, w: Outs, x: seq<int>)
    requires ClonedNet(n, k, m)
    ensures Feeds(k.first, v, x) <==> Feeds(n.first, PullIns(m, v), x)
  {
    hide Cloned, CopyIn, CopyOut;
    if Feeds(n.first, PullIns(m, v), x) {
      forall i | 0 <= i < |k.first| && k.first[i].Some? ensures v(k.first[i].value) == x[i] {
        assert PullIns(m, v)(n.first[i].value) == x[i];
      }
    }
    if Feeds(k.first, v, x) {
      forall i | 0 <= i < |n.first| && n.first[i].Some? ensures PullIns(m, v)(n.first[i].value) == x[i] {
        assert v(k.first[i].value) == x[i];
      }
    }
  }

  lemma PulledDelivers(n: Net, k: Net, m: map<Gate, Gate>, w: Outs, x: seq<int>, y: seq<int>)
    requires ClonedNet(n, k, m) && Delivers(n.last, PullOuts(m, w), x, y)
    ensures Delivers(k.last, w, x, y)
  {
    hide Cloned, CopyIn, CopyOut;
    forall i | 0 <= i < |k.last| ensures if k.last[i].Some? then w(k.last[i].value) == y[i] else y[i] == x[i] {
      if n.last[i].Some? {
        assert PullOuts(m, w)(n.last[i].value) == y[i];
      }
    }
  }

  ghost function Original(gates: set<Gate>, m: map<Gate, Gate>, c: Gate): Gate
    requires Copies(gates, m)
  {
    if c in CopyGates(m, gates) then var t :| t in gates && t in m && m[t] == c; t else c
  }

  lemma OriginalOfCopy(gates: set<Gate>, m: map<Gate, Gate>, t: Gate)
    requires Copies(gates, m) && t in gates
    ensures Original(gates, m, m[t]) == t
  {
  }

  lemma ClonedRealizable(n: Net, k: Net, m: map<Gate, Gate>)
    requires NetOk(n) && ClonedNet(n, k, m)
    ensures Realizable(k)
  {
    hide WF, Ends, Ordered, Computes, Cloned, Evaluation;
    forall x: seq<int> | |x| == |k.first| ensures exists v: Ins, w: Outs :: Evaluation(k, v, w, x) {
      var v0: Ins, w0: Outs :| Evaluation(n, v0, w0, x);
      PushEvaluation(n, k, m, v0, w0, x);
    }
  }

  lemma PushEvaluation(n: Net, k: Net, m: map<Gate, Gate>, v0: Ins, w0: Outs, x: seq<int>)
    requires WF(n.g) && Ends(n) && ClonedNet(n, k, m) && Evaluation(n, v0, w0, x)
    ensures exists v: Ins, w: Outs :: Evaluation(k, v, w, x)
  {
    hide WF, Ends, Cloned, Copies, Original, Consistent, Feeds;
    ClonedCopies(n.g, k.g, m);
    var gates := n.g.gates;
    var v: Ins := (c: InAddr) => v0(InAddr(Original(gates, m, c.gate), c.port));
    var w: Outs := (c: OutAddr) => w0(OutAddr(Original(gates, m, c.gate), c.port));
    forall b: InAddr | b.gate in gates ensures PullIns(m, v)(b) == v0(b) {
      OriginalOfCopy(gates, m, b.gate);
      KeyOf(gates, m, b.gate);
      var c := CopyIn(m, b);
      assert c == InAddr(m[b.gate], b.port);
      assert v(c) == v0(InAddr(Original(gates, m, c.gate), c.port));
      assert b == InAddr(b.gate, b.port);
    }
    forall a: OutAddr | a.gate in gates ensures PullOuts(m, w)(a) == w0(a) {
      OriginalOfCopy(gates, m, a.gate);
      KeyOf(gates, m, a.gate);
      var c := CopyOut(m, a);
      assert c == OutAddr(m[a.gate], a.port);
      assert w(c) == w0(OutAddr(Original(gates, m, c.gate), c.port));
      assert a == OutAddr(a.gate, a.port);
    }
    SamePorts(n.g, v0, w0, PullIns(m, v), PullOuts(m, w));
    SameEnds(n, v0, w0, PullIns(m, v), PullOuts(m, w), x);
    CloneConsistent(n.g, k.g, m, v, w);
    PulledEnds(n, k, m, v, w, x);
    assert Evaluation(k, v, w, x);
  }

  lemma KeyOf(gates: set<Gate>, m: map<Gate, Gate>, t: Gate)
    requires Copies(gates, m) && t in gates
    ensures t in m
  {
  }
}
