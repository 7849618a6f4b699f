/** Gate graphs as values: gates, the connection tables in both directions, and the unconnected
    ports; what a graph computes, and how joining and collapsing change it. */
module Graphs {
  import opened WireOps

  /** A gate object; id is its identity. */
  datatype Gate = Gate(id: nat, kind: Kind)

  datatype InAddr = InAddr(gate: Gate, port: nat)
  datatype OutAddr = OutAddr(gate: Gate, port: nat)

  datatype Connection = Connection(from: OutAddr, to: InAddr)

  datatype Graph = Graph(
    gates: set<Gate>,
    ins: set<InAddr>,
    outs: set<OutAddr>,
    fwd: map<OutAddr, InAddr>,
    bwd: map<InAddr, OutAddr>)

  const EMPTY := Graph({}, {}, {}, map[], map[])

  ghost predicate HasIn(g: Graph, b: InAddr) {
    b.gate in g.gates && b.port < Arity(b.gate.kind)
  }

  ghost predicate HasOut(g: Graph, a: OutAddr) {
    a.gate in g.gates && a.port < Arity(a.gate.kind)
  }

  /** The connection tables are mutually inverse. */
  ghost predicate Inverse(g: Graph) {
    && (forall a :: a in g.fwd ==> HasOut(g, a) && g.fwd[a] in g.bwd && g.bwd[g.fwd[a]] == a)
    && (forall b :: b in g.bwd ==> HasIn(g, b) && g.bwd[b] in g.fwd && g.fwd[g.bwd[b]] == b)
  }

  /** ins and outs are exactly the unconnected ports. */
  ghost predicate Unconnected(g: Graph) {
    && (forall b :: b in g.ins <==> HasIn(g, b) && b !in g.bwd)
    && (forall a :: a in g.outs <==> HasOut(g, a) && a !in g.fwd)
  }

  ghost predicate WF(g: Graph) {
    && (forall t :: t in g.gates ==> WellFormedKind(t.kind))
    && Inverse(g)
    && Unconnected(g)
  }

  // ----- meaning -----

  type Ins = InAddr -> int
  type Outs = OutAddr -> int

  ghost function GateInputs(t: Gate, v: Ins): (x: seq<int>)
    ensures |x| == Arity(t.kind)
  {
    seq(Arity(t.kind), i requires 0 <= i < Arity(t.kind) => v(InAddr(t, i)))
  }

  ghost predicate GateHolds(t: Gate, v: Ins, w: Outs) {
    WellFormedKind(t.kind) && forall j :: 0 <= j < Arity(t.kind) ==> w(OutAddr(t, j)) == Output(t.kind, GateInputs(t, v), j)
  }

  /** v and w are the port values of an evaluation of g. */
  ghost predicate Consistent(g: Graph, v: Ins, w: Outs) {
    && (forall t :: t in g.gates ==> GateHolds(t, v, w))
    && (forall b :: b in g.bwd ==> v(b) == w(g.bwd[b]))
  }

  // ----- AddConnection -----

  function AddConnection(g: Graph, c: Connection): Graph {
    var g1 := if c.from in g.fwd then g.(bwd := g.bwd - {g.fwd[c.from]}, ins := g.ins + {g.fwd[c.from]}) else g;
    var g2 := if c.to in g1.bwd then g1.(fwd := g1.fwd - {g1.bwd[c.to]}, outs := g1.outs + {g1.bwd[c.to]}) else g1;
    g2.(fwd := g2.fwd[c.from := c.to], outs := g2.outs - {c.from},
        bwd := g2.bwd[c.to := c.from], ins := g2.ins - {c.to})
  }

  /** The backward table afterwards: c.to leads to c.from, and what c.from or c.to was connected to
      before is unconnected. */
  lemma AddConnectionBackward(g: Graph, c: Connection, b: InAddr)
    requires Inverse(g)
    ensures var n := AddConnection(g, c);
      (b in n.bwd <==> b == c.to || (b in g.bwd && g.bwd[b] != c.from)) &&
      (b in n.bwd ==> n.bwd[b] == if b == c.to then c.from else g.bwd[b])
  {
    hide HasIn, HasOut;
    if b in g.bwd {
      assert g.fwd[g.bwd[b]] == b;
    }
    if c.from in g.fwd {
      assert g.bwd[g.fwd[c.from]] == c.from;
    }
  }

  lemma AddConnectionForward(g: Graph, c: Connection, a: OutAddr)
    requires Inverse(g)
    ensures var n := AddConnection(g, c);
      (a in n.fwd <==> a == c.from || (a in g.fwd && g.fwd[a] != c.to)) &&
      (a in n.fwd ==> n.fwd[a] == if a == c.from then c.to else g.fwd[a])
  {
    hide HasIn, HasOut;
    if a in g.fwd {
      assert g.bwd[g.fwd[a]] == a;
    }
    if c.to in g.bwd {
      assert g.fwd[g.bwd[c.to]] == c.to;
    }
    if c.from in g.fwd {
      assert g.bwd[g.fwd[c.from]] == c.from;
    }
  }

  /** Whatever was connected before, the tables stay inverse and the port sets exact. */
  lemma AddConnectionWF(g: Graph, c: Connection)
    requires WF(g) && HasOut(g, c.from) && HasIn(g, c.to)
    ensures WF(AddConnection(g, c)) && AddConnection(g, c).gates == g.gates
  {
    var n := AddConnection(g, c);
    hide WellFormedKind, Arity;
    AddConnectionInverse(g, c);
    AddConnectionPorts(g, c);
    assert WF(n);
  }

  lemma AddConnectionInverse(g: Graph, c: Connection)
    requires Inverse(g) && HasOut(g, c.from) && HasIn(g, c.to)
    ensures Inverse(AddConnection(g, c))
  {
    var n := AddConnection(g, c);
    assert n.gates == g.gates;
    forall a | a in n.fwd ensures HasOut(n, a) && n.fwd[a] in n.bwd && n.bwd[n.fwd[a]] == a {
      AddConnectionForward(g, c, a);
      AddConnectionBackward(g, c, n.fwd[a]);
      hide AddConnection;
      if a != c.from {
        assert HasOut(g, a) && g.bwd[g.fwd[a]] == a;
      }
    }
    forall b | b in n.bwd ensures HasIn(n, b) && n.bwd[b] in n.fwd && n.fwd[n.bwd[b]] == b {
      AddConnectionBackward(g, c, b);
      AddConnectionForward(g, c, n.bwd[b]);
      hide AddConnection;
      if b != c.to {
        assert HasIn(g, b) && g.fwd[g.bwd[b]] == b;
      }
    }
  }

  lemma AddConnectionPorts(g: Graph, c: Connection)
    requires Inverse(g) && Unconnected(g) && HasOut(g, c.from) && HasIn(g, c.to)
    ensures Unconnected(AddConnection(g, c))
  {
    var n := AddConnection(g, c);
    hide HasIn, HasOut;
    AddConnectionGates(g, c);
    forall b ensures b in n.ins <==> HasIn(n, b) && b !in n.bwd {
      AddConnectionBackward(g, c, b);
      assert b in g.bwd ==> HasIn(g, b) && g.bwd[b] in g.fwd && g.fwd[g.bwd[b]] == b;
      assert c.from in g.fwd ==> g.fwd[c.from] in g.bwd && g.bwd[g.fwd[c.from]] == c.from;
    }
    forall a ensures a in n.outs <==> HasOut(n, a) && a !in n.fwd {
      AddConnectionForward(g, c, a);
      assert a in g.fwd ==> HasOut(g, a) && g.fwd[a] in g.bwd && g.bwd[g.fwd[a]] == a;
      assert c.to in g.bwd ==> g.bwd[c.to] in g.fwd && g.fwd[g.bwd[c.to]] == c.to;
      assert c.from in g.fwd ==> g.bwd[g.fwd[c.from]] == c.from;
    }
  }

  lemma AddConnectionGates(g: Graph, c: Connection)
    ensures AddConnection(g, c).gates == g.gates
    ensures forall b :: HasIn(AddConnection(g, c), b) <==> HasIn(g, b)
    ensures forall a :: HasOut(AddConnection(g, c), a) <==> HasOut(g, a)
  {
  }

  // ----- one gate -----

  function InSet(t: Gate, k: nat): set<InAddr> {
    set i | 0 <= i < k :: InAddr(t, i)
  }

  function OutSet(t: Gate, k: nat): set<OutAddr> {
    set i | 0 <= i < k :: OutAddr(t, i)
  }

  /** A single gate with all its ports unconnected. */
  function GateGraph(t: Gate): Graph {
    Graph({t}, InSet(t, Arity(t.kind)), OutSet(t, Arity(t.kind)), map[], map[])
  }

  /** The graph without gate t and its ports. */
  function Without(g: Graph, t: Gate): Graph {
    Graph(g.gates - {t}, g.ins - InSet(t, Arity(t.kind)), g.outs - OutSet(t, Arity(t.kind)), g.fwd, g.bwd)
  }

  // ----- joining -----

  function Union(g: Graph, h: Graph): Graph {
    Graph(g.gates + h.gates, g.ins + h.ins, g.outs + h.outs, g.fwd + h.fwd, g.bwd + h.bwd)
  }

  function Connect(g: Graph, cs: seq<Connection>): Graph {
    if cs == [] then g else AddConnection(Connect(g, cs[..|cs| - 1]), cs[|cs| - 1])
  }

  lemma KeysDisjoint(g: Graph, h: Graph)
    requires Inverse(g) && Inverse(h) && g.gates !! h.gates
    ensures forall b :: b in g.bwd ==> b !in h.bwd
    ensures forall a :: a in g.fwd ==> a !in h.fwd
  {
    forall b | b in g.bwd ensures b !in h.bwd {
      assert HasIn(g, b);
      assert b in h.bwd ==> HasIn(h, b);
    }
    forall a | a in g.fwd ensures a !in h.fwd {
      assert HasOut(g, a);
      assert a in h.fwd ==> HasOut(h, a);
    }
  }

  lemma UnionInverse(g: Graph, h: Graph)
    requires Inverse(g) && Inverse(h) && g.gates !! h.gates
    ensures Inverse(Union(g, h))
  {
    var u := Union(g, h);
    KeysDisjoint(g, h);
    UnionPorts(g, h);
    hide HasIn, HasOut;
    forall a | a in u.fwd ensures HasOut(u, a) && u.fwd[a] in u.bwd && u.bwd[u.fwd[a]] == a {
      if a in h.fwd {
        assert HasOut(h, a) && h.bwd[h.fwd[a]] == a;
      } else {
        assert HasOut(g, a) && g.bwd[g.fwd[a]] == a && g.fwd[a] in g.bwd;
      }
    }
    forall b | b in u.bwd ensures HasIn(u, b) && u.bwd[b] in u.fwd && u.fwd[u.bwd[b]] == b {
      if b in h.bwd {
        assert HasIn(h, b) && h.fwd[h.bwd[b]] == b;
      } else {
        assert HasIn(g, b) && g.fwd[g.bwd[b]] == b && g.bwd[b] in g.fwd;
      }
    }
  }

  lemma UnionPorts(g: Graph, h: Graph)
    ensures forall b :: HasIn(Union(g, h), b) <==> HasIn(g, b) || HasIn(h, b)
    ensures forall a :: HasOut(Union(g, h), a) <==> HasOut(g, a) || HasOut(h, a)
  {
  }

  lemma UnionWF(g: Graph, h: Graph)
    requires WF(g) && WF(h) && g.gates !! h.gates
    ensures WF(Union(g, h))
  {
    var u := Union(g, h);
    UnionInverse(g, h);
    UnionPorts(g, h);
    KeysDisjoint(g, h);
    assert forall b :: HasIn(g, b) ==> !HasIn(h, b);
    assert forall a :: HasOut(g, a) ==> !HasOut(h, a);
    hide HasIn, HasOut, Inverse, WellFormedKind;
    forall b ensures b in u.ins <==> HasIn(u, b) && b !in u.bwd {
      UnionInPort(g, h, b);
    }
    forall a ensures a in u.outs <==> HasOut(u, a) && a !in u.fwd {
      UnionOutPort(g, h, a);
    }
    assert Unconnected(u);
  }

  lemma UnionInPort(g: Graph, h: Graph, b: InAddr)
    requires WF(g) && WF(h) && g.gates !! h.gates
    ensures b in Union(g, h).ins <==> HasIn(Union(g, h), b) && b !in Union(g, h).bwd
  {
    assert b in g.bwd ==> HasIn(g, b);
    assert b in h.bwd ==> HasIn(h, b);
    assert b in g.ins <==> HasIn(g, b) && b !in g.bwd;
    assert b in h.ins <==> HasIn(h, b) && b !in h.bwd;
  }

  lemma UnionOutPort(g: Graph, h: Graph, a: OutAddr)
    requires WF(g) && WF(h) && g.gates !! h.gates
    ensures a in Union(g, h).outs <==> HasOut(Union(g, h), a) && a !in Union(g, h).fwd
  {
    assert a in g.fwd ==> HasOut(g, a);
    assert a in h.fwd ==> HasOut(h, a);
    assert a in g.outs <==> HasOut(g, a) && a !in g.fwd;
    assert a in h.outs <==> HasOut(h, a) && a !in h.fwd;
  }

  /** The connections use distinct free ports. */
  ghost predicate FreeConnections(g: Graph, cs: seq<Connection>) {
    && (forall i :: 0 <= i < |cs| ==> cs[i].from in g.outs && cs[i].to in g.ins)
    && (forall i, j :: 0 <= i < j < |cs| ==> cs[i].from != cs[j].from && cs[i].to != cs[j].to)
  }

  ghost predicate ConnectsTo(cs: seq<Connection>, b: InAddr) {
    exists i :: 0 <= i < |cs| && cs[i].to == b
  }

  ghost predicate ConnectsFrom(cs: seq<Connection>, a: OutAddr) {
    exists i :: 0 <= i < |cs| && cs[i].from == a
  }

  /** What connecting free ports does: every connection is made, and nothing else changes. */
  ghost predicate Connected(g: Graph, cs: seq<Connection>, j: Graph) {
    && j.gates == g.gates
    && (forall b :: b in j.bwd <==> b in g.bwd || ConnectsTo(cs, b))
    && (forall b :: b in g.bwd ==> b in j.bwd && j.bwd[b] == g.bwd[b])
    && (forall i :: 0 <= i < |cs| ==> cs[i].to in j.bwd && j.bwd[cs[i].to] == cs[i].from)
    && (forall a :: a in j.fwd <==> a in g.fwd || ConnectsFrom(cs, a))
  }

  lemma ConnectsAppend(cs: seq<Connection>, c: Connection)
    ensures forall b :: ConnectsTo(cs + [c], b) <==> ConnectsTo(cs, b) || b == c.to
    ensures forall a :: ConnectsFrom(cs + [c], a) <==> ConnectsFrom(cs, a) || a == c.from
  {
    var ds := cs + [c];
    assert ds[|cs|] == c;
    forall b ensures ConnectsTo(ds, b) <==> ConnectsTo(cs, b) || b == c.to {
      if ConnectsTo(cs, b) {
        var i :| 0 <= i < |cs| && cs[i].to == b;
        assert ds[i].to == b;
      }
    }
    forall a ensures ConnectsFrom(ds, a) <==> ConnectsFrom(cs, a) || a == c.from {
      if ConnectsFrom(cs, a) {
        var i :| 0 <= i < |cs| && cs[i].from == a;
        assert ds[i].from == a;
      }
    }
  }

  lemma ConnectOne(g: Graph, init: seq<Connection>, c: Connection, m: Graph)
    requires WF(g) && FreeConnections(g, init + [c]) && WF(m) && Connected(g, init, m)
    ensures WF(AddConnection(m, c)) && Connected(g, init + [c], AddConnection(m, c))
  {
    LastIsFree(g, init, c, m);
    AddConnectionWF(m, c);
    AddFree(m, c);
    hide WF, AddConnection, FreeConnections;
    ExtendConnected(g, init, c, m, AddConnection(m, c));
  }

  lemma AddFree(m: Graph, c: Connection)
    requires c.from !in m.fwd && c.to !in m.bwd
    ensures AddConnection(m, c) == Graph(m.gates, m.ins - {c.to}, m.outs - {c.from}, m.fwd[c.from := c.to], m.bwd[c.to := c.from])
  {
  }

  lemma LastIsFree(g: Graph, init: seq<Connection>, c: Connection, m: Graph)
    requires WF(g) && FreeConnections(g, init + [c]) && Connected(g, init, m)
    ensures c.from !in m.fwd && c.to !in m.bwd && HasOut(m, c.from) && HasIn(m, c.to)
    ensures !ConnectsTo(init, c.to) && !ConnectsFrom(init, c.from)
    ensures c.to !in g.bwd
  {
    var cs := init + [c];
    assert cs[|init|] == c;
    assert c.from in g.outs && c.to in g.ins;
    forall i | 0 <= i < |init| ensures init[i].to != c.to && init[i].from != c.from {
      assert cs[i] == init[i];
    }
  }

  lemma ExtendConnected(g: Graph, init: seq<Connection>, c: Connection, m: Graph, n: Graph)
    requires Connected(g, init, m) && !ConnectsTo(init, c.to) && c.to !in g.bwd
    requires n.gates == m.gates && n.fwd == m.fwd[c.from := c.to] && n.bwd == m.bwd[c.to := c.from]
    ensures Connected(g, init + [c], n)
  {
    var cs := init + [c];
    ConnectsAppend(init, c);
    forall i | 0 <= i < |cs| ensures cs[i].to in n.bwd && n.bwd[cs[i].to] == cs[i].from {
      if i < |init| {
        assert cs[i] == init[i];
        assert ConnectsTo(init, init[i].to);
      }
    }
    hide ConnectsTo, ConnectsFrom;
    assert Connected(g, cs, n);
  }

  lemma {:induction false} ConnectFree(g: Graph, cs: seq<Connection>)
    requires WF(g) && FreeConnections(g, cs)
    ensures WF(Connect(g, cs)) && Connected(g, cs, Connect(g, cs))
    decreases |cs|
  {
    hide WF, Connected;
    if cs == [] {
      ConnectNone(g);
    } else {
      var init, c := cs[..|cs| - 1], cs[|cs| - 1];
      assert cs == init + [c];
      assert FreeConnections(g, init);
      ConnectFree(g, init);
      ConnectOne(g, init, c, Connect(g, init));
    }
  }

  lemma ConnectNone(g: Graph)
    ensures Connected(g, [], g)
  {
    forall b ensures !ConnectsTo([], b) { }
    forall a ensures !ConnectsFrom([], a) { }
  }

  /** The equations of the joins. */
  ghost predicate JoinsHold(cs: seq<Connection>, v: Ins, w: Outs) {
    forall i :: 0 <= i < |cs| ==> v(cs[i].to) == w(cs[i].from)
  }

  /** Joining keeps what both parts compute and adds the equations of the joins. */
  lemma JoinConsistent(g: Graph, h: Graph, cs: seq<Connection>, v: Ins, w: Outs)
    requires WF(g) && WF(h) && g.gates !! h.gates && FreeConnections(Union(g, h), cs)
    ensures Consistent(Connect(Union(g, h), cs), v, w) <==>
      Consistent(g, v, w) && Consistent(h, v, w) && JoinsHold(cs, v, w)
  {
    UnionWF(g, h);
    ConnectFree(Union(g, h), cs);
    KeysDisjoint(g, h);
    hide WF, FreeConnections, Connect;
    JoinedConsistent(g, h, cs, Connect(Union(g, h), cs), v, w);
  }

  lemma JoinedConsistent(g: Graph, h: Graph, cs: seq<Connection>, j: Graph, v: Ins, w: Outs)
    requires Connected(Union(g, h), cs, j)
    requires forall b :: b in g.bwd ==> b !in h.bwd
    ensures Consistent(j, v, w) <==> Consistent(g, v, w) && Consistent(h, v, w) && JoinsHold(cs, v, w)
  {
    hide GateHolds, ConnectsFrom;
    if Consistent(j, v, w) {
      forall b | b in g.bwd ensures v(b) == w(g.bwd[b]) { assert b in Union(g, h).bwd; }
      forall b | b in h.bwd ensures v(b) == w(h.bwd[b]) { assert b in Union(g, h).bwd; }
    }
    if Consistent(g, v, w) && Consistent(h, v, w) && JoinsHold(cs, v, w) {
      forall b | b in j.bwd ensures v(b) == w(j.bwd[b]) {
        if b !in Union(g, h).bwd {
          var i :| 0 <= i < |cs| && cs[i].to == b;
        }
      }
    }
  }
}
