/** Permutation networks as values: a gate graph with the first and the last port on every wire,
    and the list of its gates in append order. */
module NetworkTheory {
  import opened Options
  import opened WireOps
  import opened Graphs

  datatype Net = Net(
    g: Graph,
    first: seq<Option<InAddr>>,
    last: seq<Option<OutAddr>>,
    ops: seq<Op>,
    order: seq<Gate>)

  /** first and last list exactly the unconnected ports, each once. */
  ghost predicate Ends(n: Net) {
    && |n.first| == |n.last|
    && (forall i :: 0 <= i < |n.first| ==> (n.first[i].Some? <==> n.last[i].Some?))
    && (forall i :: 0 <= i < |n.first| && n.first[i].Some? ==> n.first[i].value in n.g.ins && n.last[i].value in n.g.outs)
    && (forall i, j :: 0 <= i < j < |n.first| && n.first[i].Some? ==> n.first[i] != n.first[j] && n.last[i] != n.last[j])
    && (forall b :: b in n.g.ins ==> Some(b) in n.first)
    && (forall a :: a in n.g.outs ==> Some(a) in n.last)
  }

  ghost predicate NoRepeats(order: seq<Gate>) {
    forall i, j :: 0 <= i < j < |order| ==> order[i] != order[j]
  }

  ghost predicate Before(order: seq<Gate>, s: Gate, t: Gate) {
    exists i, j :: 0 <= i < j < |order| && order[i] == s && order[j] == t
  }

  /** The append order is a topological order of all gates: the graph is acyclic. */
  ghost predicate Ordered(n: Net) {
    && NoRepeats(n.order)
    && (forall t :: t in n.order <==> t in n.g.gates)
    && (forall b :: b in n.g.bwd ==> Before(n.order, n.g.bwd[b].gate, b.gate))
  }

  ghost predicate Feeds(first: seq<Option<InAddr>>, v: Ins, x: seq<int>) {
    |x| == |first| && forall i :: 0 <= i < |first| && first[i].Some? ==> v(first[i].value) == x[i]
  }

  ghost predicate Delivers(last: seq<Option<OutAddr>>, w: Outs, x: seq<int>, y: seq<int>) {
    && |x| == |y| == |last|
    && (forall i :: 0 <= i < |last| && last[i].Some? ==> w(last[i].value) == y[i])
    && (forall i :: 0 <= i < |last| && last[i].None? ==> y[i] == x[i])
  }

  /** Every evaluation of the graph gives what the gate list gives. */
  ghost predicate Computes(n: Net) {
    && ValidOps(n.ops, |n.first|)
    && forall v: Ins, w: Outs, x: seq<int> :: Consistent(n.g, v, w) && Feeds(n.first, v, x) ==>
      Delivers(n.last, w, x, Run(n.ops, x))
  }

  /** v and w evaluate the graph on the input wires x. */
  ghost predicate Evaluation(n: Net, v: Ins, w: Outs, x: seq<int>) {
    Consistent(n.g, v, w) && Feeds(n.first, v, x)
  }

  ghost predicate Realizable(n: Net) {
    forall x: seq<int> :: |x| == |n.first| ==> exists v: Ins, w: Outs :: Evaluation(n, v, w, x)
  }

  ghost predicate NetOk(n: Net) {
    WF(n.g) && Ends(n) && Ordered(n) && Computes(n) && Realizable(n)
  }

  // ----- the empty network -----

  ghost function Nothing<T>(k: nat): seq<Option<T>> {
    seq(k, i => None)
  }

  ghost function EmptyNet(k: nat): Net {
    Net(EMPTY, Nothing(k), Nothing(k), [], [])
  }

  lemma EmptyNetOk(k: nat)
    ensures NetOk(EmptyNet(k))
  {
    var n := EmptyNet(k);
    forall x: seq<int> | |x| == k ensures exists v: Ins, w: Outs :: Evaluation(n, v, w, x) {
      var v: Ins := b => 0;
      var w: Outs := a => 0;
      assert Evaluation(n, v, w, x);
    }
  }

  // ----- a single gate -----

  ghost function InPorts(t: Gate): (s: seq<Option<InAddr>>)
    ensures |s| == Arity(t.kind)
  {
    seq(Arity(t.kind), i requires 0 <= i < Arity(t.kind) => Some(InAddr(t, i)))
  }

  ghost function OutPorts(t: Gate): (s: seq<Option<OutAddr>>)
    ensures |s| == Arity(t.kind)
  {
    seq(Arity(t.kind), i requires 0 <= i < Arity(t.kind) => Some(OutAddr(t, i)))
  }

  ghost function GateNet(t: Gate): Net {
    Net(GateGraph(t), InPorts(t), OutPorts(t), [Op(t.kind, Range(0, Arity(t.kind)))], [t])
  }

  lemma GateNetOk(t: Gate)
    requires WellFormedKind(t.kind)
    ensures NetOk(GateNet(t))
  {
    hide WF, Ends, Computes, Realizable, Ordered;
    GateGraphWF(t);
    GateEnds(t);
    GateComputes(t);
    GateRealizable(t);
    GateOrdered(t);
  }

  lemma GateOrdered(t: Gate)
    ensures Ordered(GateNet(t))
  {
  }

  lemma GateGraphWF(t: Gate)
    requires WellFormedKind(t.kind)
    ensures WF(GateGraph(t))
  {
    var g := GateGraph(t);
    hide WellFormedKind;
    forall b ensures b in g.ins <==> HasIn(g, b) && b !in g.bwd {
      assert HasIn(g, b) ==> b == InAddr(t, b.port);
    }
    forall a ensures a in g.outs <==> HasOut(g, a) && a !in g.fwd {
      assert HasOut(g, a) ==> a == OutAddr(t, a.port);
    }
  }

  lemma GateEnds(t: Gate)
    ensures Ends(GateNet(t))
  {
    var n := GateNet(t);
    forall b | b in n.g.ins ensures Some(b) in n.first {
      assert n.first[b.port] == Some(b);
    }
    forall a | a in n.g.outs ensures Some(a) in n.last {
      assert n.last[a.port] == Some(a);
    }
  }

  lemma GateRun(t: Gate, x: seq<int>, j: nat)
    requires WellFormedKind(t.kind) && |x| == Arity(t.kind) && j < |x|
    ensures ValidOps(GateNet(t).ops, |x|)
    ensures Run(GateNet(t).ops, x)[j] == Output(t.kind, x, j)
  {
    hide Output, WellFormedKind, Run, Apply;
    var op := GateNet(t).ops[0];
    assert ValidOp(op, |x|);
    RunOne(op, x);
    ApplyAt(op, x, j);
    assert Gather(x, op.wires) == x;
    assert op.wires[j] == j;
  }

  lemma GateComputes(t: Gate)
    requires WellFormedKind(t.kind)
    ensures Computes(GateNet(t))
  {
    var n := GateNet(t);
    assert ValidOps(n.ops, |n.first|);
    hide Run, WellFormedKind, Output;
    forall v: Ins, w: Outs, x: seq<int> | Consistent(n.g, v, w) && Feeds(n.first, v, x)
      ensures Delivers(n.last, w, x, Run(n.ops, x))
    {
      assert GateHolds(t, v, w);
      assert GateInputs(t, v) == x by {
        forall i | 0 <= i < |x| ensures GateInputs(t, v)[i] == x[i] {
          assert n.first[i] == Some(InAddr(t, i));
        }
      }
      forall i | 0 <= i < |x| ensures w(n.last[i].value) == Run(n.ops, x)[i] {
        GateRun(t, x, i);
      }
    }
  }

  lemma GateRealizable(t: Gate)
    requires WellFormedKind(t.kind)
    ensures Realizable(GateNet(t))
  {
    var n := GateNet(t);
    forall x: seq<int> | |x| == |n.first| ensures exists v: Ins, w: Outs :: Evaluation(n, v, w, x) {
      var v: Ins := (b: InAddr) => if 0 <= b.port < |x| then x[b.port] else 0;
      var w: Outs := (a: OutAddr) => if a.port < Arity(t.kind) then Output(t.kind, GateInputs(t, v), a.port) else 0;
      assert GateHolds(t, v, w);
      assert Evaluation(n, v, w, x);
    }
  }

  // ----- appending a network -----

  function JoinAt(last: seq<Option<OutAddr>>, first: seq<Option<InAddr>>, wires: seq<nat>, i: nat): seq<Connection>
    requires i < |wires| == |first| && wires[i] < |last|
  {
    if last[wires[i]].Some? && first[i].Some? then [Connection(last[wires[i]].value, first[i].value)] else []
  }

  /** The joins that AppendNetwork collects from the first k of the given wires. */
  function Joins(last: seq<Option<OutAddr>>, first: seq<Option<InAddr>>, wires: seq<nat>, k: nat): seq<Connection>
    requires k <= |wires| == |first| && forall i :: 0 <= i < |wires| ==> wires[i] < |last|
  {
    if k == 0 then [] else Joins(last, first, wires, k - 1) + JoinAt(last, first, wires, k - 1)
  }

  ghost function FirstAfter(n: Net, m: Net, wires: seq<nat>): (f: seq<Option<InAddr>>)
    requires |wires| == |m.first|
    ensures |f| == |n.first|
  {
    seq(|n.first|, w requires 0 <= w < |n.first| =>
      if n.first[w].None? && w in wires then m.first[Index(wires, w)] else n.first[w])
  }

  ghost function LastAfter(n: Net, m: Net, wires: seq<nat>): (l: seq<Option<OutAddr>>)
    requires |wires| == |m.last|
    ensures |l| == |n.last|
  {
    seq(|n.last|, w requires 0 <= w < |n.last| =>
      if w in wires && m.last[Index(wires, w)].Some? then m.last[Index(wires, w)] else n.last[w])
  }

  ghost predicate Fits(n: Net, m: Net, wires: seq<nat>) {
    ValidWires(wires, |n.first|) && |wires| == |m.first| && n.g.gates !! m.g.gates
  }

  ghost function AllJoins(n: Net, m: Net, wires: seq<nat>): seq<Connection>
    requires Fits(n, m, wires) && Ends(n) && Ends(m)
  {
    Joins(n.last, m.first, wires, |wires|)
  }

  ghost function AppendNet(n: Net, m: Net, wires: seq<nat>): Net
    requires Fits(n, m, wires) && Ends(n) && Ends(m) && ValidOps(m.ops, |m.first|)
  {
    Net(Connect(Union(n.g, m.g), AllJoins(n, m, wires)),
        FirstAfter(n, m, wires), LastAfter(n, m, wires),
        n.ops + Rename(m.ops, wires), n.order + m.order)
  }

  /** Connection c joins wires[i]. */
  ghost predicate IsJoin(c: Connection, last: seq<Option<OutAddr>>, first: seq<Option<InAddr>>, wires: seq<nat>, i: nat)
    requires i < |wires| == |first| && wires[i] < |last|
  {
    last[wires[i]] == Some(c.from) && first[i] == Some(c.to)
  }

  lemma {:induction false} JoinOf(last: seq<Option<OutAddr>>, first: seq<Option<InAddr>>, wires: seq<nat>, k: nat, t: nat) returns (i: nat)
    requires k <= |wires| == |first| && forall i :: 0 <= i < |wires| ==> wires[i] < |last|
    requires t < |Joins(last, first, wires, k)|
    ensures i < k && IsJoin(Joins(last, first, wires, k)[t], last, first, wires, i)
    ensures t >= |Joins(last, first, wires, k - 1)| ==> i == k - 1
  {
    var before := Joins(last, first, wires, k - 1);
    if t < |before| {
      i := JoinOf(last, first, wires, k - 1, t);
    } else {
      i := k - 1;
    }
  }

  lemma {:induction false} JoinListed(last: seq<Option<OutAddr>>, first: seq<Option<InAddr>>, wires: seq<nat>, k: nat, i: nat) returns (t: nat)
    requires i < k <= |wires| == |first| && forall i :: 0 <= i < |wires| ==> wires[i] < |last|
    requires last[wires[i]].Some? && first[i].Some?
    ensures t < |Joins(last, first, wires, k)| && IsJoin(Joins(last, first, wires, k)[t], last, first, wires, i)
  {
    if i < k - 1 {
      t := JoinListed(last, first, wires, k - 1, i);
    } else {
      t := |Joins(last, first, wires, k - 1)|;
    }
  }

  /** Different joins are on different wires. */
  lemma {:induction false} JoinsDistinct(last: seq<Option<OutAddr>>, first: seq<Option<InAddr>>, wires: seq<nat>, k: nat, s: nat, t: nat) returns (i: nat, j: nat)
    requires k <= |wires| == |first| && forall i :: 0 <= i < |wires| ==> wires[i] < |last|
    requires s < t < |Joins(last, first, wires, k)|
    ensures i < j < k
    ensures IsJoin(Joins(last, first, wires, k)[s], last, first, wires, i)
    ensures IsJoin(Joins(last, first, wires, k)[t], last, first, wires, j)
  {
    var before := Joins(last, first, wires, k - 1);
    if t < |before| {
      i, j := JoinsDistinct(last, first, wires, k - 1, s, t);
    } else {
      i := JoinOf(last, first, wires, k - 1, s);
      j := k - 1;
    }
  }

  lemma JoinsAreFree(n: Net, m: Net, wires: seq<nat>)
    requires Fits(n, m, wires) && Ends(n) && Ends(m)
    ensures FreeConnections(Union(n.g, m.g), AllJoins(n, m, wires))
  {
    var cs := AllJoins(n, m, wires);
    var k := |wires|;
    forall t | 0 <= t < |cs| ensures cs[t].from in Union(n.g, m.g).outs && cs[t].to in Union(n.g, m.g).ins {
      var i := JoinOf(n.last, m.first, wires, k, t);
      assert n.first[wires[i]].Some?;
    }
    forall s, t | 0 <= s < t < |cs| ensures cs[s].from != cs[t].from && cs[s].to != cs[t].to {
      var i, j := JoinsDistinct(n.last, m.first, wires, k, s, t);
      assert wires[i] != wires[j];
      assert n.last[wires[i]] != n.last[wires[j]] && m.first[i] != m.first[j];
    }
  }

  lemma AppendWF(n: Net, m: Net, wires: seq<nat>)
    requires Fits(n, m, wires) && Ends(n) && Ends(m) && WF(n.g) && WF(m.g)
    ensures var cs := AllJoins(n, m, wires); var u := Union(n.g, m.g);
      WF(Connect(u, cs)) && WF(u) && FreeConnections(u, cs) && Connected(u, cs, Connect(u, cs))
  {
    hide WF, Ends, Connect;
    UnionWF(n.g, m.g);
    JoinsAreFree(n, m, wires);
    ConnectFree(Union(n.g, m.g), AllJoins(n, m, wires));
  }

  // ----- what the joined graph computes -----

  lemma AppendComputes(n: Net, m: Net, wires: seq<nat>)
    requires Fits(n, m, wires) && NetOk(n) && NetOk(m)
    ensures Computes(AppendNet(n, m, wires))
  {
    var j := AppendNet(n, m, wires);
    RenameValid(m.ops, wires, |n.first|);
    RunConcatValid(n.ops, Rename(m.ops, wires), |n.first|);
    hide Run, NetOk, Ends, Consistent, Connect;
    forall v: Ins, w: Outs, x: seq<int> | Consistent(j.g, v, w) && Feeds(j.first, v, x)
      ensures Delivers(j.last, w, x, Run(j.ops, x))
    {
      AppendDelivers(n, m, wires, v, w, x);
    }
  }

  lemma RunConcatValid(a: seq<Op>, b: seq<Op>, k: nat)
    requires ValidOps(a, k) && ValidOps(b, k)
    ensures ValidOps(a + b, k)
  {
  }

  lemma AppendDelivers(n: Net, m: Net, wires: seq<nat>, v: Ins, w: Outs, x: seq<int>)
    requires Fits(n, m, wires) && NetOk(n) && NetOk(m)
    requires Consistent(AppendNet(n, m, wires).g, v, w) && Feeds(FirstAfter(n, m, wires), v, x)
    ensures ValidOps(AppendNet(n, m, wires).ops, |x|)
    ensures Delivers(LastAfter(n, m, wires), w, x, Run(AppendNet(n, m, wires).ops, x))
  {
    var j := AppendNet(n, m, wires);
    AppendWF(n, m, wires);
    JoinConsistent(n.g, m.g, AllJoins(n, m, wires), v, w);
    hide WF, Consistent, Connect, Run, Connected, FreeConnections;
    FirstPartFed(n, m, wires, v, x);
    var y := Run(n.ops, x);
    assert Delivers(n.last, w, x, y);
    SecondPartFed(n, m, wires, v, w, x, y);
    var z := Run(m.ops, Gather(y, wires));
    assert Delivers(m.last, w, Gather(y, wires), z);
    RenameRun(m.ops, wires, y);
    RunConcat(n.ops, Rename(m.ops, wires), x);
    JoinedDelivers(n, m, wires, w, x, y, Run(Rename(m.ops, wires), y));
  }

  lemma FirstPartFed(n: Net, m: Net, wires: seq<nat>, v: Ins, x: seq<int>)
    requires Fits(n, m, wires) && Feeds(FirstAfter(n, m, wires), v, x)
    ensures Feeds(n.first, v, x)
  {
    var f := FirstAfter(n, m, wires);
    forall i | 0 <= i < |n.first| && n.first[i].Some? ensures v(n.first[i].value) == x[i] {
      assert f[i] == n.first[i];
    }
  }

  lemma SecondPartFed(n: Net, m: Net, wires: seq<nat>, v: Ins, w: Outs, x: seq<int>, y: seq<int>)
    requires Fits(n, m, wires) && Ends(n) && Ends(m) && Feeds(FirstAfter(n, m, wires), v, x)
    requires Delivers(n.last, w, x, y) && JoinsHold(AllJoins(n, m, wires), v, w)
    ensures Feeds(m.first, v, Gather(y, wires))
  {
    var f := FirstAfter(n, m, wires);
    var cs := AllJoins(n, m, wires);
    forall i | 0 <= i < |m.first| && m.first[i].Some? ensures v(m.first[i].value) == y[wires[i]] {
      var wire := wires[i];
      if n.last[wire].Some? {
        var t := JoinListed(n.last, m.first, wires, |wires|, i);
        assert v(cs[t].to) == w(cs[t].from);
      } else {
        assert Index(wires, wire) == i;
        assert f[wire] == m.first[i];
      }
    }
  }

  lemma JoinedDelivers(n: Net, m: Net, wires: seq<nat>, w: Outs, x: seq<int>, y: seq<int>, r: seq<int>)
    requires Fits(n, m, wires) && Ends(n) && Ends(m) && Delivers(n.last, w, x, y)
    requires |r| == |y| && Delivers(m.last, w, Gather(y, wires), Gather(r, wires))
    requires forall k :: 0 <= k < |y| && k !in wires ==> r[k] == y[k]
    ensures Delivers(LastAfter(n, m, wires), w, x, r)
  {
    var l := LastAfter(n, m, wires);
    forall k | 0 <= k < |l|
      ensures if l[k].Some? then w(l[k].value) == r[k] else r[k] == x[k]
    {
      if k in wires {
        var i := Index(wires, k);
        assert Gather(r, wires)[i] == r[k] && Gather(y, wires)[i] == y[k];
        assert m.last[i].Some? ==> w(m.last[i].value) == Gather(r, wires)[i];
        assert m.last[i].None? ==> Gather(r, wires)[i] == Gather(y, wires)[i];
      }
    }
  }

  // ----- an evaluation of the joined graph -----

  lemma AppendRealizable(n: Net, m: Net, wires: seq<nat>)
    requires Fits(n, m, wires) && NetOk(n) && NetOk(m)
    ensures Realizable(AppendNet(n, m, wires))
  {
    var j := AppendNet(n, m, wires);
    hide Run, NetOk, Ends, Evaluation, Connect;
    forall x: seq<int> | |x| == |j.first| ensures exists v: Ins, w: Outs :: Evaluation(j, v, w, x) {
      var v, w := JoinEvaluations(n, m, wires, x);
    }
  }

  /** Evaluate the first part on x and the second on what it delivers. */
  lemma JoinEvaluations(n: Net, m: Net, wires: seq<nat>, x: seq<int>) returns (v: Ins, w: Outs)
    requires Fits(n, m, wires) && NetOk(n) && NetOk(m) && |x| == |n.first|
    ensures Evaluation(AppendNet(n, m, wires), v, w, x)
  {
    hide Run, Ordered, WF, Evaluation;
    var v1: Ins, w1: Outs :| Evaluation(n, v1, w1, x);
    EvaluationDelivers(n, v1, w1, x);
    var y := Run(n.ops, x);
    assert |Gather(y, wires)| == |m.first|;
    var v2: Ins, w2: Outs :| Evaluation(m, v2, w2, Gather(y, wires));
    v := (b: InAddr) => if b.gate in m.g.gates then v2(b) else v1(b);
    w := (a: OutAddr) => if a.gate in m.g.gates then w2(a) else w1(a);
    MergeEvaluations(n, m, wires, x, y, v1, w1, v2, w2, v, w);
  }

  lemma EvaluationDelivers(n: Net, v: Ins, w: Outs, x: seq<int>)
    requires Computes(n) && Evaluation(n, v, w, x)
    ensures Delivers(n.last, w, x, Run(n.ops, x))
  {
    hide Run, Consistent, Delivers;
  }

  lemma MergeEvaluations(n: Net, m: Net, wires: seq<nat>, x: seq<int>, y: seq<int>,
                         v1: Ins, w1: Outs, v2: Ins, w2: Outs, v: Ins, w: Outs)
    requires Fits(n, m, wires) && Ends(n) && Ends(m) && WF(n.g) && WF(m.g) && ValidOps(m.ops, |m.first|)
    requires Evaluation(n, v1, w1, x) && Delivers(n.last, w1, x, y) && Evaluation(m, v2, w2, Gather(y, wires))
    requires forall b: InAddr :: v(b) == if b.gate in m.g.gates then v2(b) else v1(b)
    requires forall a: OutAddr :: w(a) == if a.gate in m.g.gates then w2(a) else w1(a)
    ensures Evaluation(AppendNet(n, m, wires), v, w, x)
  {
    SamePorts(n.g, v1, w1, v, w);
    SamePorts(m.g, v2, w2, v, w);
    AppendWF(n, m, wires);
    hide Connect, Connected, FreeConnections, Consistent;
    SameEnds(n, v1, w1, v, w, x);
    SameEnds(m, v2, w2, v, w, Gather(y, wires));
    EvaluationJoins(n, m, wires, v, w, y);
    JoinConsistent(n.g, m.g, AllJoins(n, m, wires), v, w);
    EvaluationFed(n, m, wires, v, x, y);
  }

  lemma SameEnds(n: Net, v: Ins, w: Outs, v': Ins, w': Outs, x: seq<int>)
    requires WF(n.g) && Ends(n) && Feeds(n.first, v, x)
    requires forall b: InAddr :: b.gate in n.g.gates ==> v'(b) == v(b)
    requires forall a: OutAddr :: a.gate in n.g.gates ==> w'(a) == w(a)
    ensures Feeds(n.first, v', x)
    ensures forall i :: 0 <= i < |n.last| && n.last[i].Some? ==> w'(n.last[i].value) == w(n.last[i].value)
  {
    forall i | 0 <= i < |n.first| && n.first[i].Some?
      ensures v'(n.first[i].value) == x[i] && w'(n.last[i].value) == w(n.last[i].value)
    {
      assert HasIn(n.g, n.first[i].value) && HasOut(n.g, n.last[i].value);
    }
  }

  /** Consistency only looks at the ports of the graph's own gates. */
  lemma SamePorts(g: Graph, v: Ins, w: Outs, v': Ins, w': Outs)
    requires WF(g) && Consistent(g, v, w)
    requires forall b: InAddr :: b.gate in g.gates ==> v'(b) == v(b)
    requires forall a: OutAddr :: a.gate in g.gates ==> w'(a) == w(a)
    ensures Consistent(g, v', w')
  {
    forall t | t in g.gates ensures GateHolds(t, v', w') {
      assert GateHolds(t, v, w);
      assert GateInputs(t, v') == GateInputs(t, v);
    }
    forall b | b in g.bwd ensures v'(b) == w'(g.bwd[b]) {
      assert HasIn(g, b) && g.bwd[b] in g.fwd && HasOut(g, g.bwd[b]);
    }
  }

  lemma EvaluationJoins(n: Net, m: Net, wires: seq<nat>, v: Ins, w: Outs, y: seq<int>)
    requires Fits(n, m, wires) && Ends(n) && Ends(m) && |y| == |n.last|
    requires Feeds(m.first, v, Gather(y, wires))
    requires forall i :: 0 <= i < |n.last| && n.last[i].Some? ==> w(n.last[i].value) == y[i]
    ensures JoinsHold(AllJoins(n, m, wires), v, w)
  {
    var cs := AllJoins(n, m, wires);
    forall t | 0 <= t < |cs| ensures v(cs[t].to) == w(cs[t].from) {
      var i := JoinOf(n.last, m.first, wires, |wires|, t);
      assert v(m.first[i].value) == Gather(y, wires)[i];
    }
  }

  lemma EvaluationFed(n: Net, m: Net, wires: seq<nat>, v: Ins, x: seq<int>, y: seq<int>)
    requires Fits(n, m, wires) && Ends(n) && Ends(m) && |x| == |y| == |n.first|
    requires Feeds(n.first, v, x) && Feeds(m.first, v, Gather(y, wires))
    requires forall i :: 0 <= i < |n.last| && n.last[i].None? ==> y[i] == x[i]
    ensures Feeds(FirstAfter(n, m, wires), v, x)
  {
    var f := FirstAfter(n, m, wires);
    forall k | 0 <= k < |f| && f[k].Some? ensures v(f[k].value) == x[k] {
      if n.first[k].None? {
        var i := Index(wires, k);
        assert v(m.first[i].value) == Gather(y, wires)[i];
      }
    }
  }

  // ----- the unconnected ports and the order of the joined graph -----

  lemma AppendEnds(n: Net, m: Net, wires: seq<nat>)
    requires Fits(n, m, wires) && Ends(n) && Ends(m) && WF(n.g) && WF(m.g) && ValidOps(m.ops, |m.first|)
    ensures Ends(AppendNet(n, m, wires))
  {
    AppendWF(n, m, wires);
    hide Connect, WellFormedKind, WF, Ends, Connected, FreeConnections, FirstAfter, LastAfter, ValidOps;
    JoinedEnds(n, m, wires, AppendNet(n, m, wires));
  }

  lemma JoinedEnds(n: Net, m: Net, wires: seq<nat>, j: Net)
    requires Fits(n, m, wires) && Ends(n) && Ends(m) && WF(n.g) && WF(m.g)
    requires j.first == FirstAfter(n, m, wires) && j.last == LastAfter(n, m, wires)
    requires WF(j.g) && WF(Union(n.g, m.g)) && Connected(Union(n.g, m.g), AllJoins(n, m, wires), j.g)
    ensures Ends(j)
  {
    LengthsMatch(n, m, wires);
    hide *;
    JoinedEndsDiffer(n, m, wires, j);
    JoinedEndsUsed(n, m, wires, j);
    JoinedEndsCover(n, m, wires, j);
    EndsIntro(j);
  }

  lemma JoinedEndsUsed(n: Net, m: Net, wires: seq<nat>, j: Net)
    requires Fits(n, m, wires) && Ends(n) && Ends(m) && WF(n.g) && WF(m.g) && |j.first| == |j.last| == |n.first|
    requires j.first == FirstAfter(n, m, wires) && j.last == LastAfter(n, m, wires)
    requires WF(j.g) && WF(Union(n.g, m.g)) && Connected(Union(n.g, m.g), AllJoins(n, m, wires), j.g)
    ensures EndsUsed(j)
  {
    hide WF, Ends, Connected, FirstAfter, LastAfter, Joins, Union, Fits, EndOk;
    forall k | 0 <= k < |j.first| ensures EndOk(j, k) { AppendEnd(n, m, wires, j, k); }
  }

  lemma JoinedEndsCover(n: Net, m: Net, wires: seq<nat>, j: Net)
    requires Fits(n, m, wires) && Ends(n) && Ends(m)
    requires j.first == FirstAfter(n, m, wires) && j.last == LastAfter(n, m, wires)
    requires WF(j.g) && WF(Union(n.g, m.g)) && Connected(Union(n.g, m.g), AllJoins(n, m, wires), j.g)
    ensures EndsCover(j)
  {
    hide WF, Ends, Connected, FirstAfter, LastAfter, Joins, Union, Fits;
    forall b | b in j.g.ins ensures Some(b) in j.first { AppendIns(n, m, wires, j, b); }
    forall a | a in j.g.outs ensures Some(a) in j.last { AppendOuts(n, m, wires, j, a); }
  }

  lemma JoinedEndsDiffer(n: Net, m: Net, wires: seq<nat>, j: Net)
    requires Fits(n, m, wires) && Ends(n) && Ends(m) && WF(n.g) && WF(m.g)
    requires j.first == FirstAfter(n, m, wires) && j.last == LastAfter(n, m, wires)
    ensures EndsDiffer(j)
  {
    LengthsMatch(n, m, wires);
    hide WF, Ends, Connected, FirstAfter, LastAfter, Joins, Union, Fits;
    forall k, l | 0 <= k < l < |j.first| && j.first[k].Some? ensures j.first[k] != j.first[l] && j.last[k] != j.last[l] {
      AppendEndsDiffer(n, m, wires, k, l);
    }
  }

  lemma LengthsMatch(n: Net, m: Net, wires: seq<nat>)
    requires Fits(n, m, wires) && Ends(n) && Ends(m)
    ensures |FirstAfter(n, m, wires)| == |LastAfter(n, m, wires)| == |n.first|
  {
  }

  lemma EndsIntro(j: Net)
    requires EndsUsed(j) && EndsDiffer(j) && EndsCover(j)
    ensures Ends(j)
  {
    forall k | 0 <= k < |j.first| ensures j.first[k].Some? <==> j.last[k].Some? { assert EndOk(j, k); }
    forall k | 0 <= k < |j.first| && j.first[k].Some?
      ensures j.first[k].value in j.g.ins && j.last[k].value in j.g.outs
    {
      assert EndOk(j, k);
    }
  }

  ghost predicate EndsDiffer(j: Net) {
    && |j.first| == |j.last|
    && (forall k, l :: 0 <= k < l < |j.first| && j.first[k].Some? ==> j.first[k] != j.first[l] && j.last[k] != j.last[l])
  }

  ghost predicate EndsUsed(j: Net) {
    |j.first| == |j.last| && forall k :: 0 <= k < |j.first| ==> EndOk(j, k)
  }

  ghost predicate EndsCover(j: Net) {
    && (forall b :: b in j.g.ins ==> Some(b) in j.first)
    && (forall a :: a in j.g.outs ==> Some(a) in j.last)
  }

  ghost predicate EndOk(j: Net, k: nat)
    requires k < |j.first| == |j.last|
  {
    && (j.first[k].Some? <==> j.last[k].Some?)
    && (j.first[k].Some? ==> j.first[k].value in j.g.ins && j.last[k].value in j.g.outs)
  }

  lemma AppendEnd(n: Net, m: Net, wires: seq<nat>, j: Net, k: nat)
    requires Fits(n, m, wires) && Ends(n) && Ends(m) && WF(n.g) && WF(m.g) && k < |n.first|
    requires j.first == FirstAfter(n, m, wires) && j.last == LastAfter(n, m, wires)
    requires WF(j.g) && WF(Union(n.g, m.g)) && Connected(Union(n.g, m.g), AllJoins(n, m, wires), j.g)
    ensures EndOk(j, k)
  {
    var cs, u := AllJoins(n, m, wires), Union(n.g, m.g);
    if j.first[k].Some? {
      var b, a := j.first[k].value, j.last[k].value;
      assert b in u.ins && a in u.outs;
      hide Connected, WF, Ends, FirstAfter, LastAfter;
      forall t | 0 <= t < |cs| ensures cs[t].to != b && cs[t].from != a {
        var i := JoinOf(n.last, m.first, wires, |wires|, t);
        FirstNotJoined(n, m, wires, k, i);
        LastNotJoined(n, m, wires, k, i);
      }
      assert !ConnectsTo(cs, b) && !ConnectsFrom(cs, a);
      ConnectedPorts(u, cs, j.g, a, b);
    }
  }

  /** The end ports of a wire are not the ports that a join uses. */
  lemma FirstNotJoined(n: Net, m: Net, wires: seq<nat>, k: nat, i: nat)
    requires Fits(n, m, wires) && Ends(n) && Ends(m) && WF(n.g) && WF(m.g) && k < |n.first| && i < |wires|
    requires n.last[wires[i]].Some? && m.first[i].Some? && FirstAfter(n, m, wires)[k].Some?
    ensures FirstAfter(n, m, wires)[k] != m.first[i]
  {
    hide WF, Ends;
    PortOf(m, i);
    EndsMatch(n, wires[i]);
    OwnFirst(n, m, wires, k);
    if n.first[k].None? && k in wires {
      EndsDistinct(m, i, Index(wires, k));
    }
  }

  lemma LastNotJoined(n: Net, m: Net, wires: seq<nat>, k: nat, i: nat)
    requires Fits(n, m, wires) && Ends(n) && Ends(m) && WF(n.g) && WF(m.g) && k < |n.first| && i < |wires|
    requires n.last[wires[i]].Some? && m.first[i].Some? && FirstAfter(n, m, wires)[k].Some?
    ensures LastAfter(n, m, wires)[k] != n.last[wires[i]]
  {
    hide WF, Ends;
    EndsMatch(n, wires[i]);
    PortOf(n, wires[i]);
    OwnLast(n, m, wires, k);
    if k == wires[i] {
      assert Index(wires, k) == i;
      PortOf(m, i);
    } else {
      EndsDistinct(n, wires[i], k);
    }
  }

  lemma EndsMatch(n: Net, k: nat)
    requires Ends(n) && k < |n.first|
    ensures |n.first| == |n.last| && (n.first[k].Some? <==> n.last[k].Some?)
  {
  }

  /** The end ports of a used wire belong to the graph. */
  lemma PortOf(n: Net, k: nat)
    requires Ends(n) && WF(n.g) && k < |n.first| && n.first[k].Some?
    ensures k < |n.last| && n.last[k].Some?
    ensures n.first[k].value.gate in n.g.gates && n.last[k].value.gate in n.g.gates
  {
    hide Inverse, WellFormedKind, Arity;
    assert HasIn(n.g, n.first[k].value) && HasOut(n.g, n.last[k].value);
  }

  lemma EndsDistinct(n: Net, k: nat, l: nat)
    requires Ends(n) && k < |n.first| && l < |n.first| && k != l && n.first[k].Some?
    ensures |n.last| == |n.first| && n.first[k] != n.first[l] && n.last[k] != n.last[l]
  {
    if l < k && n.first[l].Some? {
      assert n.first[l] != n.first[k] && n.last[l] != n.last[k];
    }
  }

  lemma ConnectedPorts(u: Graph, cs: seq<Connection>, j: Graph, a: OutAddr, b: InAddr)
    requires WF(u) && WF(j) && Connected(u, cs, j)
    ensures b in j.ins <==> b in u.ins && !ConnectsTo(cs, b)
    ensures a in j.outs <==> a in u.outs && !ConnectsFrom(cs, a)
  {
    hide WellFormedKind, Inverse, ConnectsTo, ConnectsFrom;
    assert HasIn(j, b) <==> HasIn(u, b);
    assert HasOut(j, a) <==> HasOut(u, a);
  }

  lemma AppendEndsDiffer(n: Net, m: Net, wires: seq<nat>, k: nat, l: nat)
    requires Fits(n, m, wires) && Ends(n) && Ends(m) && WF(n.g) && WF(m.g) && k < l < |n.first|
    requires FirstAfter(n, m, wires)[k].Some?
    ensures FirstAfter(n, m, wires)[k] != FirstAfter(n, m, wires)[l]
    ensures LastAfter(n, m, wires)[k] != LastAfter(n, m, wires)[l]
  {
    DifferentOwners(n, m, wires, k, l);
    hide *;
  }

  lemma DifferentOwners(n: Net, m: Net, wires: seq<nat>, k: nat, l: nat)
    requires Fits(n, m, wires) && Ends(n) && Ends(m) && WF(n.g) && WF(m.g) && k < l < |n.first|
    requires FirstAfter(n, m, wires)[k].Some?
    ensures FirstAfter(n, m, wires)[k] != FirstAfter(n, m, wires)[l]
    ensures LastAfter(n, m, wires)[k] != LastAfter(n, m, wires)[l]
  {
    OwnFirst(n, m, wires, k);
    OwnFirst(n, m, wires, l);
    OwnLast(n, m, wires, k);
    OwnLast(n, m, wires, l);
    if n.first[k].Some? { EndsDistinct(n, k, l); }
    if k in wires && l in wires && m.first[Index(wires, k)].Some? {
      EndsDistinct(m, Index(wires, k), Index(wires, l));
    }
    AfterSome(n, m, wires, k);
    hide WF, Ends, FirstAfter, LastAfter, ValidWires;
  }

  /** A wire that has a first port also has a last one. */
  lemma AfterSome(n: Net, m: Net, wires: seq<nat>, k: nat)
    requires Fits(n, m, wires) && Ends(n) && Ends(m) && k < |n.first| && FirstAfter(n, m, wires)[k].Some?
    ensures LastAfter(n, m, wires)[k].Some?
    ensures LastAfter(n, m, wires)[k] == n.last[k] ==> n.last[k].Some?
    ensures k in wires && LastAfter(n, m, wires)[k] == m.last[Index(wires, k)] ==> m.last[Index(wires, k)].Some?
  {
    EndsMatch(n, k);
    if k in wires { EndsMatch(m, Index(wires, k)); }
    hide Ends;
  }

  /** A first port comes from the old graph or from the new one, through its own wire. */
  lemma OwnFirst(n: Net, m: Net, wires: seq<nat>, k: nat)
    requires Fits(n, m, wires) && Ends(n) && Ends(m) && WF(n.g) && WF(m.g) && k < |n.first|
    ensures var f := FirstAfter(n, m, wires)[k];
      f.None? || (f == n.first[k] && f.value.gate in n.g.gates)
      || (k in wires && n.first[k].None? && f == m.first[Index(wires, k)] && f.value.gate in m.g.gates)
  {
    hide WF, Ends;
    if n.first[k].Some? {
      PortOf(n, k);
    } else if k in wires && m.first[Index(wires, k)].Some? {
      PortOf(m, Index(wires, k));
    }
  }

  lemma OwnLast(n: Net, m: Net, wires: seq<nat>, k: nat)
    requires Fits(n, m, wires) && Ends(n) && Ends(m) && WF(n.g) && WF(m.g) && k < |n.first|
    ensures var f := LastAfter(n, m, wires)[k];
      f.None? || (f == n.last[k] && n.first[k].Some? && f.value.gate in n.g.gates)
      || (k in wires && f == m.last[Index(wires, k)] && m.first[Index(wires, k)].Some? && f.value.gate in m.g.gates)
  {
    EndsMatch(n, k);
    if k in wires { EndsMatch(m, Index(wires, k)); }
    hide WF, Ends;
    if k in wires && m.last[Index(wires, k)].Some? {
      PortOf(m, Index(wires, k));
    } else if n.last[k].Some? {
      PortOf(n, k);
    }
  }

  lemma JoinMade(n: Net, m: Net, wires: seq<nat>, i: nat)
    requires Fits(n, m, wires) && Ends(n) && Ends(m) && i < |wires| && n.last[wires[i]].Some? && m.first[i].Some?
    ensures ConnectsTo(AllJoins(n, m, wires), m.first[i].value)
    ensures ConnectsFrom(AllJoins(n, m, wires), n.last[wires[i]].value)
  {
    var t := JoinListed(n.last, m.first, wires, |wires|, i);
    assert AllJoins(n, m, wires)[t].to == m.first[i].value;
  }

  lemma AppendIns(n: Net, m: Net, wires: seq<nat>, j: Net, b: InAddr)
    requires Fits(n, m, wires) && Ends(n) && Ends(m) && j.first == FirstAfter(n, m, wires)
    requires WF(j.g) && WF(Union(n.g, m.g)) && Connected(Union(n.g, m.g), AllJoins(n, m, wires), j.g)
    requires b in j.g.ins
    ensures Some(b) in j.first
  {
    var cs, u := AllJoins(n, m, wires), Union(n.g, m.g);
    ConnectedPorts(u, cs, j.g, OutAddr(b.gate, 0), b);
    hide Connected, WF, ConnectsTo, ConnectsFrom, Ends, FirstAfter, Joins;
    if b in n.g.ins {
      OldFirstKept(n, m, wires, b);
    } else {
      NewFirstKept(n, m, wires, b);
    }
  }

  lemma OldFirstKept(n: Net, m: Net, wires: seq<nat>, b: InAddr)
    requires Fits(n, m, wires) && Ends(n) && Ends(m) && b in n.g.ins
    ensures Some(b) in FirstAfter(n, m, wires)
  {
    var k :| 0 <= k < |n.first| && n.first[k] == Some(b);
    hide Ends;
    assert FirstAfter(n, m, wires)[k] == Some(b);
  }

  lemma NewFirstKept(n: Net, m: Net, wires: seq<nat>, b: InAddr)
    requires Fits(n, m, wires) && Ends(n) && Ends(m) && b in m.g.ins
    requires !ConnectsTo(AllJoins(n, m, wires), b)
    ensures Some(b) in FirstAfter(n, m, wires)
  {
    var i :| 0 <= i < |m.first| && m.first[i] == Some(b);
    var k := wires[i];
    EndsMatch(n, k);
    hide Ends, Joins, ConnectsTo, ConnectsFrom;
    if n.last[k].Some? {
      JoinMade(n, m, wires, i);
    }
    assert Index(wires, k) == i;
    assert FirstAfter(n, m, wires)[k] == Some(b);
  }

  lemma AppendOuts(n: Net, m: Net, wires: seq<nat>, j: Net, a: OutAddr)
    requires Fits(n, m, wires) && Ends(n) && Ends(m) && j.last == LastAfter(n, m, wires)
    requires WF(j.g) && WF(Union(n.g, m.g)) && Connected(Union(n.g, m.g), AllJoins(n, m, wires), j.g)
    requires a in j.g.outs
    ensures Some(a) in j.last
  {
    var cs, u := AllJoins(n, m, wires), Union(n.g, m.g);
    ConnectedPorts(u, cs, j.g, a, InAddr(a.gate, 0));
    hide Connected, WF, ConnectsTo, ConnectsFrom, Ends, LastAfter, Joins;
    if a in m.g.outs {
      NewLastKept(n, m, wires, a);
    } else {
      OldLastKept(n, m, wires, a);
    }
  }

  lemma NewLastKept(n: Net, m: Net, wires: seq<nat>, a: OutAddr)
    requires Fits(n, m, wires) && Ends(n) && Ends(m) && a in m.g.outs
    ensures Some(a) in LastAfter(n, m, wires)
  {
    var i :| 0 <= i < |m.last| && m.last[i] == Some(a);
    EndsMatch(n, wires[i]);
    hide Ends;
    assert Index(wires, wires[i]) == i;
    assert LastAfter(n, m, wires)[wires[i]] == Some(a);
  }

  lemma OldLastKept(n: Net, m: Net, wires: seq<nat>, a: OutAddr)
    requires Fits(n, m, wires) && Ends(n) && Ends(m) && a in n.g.outs
    requires !ConnectsFrom(AllJoins(n, m, wires), a)
    ensures Some(a) in LastAfter(n, m, wires)
  {
    var k :| 0 <= k < |n.last| && n.last[k] == Some(a);
    EndsMatch(n, k);
    if k in wires { EndsMatch(m, Index(wires, k)); }
    hide Ends, Joins, ConnectsTo, ConnectsFrom;
    if k in wires && m.last[Index(wires, k)].Some? {
      JoinMade(n, m, wires, Index(wires, k));
    }
    assert LastAfter(n, m, wires)[k] == Some(a);
  }

  lemma BeforeConcat(a: seq<Gate>, b: seq<Gate>, s: Gate, t: Gate)
    ensures Before(a, s, t) || Before(b, s, t) || (s in a && t in b) ==> Before(a + b, s, t)
  {
    var c := a + b;
    if Before(a, s, t) {
      var i, j :| 0 <= i < j < |a| && a[i] == s && a[j] == t;
      assert c[i] == s && c[j] == t;
    }
    if Before(b, s, t) {
      var i, j :| 0 <= i < j < |b| && b[i] == s && b[j] == t;
      assert c[|a| + i] == s && c[|a| + j] == t;
    }
    if s in a && t in b {
      var i :| 0 <= i < |a| && a[i] == s;
      var j :| 0 <= j < |b| && b[j] == t;
      assert c[i] == s && c[|a| + j] == t;
    }
  }

  lemma AppendOrdered(n: Net, m: Net, wires: seq<nat>)
    requires Fits(n, m, wires) && NetOk(n) && NetOk(m)
    ensures Ordered(AppendNet(n, m, wires))
  {
    AppendWF(n, m, wires);
    hide Connect, WF, Computes, Realizable, Ordered, Ends, Connected, FreeConnections;
    JoinedOrdered(n, m, wires, AppendNet(n, m, wires));
  }

  lemma JoinedOrdered(n: Net, m: Net, wires: seq<nat>, j: Net)
    requires Fits(n, m, wires) && Ends(n) && Ends(m) && Ordered(n) && Ordered(m) && WF(n.g) && WF(m.g)
    requires j.order == n.order + m.order && Connected(Union(n.g, m.g), AllJoins(n, m, wires), j.g)
    ensures Ordered(j)
  {
    NoRepeatsConcat(n, m);
    var cs, u := AllJoins(n, m, wires), Union(n.g, m.g);
    assert forall t :: t in j.order <==> t in n.order || t in m.order;
    hide NoRepeats, Before, ConnectsFrom, WF, Ends, Joins;
    forall b | b in j.g.bwd ensures Before(j.order, j.g.bwd[b].gate, b.gate) {
      if b in u.bwd {
        UnionOrdered(n, m, b);
      } else {
        var t :| 0 <= t < |cs| && cs[t].to == b;
        JoinOrdered(n, m, wires, t);
      }
    }
  }

  lemma NoRepeatsConcat(n: Net, m: Net)
    requires Ordered(n) && Ordered(m) && n.g.gates !! m.g.gates
    ensures NoRepeats(n.order + m.order)
  {
    var order := n.order + m.order;
    forall s, t | 0 <= s < t < |order| ensures order[s] != order[t] {
      if s < |n.order| <= t {
        assert order[s] in n.order && order[t] in m.order;
      }
    }
  }

  lemma UnionOrdered(n: Net, m: Net, b: InAddr)
    requires Ordered(n) && Ordered(m) && b in Union(n.g, m.g).bwd
    ensures Before(n.order + m.order, Union(n.g, m.g).bwd[b].gate, b.gate)
  {
    hide Before, NoRepeats;
    if b in m.g.bwd {
      BeforeConcat(n.order, m.order, m.g.bwd[b].gate, b.gate);
    } else {
      BeforeConcat(n.order, m.order, n.g.bwd[b].gate, b.gate);
    }
  }

  lemma JoinOrdered(n: Net, m: Net, wires: seq<nat>, t: nat)
    requires Fits(n, m, wires) && Ends(n) && Ends(m) && Ordered(n) && Ordered(m) && WF(n.g) && WF(m.g)
    requires t < |AllJoins(n, m, wires)|
    ensures var c := AllJoins(n, m, wires)[t]; Before(n.order + m.order, c.from.gate, c.to.gate)
  {
    hide Before, NoRepeats, Joins;
    var c := AllJoins(n, m, wires)[t];
    var i := JoinOf(n.last, m.first, wires, |wires|, t);
    assert n.first[wires[i]].Some?;
    assert HasOut(n.g, c.from) && HasIn(m.g, c.to);
    BeforeConcat(n.order, m.order, c.from.gate, c.to.gate);
  }

  /** AppendNetwork, at the level of values: the appended network is a network again, and its gate
      list is the two lists one after the other. */
  lemma AppendNetOk(n: Net, m: Net, wires: seq<nat>)
    requires Fits(n, m, wires) && NetOk(n) && NetOk(m)
    ensures NetOk(AppendNet(n, m, wires))
  {
    AppendWF(n, m, wires);
    AppendEnds(n, m, wires);
    AppendOrdered(n, m, wires);
    AppendComputes(n, m, wires);
    AppendRealizable(n, m, wires);
    hide WF, Ends, Ordered, Computes, Realizable, Connected, FreeConnections;
  }
}
