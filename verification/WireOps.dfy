/** A network as the list of its gates in append order, applied to an array of wires. */
module WireOps {

  /** What a gate computes. Compare-and-swap puts the smaller value on port 0 and the larger on
      port 1; a permutation gate moves input i to output perm[i]. */
  datatype Kind = CompareAndSwap | Permutation(perm: seq<nat>)

  function Arity(k: Kind): nat {
    match k
    case CompareAndSwap => 2
    case Permutation(perm) => |perm|
  }

  ghost predicate Bijective(perm: seq<nat>) {
    && (forall i :: 0 <= i < |perm| ==> perm[i] < |perm|)
    && (forall i, j :: 0 <= i < j < |perm| ==> perm[i] != perm[j])
    && (forall j :: 0 <= j < |perm| ==> j in perm)
  }

  ghost predicate WellFormedKind(k: Kind) {
    k.Permutation? ==> Bijective(k.perm)
  }

  /** PermutationGate.Unpermute: the first input that goes to the output, or -1. */
  function Unpermute(perm: seq<nat>, output: nat, from: nat): (i: int)
    requires from <= |perm|
    ensures output in perm[from..] ==> from <= i < |perm| && perm[i] == output
    ensures output !in perm[from..] ==> i == -1
    decreases |perm| - from
  {
    if from == |perm| then -1
    else if perm[from] == output then from
    else Unpermute(perm, output, from + 1)
  }

  function Min(a: int, b: int): int { if a <= b then a else b }
  function Max(a: int, b: int): int { if a <= b then b else a }

  /** Value of output port j of a gate on the given inputs. */
  ghost function Output(k: Kind, inputs: seq<int>, j: nat): int
    requires |inputs| == Arity(k) && j < Arity(k) && WellFormedKind(k)
  {
    match k
    case CompareAndSwap => if j == 0 then Min(inputs[0], inputs[1]) else Max(inputs[0], inputs[1])
    case Permutation(perm) => inputs[Unpermute(perm, j, 0)]
  }

  datatype Op = Op(kind: Kind, wires: seq<nat>)

  ghost predicate Distinct(s: seq<nat>) {
    forall i, j :: 0 <= i < j < |s| ==> s[i] != s[j]
  }

  ghost predicate ValidWires(wires: seq<nat>, n: nat) {
    Distinct(wires) && forall i :: 0 <= i < |wires| ==> wires[i] < n
  }

  ghost predicate ValidOp(op: Op, n: nat) {
    WellFormedKind(op.kind) && |op.wires| == Arity(op.kind) && ValidWires(op.wires, n)
  }

  ghost predicate ValidOps(ops: seq<Op>, n: nat) {
    forall i :: 0 <= i < |ops| ==> ValidOp(ops[i], n)
  }

  ghost function Index(s: seq<nat>, v: nat): (i: nat)
    requires v in s
    ensures i < |s| && s[i] == v
  {
    if s[0] == v then 0 else 1 + Index(s[1..], v)
  }

  ghost function Gather(x: seq<int>, wires: seq<nat>): (y: seq<int>)
    requires forall i :: 0 <= i < |wires| ==> wires[i] < |x|
    ensures |y| == |wires| && forall i :: 0 <= i < |wires| ==> y[i] == x[wires[i]]
  {
    seq(|wires|, i requires 0 <= i < |wires| => x[wires[i]])
  }

  ghost function Apply(op: Op, x: seq<int>): (y: seq<int>)
    requires ValidOp(op, |x|)
    ensures |y| == |x|
  {
    seq(|x|, w requires 0 <= w < |x| =>
      if w in op.wires then Output(op.kind, Gather(x, op.wires), Index(op.wires, w)) else x[w])
  }

  lemma ApplyAt(op: Op, x: seq<int>, j: nat)
    requires ValidOp(op, |x|) && j < |op.wires|
    ensures Apply(op, x)[op.wires[j]] == Output(op.kind, Gather(x, op.wires), j)
  {
  }

  lemma ApplyMiss(op: Op, x: seq<int>, w: nat)
    requires ValidOp(op, |x|) && w < |x| && w !in op.wires
    ensures Apply(op, x)[w] == x[w]
  {
  }

  ghost function Run(ops: seq<Op>, x: seq<int>): (y: seq<int>)
    requires ValidOps(ops, |x|)
    ensures |y| == |x|
  {
    if ops == [] then x else Apply(ops[|ops| - 1], Run(ops[..|ops| - 1], x))
  }

  lemma RunOne(op: Op, x: seq<int>)
    requires ValidOp(op, |x|)
    ensures ValidOps([op], |x|) && Run([op], x) == Apply(op, x)
  {
    assert [op][..0] == [];
  }

  lemma {:induction false} RunConcat(a: seq<Op>, b: seq<Op>, x: seq<int>)
    requires ValidOps(a, |x|) && ValidOps(b, |x|)
    ensures ValidOps(a + b, |x|) && Run(a + b, x) == Run(b, Run(a, x))
    decreases |b|
  {
    if b == [] {
      assert a + b == a;
    } else {
      var c := b[..|b| - 1];
      assert (a + b)[..|a + b| - 1] == a + c;
      RunConcat(a, c, x);
    }
  }

  // ----- placing a network on some wires of a larger one -----

  ghost function RenameOp(op: Op, wires: seq<nat>): Op
    requires forall i :: 0 <= i < |op.wires| ==> op.wires[i] < |wires|
  {
    Op(op.kind, seq(|op.wires|, i requires 0 <= i < |op.wires| => wires[op.wires[i]]))
  }

  ghost function Rename(ops: seq<Op>, wires: seq<nat>): (r: seq<Op>)
    requires ValidOps(ops, |wires|)
    ensures |r| == |ops|
  {
    seq(|ops|, i requires 0 <= i < |ops| => RenameOp(ops[i], wires))
  }

  lemma RenameValid(ops: seq<Op>, wires: seq<nat>, n: nat)
    requires ValidOps(ops, |wires|) && ValidWires(wires, n)
    ensures ValidOps(Rename(ops, wires), n)
  {
    forall i | 0 <= i < |ops| ensures ValidOp(Rename(ops, wires)[i], n) {
      var op := ops[i];
      assert ValidOp(op, |wires|);
      var w := RenameOp(op, wires).wires;
      forall a, b | 0 <= a < b < |w| ensures w[a] != w[b] { }
    }
  }

  lemma RenameOpValid(op: Op, wires: seq<nat>, x: seq<int>)
    requires ValidOp(op, |wires|) && ValidWires(wires, |x|)
    ensures ValidOp(RenameOp(op, wires), |x|)
    ensures Gather(x, RenameOp(op, wires).wires) == Gather(Gather(x, wires), op.wires)
  {
    var r := RenameOp(op, wires);
    forall a, b | 0 <= a < b < |r.wires| ensures r.wires[a] != r.wires[b] { }
  }

  lemma RenameApplyAt(op: Op, wires: seq<nat>, x: seq<int>, i: nat)
    requires ValidOp(op, |wires|) && ValidWires(wires, |x|) && i < |wires|
    requires ValidOp(RenameOp(op, wires), |x|)
    ensures Apply(RenameOp(op, wires), x)[wires[i]] == Apply(op, Gather(x, wires))[i]
  {
    hide Apply, Output, Index;
    RenameOpValid(op, wires, x);
    var r := RenameOp(op, wires);
    if i in op.wires {
      var j := Index(op.wires, i);
      ApplyAt(r, x, j);
      ApplyAt(op, Gather(x, wires), j);
    } else {
      assert wires[i] !in r.wires;
      ApplyMiss(r, x, wires[i]);
      ApplyMiss(op, Gather(x, wires), i);
    }
  }

  lemma RenameApply(op: Op, wires: seq<nat>, x: seq<int>)
    requires ValidOp(op, |wires|) && ValidWires(wires, |x|)
    ensures ValidOp(RenameOp(op, wires), |x|)
    ensures Gather(Apply(RenameOp(op, wires), x), wires) == Apply(op, Gather(x, wires))
    ensures forall w :: 0 <= w < |x| && w !in wires ==> Apply(RenameOp(op, wires), x)[w] == x[w]
  {
    RenameOpValid(op, wires, x);
    var r := RenameOp(op, wires);
    var y := Apply(r, x);
    forall i | 0 <= i < |wires| ensures y[wires[i]] == Apply(op, Gather(x, wires))[i] {
      RenameApplyAt(op, wires, x, i);
    }
    forall w | 0 <= w < |x| && w !in wires ensures y[w] == x[w] {
      assert w !in r.wires;
    }
  }

  lemma {:induction false} RenameRun(ops: seq<Op>, wires: seq<nat>, x: seq<int>)
    requires ValidOps(ops, |wires|) && ValidWires(wires, |x|)
    ensures ValidOps(Rename(ops, wires), |x|)
    ensures Gather(Run(Rename(ops, wires), x), wires) == Run(ops, Gather(x, wires))
    ensures forall w :: 0 <= w < |x| && w !in wires ==> Run(Rename(ops, wires), x)[w] == x[w]
    decreases |ops|
  {
    RenameValid(ops, wires, |x|);
    if ops != [] {
      var k := |ops| - 1;
      var init := ops[..k];
      RenameRun(init, wires, x);
      assert Rename(ops, wires)[..k] == Rename(init, wires);
      assert Rename(ops, wires)[k] == RenameOp(ops[k], wires);
      RenameApply(ops[k], wires, Run(Rename(init, wires), x));
    }
  }

  ghost function Range(lo: nat, n: nat): (r: seq<nat>)
    ensures |r| == n && forall i :: 0 <= i < n ==> r[i] == lo + i
  {
    seq(n, i => lo + i)
  }

  /** A network placed on the n wires from lo on works on that slice only. */
  lemma ShiftRun(ops: seq<Op>, lo: nat, n: nat, x: seq<int>)
    requires ValidOps(ops, n) && lo + n <= |x|
    ensures ValidOps(Rename(ops, Range(lo, n)), |x|)
    ensures Run(Rename(ops, Range(lo, n)), x) == x[..lo] + Run(ops, x[lo..lo + n]) + x[lo + n..]
  {
    hide Run, Rename, ValidOp;
    var r := Range(lo, n);
    RenameRun(ops, r, x);
    assert Gather(x, r) == x[lo..lo + n];
    var y := Run(Rename(ops, r), x);
    assert Gather(y, r) == y[lo..lo + n];
    forall w | 0 <= w < |x| && !(lo <= w < lo + n) ensures y[w] == x[w] {
      assert w !in r;
    }
    ThreeParts(x, y, lo, lo + n);
  }

  lemma ThreeParts(x: seq<int>, y: seq<int>, lo: nat, hi: nat)
    requires |x| == |y| && lo <= hi <= |x| && forall w :: 0 <= w < |x| && !(lo <= w < hi) ==> y[w] == x[w]
    ensures y == x[..lo] + y[lo..hi] + x[hi..]
  {
  }

  // ----- the outputs are a permutation of the inputs -----

  ghost predicate Binary(ops: seq<Op>) {
    forall i :: 0 <= i < |ops| ==> Arity(ops[i].kind) == 2
  }

  lemma BinaryApply(op: Op, x: seq<int>)
    requires ValidOp(op, |x|) && Arity(op.kind) == 2
    ensures var a, b := op.wires[0], op.wires[1]; var y := Apply(op, x);
      y == x[a := y[a]][b := y[b]] && (y[a], y[b]) in {(x[a], x[b]), (x[b], x[a])}
  {
    var a, b := op.wires[0], op.wires[1];
    var y := Apply(op, x);
    ApplyAt(op, x, 0);
    ApplyAt(op, x, 1);
    assert Gather(x, op.wires) == [x[a], x[b]];
    if op.kind.Permutation? {
      var p := op.kind.perm;
      var i, j := Unpermute(p, 0, 0), Unpermute(p, 1, 0);
      assert p[0..] == p && 0 in p && 1 in p;
      assert {i, j} == {0, 1};
    }
    forall w | 0 <= w < |x| && w != a && w != b ensures y[w] == x[w] {
      assert w !in op.wires;
    }
  }

  lemma SwapMultiset(x: seq<int>, a: nat, b: nat, u: int, v: int)
    requires a < |x| && b < |x| && a != b && (u, v) in {(x[a], x[b]), (x[b], x[a])}
    ensures multiset(x[a := u][b := v]) == multiset(x)
  {
  }

  lemma {:induction false} RunPermutes(ops: seq<Op>, x: seq<int>)
    requires ValidOps(ops, |x|) && Binary(ops)
    ensures multiset(Run(ops, x)) == multiset(x)
    decreases |ops|
  {
    if ops != [] {
      var k := |ops| - 1;
      RunPermutes(ops[..k], x);
      var y := Run(ops[..k], x);
      BinaryApply(ops[k], y);
      var z := Apply(ops[k], y);
      SwapMultiset(y, ops[k].wires[0], ops[k].wires[1], z[ops[k].wires[0]], z[ops[k].wires[1]]);
    }
  }

  // ----- thresholds commute with networks -----

  ghost function Threshold(x: seq<int>, t: int): (b: seq<int>)
    ensures |b| == |x| && forall i :: 0 <= i < |x| ==> b[i] == if x[i] >= t then 1 else 0
  {
    seq(|x|, i requires 0 <= i < |x| => if x[i] >= t then 1 else 0)
  }

  lemma ThresholdOutput(k: Kind, inputs: seq<int>, t: int, j: nat)
    requires |inputs| == Arity(k) && j < Arity(k) && WellFormedKind(k)
    ensures Output(k, Threshold(inputs, t), j) == Threshold([Output(k, inputs, j)], t)[0]
  {
    hide Bijective;
    match k
    case CompareAndSwap =>
    case Permutation(perm) => OutputFrom(perm, j);
  }

  lemma OutputFrom(perm: seq<nat>, j: nat)
    requires Bijective(perm) && j < |perm|
    ensures 0 <= Unpermute(perm, j, 0) < |perm|
  {
    assert perm[0..] == perm;
  }

  lemma ThresholdApply(op: Op, x: seq<int>, t: int)
    requires ValidOp(op, |x|)
    ensures Apply(op, Threshold(x, t)) == Threshold(Apply(op, x), t)
  {
    var b := Threshold(x, t);
    assert Gather(b, op.wires) == Threshold(Gather(x, op.wires), t);
    forall w | 0 <= w < |x| ensures Apply(op, b)[w] == Threshold(Apply(op, x), t)[w] {
      hide Apply, Output;
      if w in op.wires {
        var j := Index(op.wires, w);
        ApplyAt(op, b, j);
        ApplyAt(op, x, j);
        ThresholdOutput(op.kind, Gather(x, op.wires), t, j);
      } else {
        ApplyMiss(op, b, w);
        ApplyMiss(op, x, w);
      }
    }
  }

  lemma {:induction false} ThresholdRun(ops: seq<Op>, x: seq<int>, t: int)
    requires ValidOps(ops, |x|)
    ensures Run(ops, Threshold(x, t)) == Threshold(Run(ops, x), t)
    decreases |ops|
  {
    if ops != [] {
      ThresholdRun(ops[..|ops| - 1], x, t);
      ThresholdApply(ops[|ops| - 1], Run(ops[..|ops| - 1], x), t);
    }
  }
}
