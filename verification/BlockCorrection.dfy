/** The network of LPSorting.cs that inserts one wire into each of several interleaved lists, built
    from permutation gates and copies of one tree insertion. */
module BlockCorrection {
  import opened WireOps
  import opened Graphs
  import opened NetworkTheory
  import opened Circuits
  import opened EndGates
  import opened PermutationNetworks
  import opened SortingTheory
  import opened SortingNetworks
  import opened PermutationGates

  lemma TableFits(n: Net, t: Gate, count: nat)
    requires t.kind.Permutation? && Bijective(t.kind.perm) && |t.kind.perm| == count <= |n.first|
    requires IdsWithin(n.g.gates, 0, t.id)
    ensures CanPlace(n, t, Range(0, count))
  {
    hide Bijective;
  }

  /** A new permutation gate on the first wires. */
  method AppendTable(factory: SortingNetworkFactory, pn: PermutationNetwork, perm: seq<nat>, ghost ops: seq<Op>, ghost lo: nat)
    requires Bijective(perm) && |perm| <= pn.WireCount
    requires lo <= factory.NextGate && Built(pn, pn.WireCount, ops, lo, factory.NextGate)
    modifies factory, pn.Repr()
    ensures lo <= factory.NextGate
    ensures Built(pn, pn.WireCount, ops + [Op(Permutation(perm), Range(0, |perm|))], lo, factory.NextGate)
  {
    hide Bijective, Built, CanPlace, IdsWithin;
    var gate := factory.NewGate(Permutation(perm));
    var wires := PermutationNetwork.Consecutive(0, |perm|);
    NewGateFits(pn, gate, |perm|, ops, lo);
    PutGate(pn, gate, wires[..], ops, lo);
  }

  lemma NewGateFits(pn: PermutationNetwork, gate: Gate, count: nat, ops: seq<Op>, lo: nat)
    requires Built(pn, pn.WireCount, ops, lo, gate.id)
    requires gate.kind.Permutation? && Bijective(gate.kind.perm) && |gate.kind.perm| == count <= pn.WireCount
    ensures CanPlace(pn.Value(), gate, Range(0, count))
  {
    hide Bijective, NetOk, Labelled;
    TableFits(pn.Value(), gate, count);
  }

  method PutGate(pn: PermutationNetwork, gate: Gate, wires: seq<nat>, ghost ops: seq<Op>, ghost lo: nat)
    requires lo <= gate.id && Built(pn, pn.WireCount, ops, lo, gate.id) && CanPlace(pn.Value(), gate, wires)
    modifies pn.Repr()
    ensures Built(pn, pn.WireCount, ops + [Op(gate.kind, wires)], lo, gate.id + 1)
  {
    IdsWithOne(pn.Circuit.Gates, gate, lo);
    hide NetOk, Labelled, WellFormedKind, CanPlace, WithGate, Ends, WF, IdsWithin, ValidOps;
    pn.AppendGate(gate, wires);
  }

  /** A clone of a network, put on consecutive wires. */
  method AppendCopy(factory: SortingNetworkFactory, pn: PermutationNetwork, sub: PermutationNetwork, startWire: nat,
      ghost ops: seq<Op>, ghost lo: nat)
    requires lo <= factory.NextGate && Built(pn, pn.WireCount, ops, lo, factory.NextGate)
    requires sub.Valid() && ValidOps(sub.Ops, sub.WireCount) && startWire + sub.WireCount <= pn.WireCount
    modifies factory, pn.Repr()
    ensures old(factory.NextGate) <= factory.NextGate
    ensures Built(pn, pn.WireCount, ops + Rename(old(sub.Ops), Range(startWire, sub.WireCount)), lo, factory.NextGate)
  {
    hide Built, NetOk, Labelled, ValidOps, Rename;
    ghost var mid, more := factory.NextGate, sub.Ops;
    var clone, next := sub.Clone(factory.NextGate);
    factory.NextGate := next;
    CloneIsBuilt(clone, more, mid, next);
    factory.AppendBuilt(pn, clone, startWire, ops, more, lo, mid);
  }

  lemma CloneIsBuilt(clone: PermutationNetwork, more: seq<Op>, lo: nat, hi: nat)
    requires clone.Valid() && clone.Ops == more && Numbered(clone.Circuit.Gates, lo, hi)
    ensures Built(clone, clone.WireCount, more, lo, hi)
  {
    hide NetOk, Labelled;
  }

  lemma BuiltLater(pn: PermutationNetwork, ops: seq<Op>, lo: nat, mid: nat, hi: nat)
    requires Built(pn, pn.WireCount, ops, lo, mid) && mid <= hi
    ensures Built(pn, pn.WireCount, ops, lo, hi)
  {
    hide NetOk, Labelled;
  }

  lemma ExactStart(j: nat, size: nat, numGroups: nat)
    requires j < numGroups
    ensures j * (numGroups * size) / numGroups == Cell(j, 0, size) >= 0
    ensures Cell(j, 0, size) + size <= numGroups * size
  {
    SlicesFit(size, j, numGroups);
    assert j * (numGroups * size) == (j * size) * numGroups;
    RowOfCell(j * size, 0, numGroups);
  }

  lemma InsertOpsNext(ops: seq<Op>, size: nat, j: nat)
    requires PowerOfTwo(size)
    ensures Cell(j, 0, size) >= 0
    ensures ops + InsertOps(size, j + 1) == ops + InsertOps(size, j) + Rename(InsertionOps(size), Range(Cell(j, 0, size), size))
  {
    hide InsertionOps, Rename;
  }

  /** The trees: one for each list. */
  method AppendTrees(factory: SortingNetworkFactory, pn: PermutationNetwork, size: nat, numGroups: nat, ghost ops: seq<Op>, ghost lo: nat)
    requires Lists(size, numGroups) && PowerOfTwo(size) && pn.WireCount == numGroups * size
    requires lo <= factory.NextGate && Built(pn, pn.WireCount, ops, lo, factory.NextGate)
    modifies factory, pn.Repr()
    ensures lo <= factory.NextGate && Built(pn, pn.WireCount, ops + InsertOps(size, numGroups), lo, factory.NextGate)
  {
    hide Built, PowerOfTwo, InsertionOps, InsertOps, Lists, IsTree;
    ghost var mid := factory.NextGate;
    var treeInsertion := NewTree(factory, size);
    BuiltLater(pn, ops, lo, mid, factory.NextGate);
    NoTrees(ops, size);
    for j := 0 to numGroups
      invariant mid <= factory.NextGate && IsTree(treeInsertion, size)
      invariant Built(pn, pn.WireCount, ops + InsertOps(size, j), lo, factory.NextGate)
    {
      AppendTree(factory, pn, treeInsertion, size, numGroups, j, ops, lo);
    }
  }

  ghost predicate IsTree(tree: PermutationNetwork, size: nat)
    reads tree.Repr()
  {
    PowerOfTwo(size) && tree.Valid() && tree.Ops == InsertionOps(size) && tree.WireCount == size
  }

  method NewTree(factory: SortingNetworkFactory, size: nat) returns (tree: PermutationNetwork)
    requires PowerOfTwo(size)
    modifies factory
    ensures fresh(tree.Repr()) && IsTree(tree, size) && old(factory.NextGate) <= factory.NextGate
  {
    hide PowerOfTwo, InsertionOps, NetOk, Labelled;
    tree := factory.CreateBinaryTreeInsertion(size);
  }

  method AppendTree(factory: SortingNetworkFactory, pn: PermutationNetwork, tree: PermutationNetwork, size: nat, numGroups: nat, j: nat,
      ghost ops: seq<Op>, ghost lo: nat)
    requires j < numGroups && PowerOfTwo(size) && pn.WireCount == numGroups * size && IsTree(tree, size)
    requires lo <= factory.NextGate && Built(pn, pn.WireCount, ops + InsertOps(size, j), lo, factory.NextGate)
    modifies factory, pn.Repr()
    ensures old(factory.NextGate) <= factory.NextGate
    ensures Built(pn, pn.WireCount, ops + InsertOps(size, j + 1), lo, factory.NextGate)
  {
    hide Built, PowerOfTwo, InsertionOps, InsertOps, Rename, Cell, NetOk, Labelled;
    ExactStart(j, size, numGroups);
    InsertOpsNext(ops, size, j);
    AppendCopy(factory, pn, tree, j * pn.WireCount / numGroups, ops + InsertOps(size, j), lo);
  }

  lemma NoTrees(ops: seq<Op>, size: nat)
    requires PowerOfTwo(size)
    ensures ops + InsertOps(size, 0) == ops
  {
  }

  lemma Regroup(ops: seq<Op>, size: nat, numGroups: nat)
    requires Lists(size, numGroups) && PowerOfTwo(size)
    ensures Interleaved(size, numGroups) >= 0 && Groups(Interleaved(size, numGroups), numGroups, size - 1)
    ensures Groups(numGroups * size, numGroups, size)
    ensures ops + [Op(Permutation(UnshuffleTable(Interleaved(size, numGroups), numGroups, size - 1)), Range(0, Interleaved(size, numGroups)))]
        + [Op(Permutation(InserterTable(size - 1, numGroups)), Range(0, numGroups * size))]
        + InsertOps(size, numGroups)
        + [Op(Permutation(ShuffleTable(numGroups * size, numGroups, size)), Range(0, numGroups * size))]
      == ops + BlockOps(size, numGroups)
  {
    hide UnshuffleTable, InserterTable, ShuffleTable, InsertOps, Interleaved;
    InterleavedGroups(size, numGroups);
    ProductMore(numGroups, 1, size);
  }

  /** The lists are pulled apart, each gets one of the last wires and a tree insertion, and they are
      interleaved again. */
  method AppendBlockCorrection(factory: SortingNetworkFactory, pn: PermutationNetwork, size: nat, numGroups: nat, ghost ops: seq<Op>, ghost lo: nat)
    requires Lists(size, numGroups) && PowerOfTwo(size) && pn.WireCount == numGroups * size
    requires lo <= factory.NextGate && Built(pn, pn.WireCount, ops, lo, factory.NextGate)
    modifies factory, pn.Repr()
    ensures lo <= factory.NextGate && Built(pn, pn.WireCount, ops + BlockOps(size, numGroups), lo, factory.NextGate)
  {
    hide Built, PowerOfTwo, InsertOps, Interleaved, BlockOps, UnshuffleTable, InserterTable, ShuffleTable, Bijective, InverseTables, Groups;
    Regroup(ops, size, numGroups);
    InterleavedGroups(size, numGroups);
    ghost var n := Interleaved(size, numGroups);
    ShuffleAndUnshuffle(n, numGroups, size - 1);
    InserterIsBijective(size - 1, numGroups);
    ShuffleAndUnshuffle(numGroups * size, numGroups, size);
    AppendTable(factory, pn, UnshuffleTable(pn.WireCount - numGroups, numGroups, size - 1), ops, lo);
    ghost var ops1 := ops + [Op(Permutation(UnshuffleTable(n, numGroups, size - 1)), Range(0, n))];
    AppendTable(factory, pn, InserterTable(size - 1, numGroups), ops1, lo);
    ghost var ops2 := ops1 + [Op(Permutation(InserterTable(size - 1, numGroups)), Range(0, numGroups * size))];
    AppendTrees(factory, pn, size, numGroups, ops2, lo);
    AppendTable(factory, pn, ShuffleTable(pn.WireCount, numGroups, size), ops2 + InsertOps(size, numGroups), lo);
  }

  /** In the built network, on sorted interleaved wires every list comes out sorted. */
  lemma BlockNetworkInserts(n: Net, size: nat, numGroups: nat, x: seq<int>)
    requires Computes(n) && Realizable(n) && |x| == |n.first| == numGroups * size
    requires Lists(size, numGroups) && PowerOfTwo(size) && n.ops == BlockOps(size, numGroups)
    requires 0 <= Interleaved(size, numGroups) <= |x| && Ascending(x[..Interleaved(size, numGroups)])
    ensures Outputs(n, x, y => |x| == numGroups * size && TurnsSorted(y, x, size, numGroups))
  {
    EveryTurnSorted(size, numGroups, x);
    hide *;
    RunIsOutput(n, x, y => |x| == numGroups * size && TurnsSorted(y, x, size, numGroups));
  }
}
