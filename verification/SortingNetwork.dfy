/** The sorting-network factory: gate graphs that compute the gate lists of SortingTheory. */
module SortingNetworks {
  import opened Options
  import opened WireOps
  import opened Graphs
  import opened NetworkTheory
  import opened Collapsing
  import opened EndGates
  import opened PermutationNetworks
  import opened SortingTheory

  /** The network is well formed, has the given gate list, and its gates are new. */
  ghost predicate Built(pn: PermutationNetwork, n: nat, ops: seq<Op>, lo: nat, hi: nat)
    reads pn.Repr()
  {
    && pn.Valid() && pn.WireCount == n && pn.Ops == ops
    && IdsWithin(pn.Circuit.Gates, lo, hi)
  }

  ghost predicate IdsWithin(gates: set<Gate>, lo: nat, hi: nat) {
    forall t :: t in gates ==> lo <= t.id < hi
  }

  lemma RenameSame(ops: seq<Op>, n: nat)
    requires ValidOps(ops, n)
    ensures Rename(ops, Range(0, n)) == ops
  {
    var r := Rename(ops, Range(0, n));
    forall i | 0 <= i < |ops| ensures r[i] == ops[i] {
      assert ValidOp(ops[i], n);
      assert r[i].wires == ops[i].wires;
    }
  }

  lemma IdsDisjoint(a: set<Gate>, b: set<Gate>, lo: nat, mid: nat, hi: nat)
    requires IdsWithin(a, lo, mid) && IdsWithin(b, mid, hi) && lo <= mid <= hi
    ensures a !! b && IdsWithin(a + b, lo, hi)
  {
  }

  lemma PairFits(n: Net, t: Gate, i: nat, j: nat)
    requires Arity(t.kind) == 2 && WellFormedKind(t.kind) && i < |n.first| && j < |n.first| && i != j
    requires IdsWithin(n.g.gates, 0, t.id)
    ensures CanPlace(n, t, [i, j])
  {
    hide WellFormedKind;
  }

  class SortingNetworkFactory {
    /** The identity of the next gate object. */
    var NextGate: nat

    constructor ()
      ensures NextGate == 0
    {
      NextGate := 0;
    }

    method NewGate(kind: Kind) returns (gate: Gate)
      modifies this
      ensures gate == Gate(old(NextGate), kind) && NextGate == old(NextGate) + 1
    {
      gate := Gate(NextGate, kind);
      NextGate := NextGate + 1;
    }

    /** Appends a new two-wire gate. */
    method AppendPair(pn: PermutationNetwork, kind: Kind, i: nat, j: nat, ghost ops: seq<Op>, ghost lo: nat)
      requires Arity(kind) == 2 && WellFormedKind(kind)
      requires Built(pn, pn.WireCount, ops, lo, NextGate) && i < pn.WireCount && j < pn.WireCount && i != j
      requires this !in pn.Repr() && lo <= NextGate
      modifies this, pn.Repr()
      ensures Built(pn, pn.WireCount, ops + [Op(kind, [i, j])], lo, NextGate) && lo <= NextGate
    {
      var gate := NewGate(kind);
      PairFits(pn.Value(), gate, i, j);
      IdsWithOne(pn.Circuit.Gates, gate, lo);
      hide NetOk, Labelled, WellFormedKind, CanPlace, WithGate, Ends, WF, IdsWithin, ValidOps;
      pn.AppendGate(gate, [i, j]);
    }

    /** Appends a network that was built after this one. */
    method AppendBuilt(pn: PermutationNetwork, sub: PermutationNetwork, startWire: nat, ghost ops: seq<Op>, ghost more: seq<Op>, ghost lo: nat, ghost mid: nat)
      requires lo <= mid <= NextGate && pn.Repr() !! sub.Repr() && startWire + sub.WireCount <= pn.WireCount
      requires Built(pn, pn.WireCount, ops, lo, mid) && Built(sub, sub.WireCount, more, mid, NextGate)
      requires ValidOps(more, sub.WireCount)
      modifies pn.Repr()
      ensures Built(pn, pn.WireCount, ops + Rename(more, Range(startWire, sub.WireCount)), lo, NextGate)
    {
      hide PermutationNetwork.Valid, NetOk, Labelled, WithNetwork, IdsWithin, ValidOps, Fits, Rename;
      IdsDisjoint(pn.Circuit.Gates, sub.Circuit.Gates, lo, mid, NextGate);
      pn.AppendNetworkAt(sub, startWire);
    }

    static method EmptyNetwork(wireCount: nat, ghost lo: nat) returns (pn: PermutationNetwork)
      ensures fresh(pn.Repr()) && pn.WireCount == wireCount && Built(pn, wireCount, [], lo, lo)
    {
      pn := new PermutationNetwork(wireCount);
      assert pn.Circuit.Gates == {};
      hide NetOk, Labelled;
    }

    method CreateBitonicSplit(wireCount: nat, invertOrder: bool) returns (pn: PermutationNetwork)
      requires PowerOfTwo(wireCount)
      modifies this
      ensures fresh(pn.Repr()) && NextGate >= old(NextGate) && pn.WireCount == wireCount
      ensures Built(pn, wireCount, SplitOps(wireCount / 2, invertOrder, wireCount / 2), old(NextGate), NextGate)
    {
      hide Built, PowerOfTwo;
      pn := EmptyNetwork(wireCount, NextGate);
      var h := wireCount / 2;
      for i := 0 to h
        invariant fresh(pn.Repr()) && NextGate >= old(NextGate) && pn.WireCount == wireCount
        invariant Built(pn, wireCount, SplitOps(h, invertOrder, i), old(NextGate), NextGate)
      {
        AppendRound(pn, invertOrder, i, i + h, SplitOps(h, invertOrder, i), old(NextGate));
        assert SplitOps(h, invertOrder, i + 1) == SplitOps(h, invertOrder, i) + RoundOps(h, invertOrder, i);
      }
    }

    /** One round of the split: compare and swap, and swap again to invert the order. */
    method AppendRound(pn: PermutationNetwork, invertOrder: bool, i: nat, j: nat, ghost ops: seq<Op>, ghost lo: nat)
      requires i < j < pn.WireCount && lo <= NextGate && Built(pn, pn.WireCount, ops, lo, NextGate)
      modifies this, pn.Repr()
      ensures lo <= NextGate && Built(pn, pn.WireCount, ops + RoundOps(j - i, invertOrder, i), lo, NextGate)
    {
      hide Built, Bijective;
      SwapIsBijective();
      ghost var cmp, swap := Op(CompareAndSwap, [i, j]), Op(SWAP, [i, j]);
      AppendPair(pn, CompareAndSwap, i, j, ops, lo);
      if invertOrder {
        AppendPair(pn, SWAP, i, j, ops + [cmp], lo);
        assert ops + [cmp] + [swap] == ops + ([cmp] + [swap]);
      } else {
        assert [cmp] + [] == [cmp];
      }
    }

    method CreateBitonicMerge(wireCount: nat, invertOrder: bool) returns (pn: PermutationNetwork)
      requires PowerOfTwo(wireCount)
      modifies this
      ensures fresh(pn.Repr()) && NextGate >= old(NextGate) && pn.WireCount == wireCount
      ensures Built(pn, wireCount, MergeOps(wireCount, invertOrder), old(NextGate), NextGate)
      decreases wireCount, 0
    {
      hide Built, SplitOps, MergeOps, PowerOfTwo, ValidOps, Rename, HalfMerge, Range;
      pn := EmptyNetwork(wireCount, NextGate);
      var h := wireCount / 2;
      ghost var lo, split, half := NextGate, SplitOps(h, invertOrder, h), HalfMerge(wireCount, invertOrder);
      MergeShape(wireCount, invertOrder);
      AppendSplit(pn, wireCount, invertOrder, lo);
      if wireCount > 2 {
        AppendMerge(pn, h, invertOrder, 0, split, lo);
        AppendMerge(pn, h, invertOrder, h, split + Rename(half, Range(0, h)), lo);
      }
    }

    method AppendSplit(pn: PermutationNetwork, wireCount: nat, invertOrder: bool, ghost lo: nat)
      requires PowerOfTwo(wireCount) && wireCount == pn.WireCount
      requires lo == NextGate && Built(pn, wireCount, [], lo, lo)
      modifies this, pn.Repr()
      ensures lo <= NextGate
      ensures Built(pn, wireCount, SplitOps(wireCount / 2, invertOrder, wireCount / 2), lo, NextGate)
    {
      hide Built, SplitOps, MergeOps, PowerOfTwo, ValidOps, Rename, HalfMerge, Range;
      ghost var split := SplitOps(wireCount / 2, invertOrder, wireCount / 2);
      MergeShape(wireCount, invertOrder);
      var sub := CreateBitonicSplit(wireCount, invertOrder);
      AppendBuilt(pn, sub, 0, [], split, lo, lo);
    }

    method AppendMerge(pn: PermutationNetwork, wireCount: nat, invertOrder: bool, startWire: nat, ghost ops: seq<Op>, ghost lo: nat)
      requires PowerOfTwo(wireCount) && startWire + wireCount <= pn.WireCount
      requires lo <= NextGate && Built(pn, pn.WireCount, ops, lo, NextGate)
      modifies this, pn.Repr()
      ensures lo <= NextGate
      ensures Built(pn, pn.WireCount, ops + Rename(MergeOps(wireCount, invertOrder), Range(startWire, wireCount)), lo, NextGate)
      decreases wireCount, 1
    {
      hide Built, MergeOps, PowerOfTwo, ValidOps, Rename, Range;
      ghost var mid, more := NextGate, MergeOps(wireCount, invertOrder);
      var sub := CreateBitonicMerge(wireCount, invertOrder);
      AppendBuilt(pn, sub, startWire, ops, more, lo, mid);
    }

    method CreateBitonicSort(wireCount: nat, invertOrder: bool) returns (pn: PermutationNetwork)
      requires PowerOfTwo(wireCount)
      modifies this
      ensures fresh(pn.Repr()) && NextGate >= old(NextGate) && pn.WireCount == wireCount
      ensures Built(pn, wireCount, SortOps(wireCount, invertOrder), old(NextGate), NextGate)
      decreases wireCount, 0
    {
      hide Built, SortOps, MergeOps, PowerOfTwo, ValidOps, Rename, SortHalves, Range;
      pn := EmptyNetwork(wireCount, NextGate);
      var h := wireCount / 2;
      ghost var lo := NextGate;
      ghost var halves := SortHalves(wireCount);
      SortShape(wireCount, invertOrder);
      if wireCount >= 4 {
        AppendSort(pn, h, false, 0, [], lo);
        AppendSort(pn, h, true, h, [] + Rename(SortOps(h, false), Range(0, h)), lo);
      }
      AppendMerge(pn, wireCount, invertOrder, 0, halves, lo);
    }

    method AppendSort(pn: PermutationNetwork, wireCount: nat, invertOrder: bool, startWire: nat, ghost ops: seq<Op>, ghost lo: nat)
      requires PowerOfTwo(wireCount) && startWire + wireCount <= pn.WireCount
      requires lo <= NextGate && Built(pn, pn.WireCount, ops, lo, NextGate)
      modifies this, pn.Repr()
      ensures lo <= NextGate
      ensures Built(pn, pn.WireCount, ops + Rename(SortOps(wireCount, invertOrder), Range(startWire, wireCount)), lo, NextGate)
      decreases wireCount, 1
    {
      hide Built, SortOps, PowerOfTwo, ValidOps, Rename, Range;
      ghost var mid, more := NextGate, SortOps(wireCount, invertOrder);
      var sub := CreateBitonicSort(wireCount, invertOrder);
      AppendBuilt(pn, sub, startWire, ops, more, lo, mid);
    }

    method CreateButterflyTournamentRound(wireCount: nat) returns (pn: PermutationNetwork)
      requires PowerOfTwo(wireCount)
      modifies this
      ensures fresh(pn.Repr()) && NextGate >= old(NextGate) && pn.WireCount == wireCount
      ensures Built(pn, wireCount, SplitOps(wireCount / 2, false, wireCount / 2), old(NextGate), NextGate)
    {
      hide Built, PowerOfTwo;
      pn := EmptyNetwork(wireCount, NextGate);
      var h := wireCount / 2;
      for i := 0 to h
        invariant fresh(pn.Repr()) && NextGate >= old(NextGate) && pn.WireCount == wireCount
        invariant Built(pn, wireCount, SplitOps(h, false, i), old(NextGate), NextGate)
      {
        ghost var cmp := [Op(CompareAndSwap, [i, i + h])];
        AppendPair(pn, CompareAndSwap, i, i + h, SplitOps(h, false, i), old(NextGate));
        assert cmp + [] == cmp;
        assert SplitOps(h, false, i + 1) == SplitOps(h, false, i) + cmp;
      }
    }

    method CreateButterflyTournament(wireCount: nat) returns (pn: PermutationNetwork)
      requires PowerOfTwo(wireCount)
      modifies this
      ensures fresh(pn.Repr()) && NextGate >= old(NextGate) && pn.WireCount == wireCount
      ensures Built(pn, wireCount, TournamentOps(wireCount), old(NextGate), NextGate)
      decreases wireCount, 0
    {
      hide Built, SplitOps, TournamentOps, PowerOfTwo, ValidOps, Rename, Range;
      TournamentShape(wireCount);
      pn := EmptyNetwork(wireCount, NextGate);
      if wireCount == 1 {
        return pn;
      }
      var h := wireCount / 2;
      ghost var lo, round := NextGate, SplitOps(h, false, h);
      AppendTournamentRound(pn, wireCount, lo);
      if wireCount > 2 {
        AppendTournament(pn, h, 0, round, lo);
        AppendTournament(pn, h, h, round + Rename(TournamentOps(h), Range(0, h)), lo);
      }
    }

    method AppendTournamentRound(pn: PermutationNetwork, wireCount: nat, ghost lo: nat)
      requires PowerOfTwo(wireCount) && wireCount == pn.WireCount
      requires lo == NextGate && Built(pn, wireCount, [], lo, lo)
      modifies this, pn.Repr()
      ensures lo <= NextGate && Built(pn, wireCount, SplitOps(wireCount / 2, false, wireCount / 2), lo, NextGate)
    {
      hide Built, SplitOps, MergeOps, PowerOfTwo, ValidOps, Rename, HalfMerge, Range;
      ghost var round := SplitOps(wireCount / 2, false, wireCount / 2);
      MergeShape(wireCount, false);
      var sub := CreateButterflyTournamentRound(wireCount);
      AppendBuilt(pn, sub, 0, [], round, lo, lo);
    }

    method AppendTournament(pn: PermutationNetwork, wireCount: nat, startWire: nat, ghost ops: seq<Op>, ghost lo: nat)
      requires PowerOfTwo(wireCount) && startWire + wireCount <= pn.WireCount
      requires lo <= NextGate && Built(pn, pn.WireCount, ops, lo, NextGate)
      modifies this, pn.Repr()
      ensures lo <= NextGate
      ensures Built(pn, pn.WireCount, ops + Rename(TournamentOps(wireCount), Range(startWire, wireCount)), lo, NextGate)
      decreases wireCount, 1
    {
      hide Built, TournamentOps, PowerOfTwo, ValidOps, Rename, Range;
      ghost var mid, more := NextGate, TournamentOps(wireCount);
      var sub := CreateButterflyTournament(wireCount);
      AppendBuilt(pn, sub, startWire, ops, more, lo, mid);
    }

    method CreateBinaryTreeInsertion(wireCount: nat) returns (pn: PermutationNetwork)
      requires PowerOfTwo(wireCount)
      modifies this
      ensures fresh(pn.Repr()) && NextGate >= old(NextGate) && pn.WireCount == wireCount
      ensures Built(pn, wireCount, InsertionOps(wireCount), old(NextGate), NextGate)
      decreases wireCount, 0
    {
      hide Built, InsertionOps, PowerOfTwo, ValidOps, Rename, Range;
      InsertionShape(wireCount);
      pn := EmptyNetwork(wireCount, NextGate);
      if wireCount == 1 {
        return pn;
      }
      var h := wireCount / 2;
      ghost var lo, first := NextGate, [Op(CompareAndSwap, [0, h])];
      AppendPair(pn, CompareAndSwap, 0, h, [], lo);
      assert [] + first == first;
      if wireCount > 2 {
        AppendInsertion(pn, h, 0, first, lo);
        AppendInsertion(pn, h, h, first + Rename(InsertionOps(h), Range(0, h)), lo);
      }
    }

    method AppendInsertion(pn: PermutationNetwork, wireCount: nat, startWire: nat, ghost ops: seq<Op>, ghost lo: nat)
      requires PowerOfTwo(wireCount) && startWire + wireCount <= pn.WireCount
      requires lo <= NextGate && Built(pn, pn.WireCount, ops, lo, NextGate)
      modifies this, pn.Repr()
      ensures lo <= NextGate
      ensures Built(pn, pn.WireCount, ops + Rename(InsertionOps(wireCount), Range(startWire, wireCount)), lo, NextGate)
      decreases wireCount, 1
    {
      hide Built, InsertionOps, PowerOfTwo, ValidOps, Rename, Range;
      ghost var mid, more := NextGate, InsertionOps(wireCount);
      var sub := CreateBinaryTreeInsertion(wireCount);
      AppendBuilt(pn, sub, startWire, ops, more, lo, mid);
    }
  }

  // ----- how the gate lists are put together -----

  ghost function SortHalves(n: nat): seq<Op>
    requires PowerOfTwo(n)
  {
    var h := n / 2;
    if n >= 4 then
      [] + Rename(SortOps(h, false), Range(0, h)) + Rename(SortOps(h, true), Range(h, h))
    else []
  }

  lemma SortShape(n: nat, invert: bool)
    requires PowerOfTwo(n)
    ensures var h := n / 2;
      (n >= 4 ==> PowerOfTwo(h) && 2 * h == n) &&
      (n >= 4 ==> SortHalves(n) == [] + Rename(SortOps(h, false), Range(0, h)) + Rename(SortOps(h, true), Range(h, h))) &&
      (n < 4 ==> SortHalves(n) == []) &&
      SortOps(n, invert) == SortHalves(n) + Rename(MergeOps(n, invert), Range(0, n))
  {
    RenameSame(MergeOps(n, invert), n);
    hide Rename;
    if n >= 4 {
      var h := n / 2;
      var low, high := Rename(SortOps(h, false), Range(0, h)), Rename(SortOps(h, true), Range(h, h));
      assert SortOps(n, invert) == low + high + MergeOps(n, invert);
      assert [] + low == low;
    } else {
      assert [] + MergeOps(n, invert) == MergeOps(n, invert);
    }
  }

  lemma TournamentShape(n: nat)
    requires PowerOfTwo(n)
    ensures n >= 1 && (n == 1 ==> TournamentOps(n) == [])
    ensures n > 1 ==> PowerOfTwo(n / 2)
    ensures n > 1 ==> (var h := n / 2; var round := SplitOps(h, false, h); var half := TournamentOps(h);
      2 * h == n && (n == 2 ==> TournamentOps(n) == round) &&
      (n > 2 ==> TournamentOps(n) == round + Rename(half, Range(0, h)) + Rename(half, Range(h, h))))
  {
    if n > 1 { TournamentUnfolds(n); }
    hide SplitOps, TournamentOps, Rename;
  }

  lemma InsertionShape(n: nat)
    requires PowerOfTwo(n)
    ensures n >= 1 && (n == 1 ==> InsertionOps(n) == [])
    ensures n > 1 ==> PowerOfTwo(n / 2)
    ensures n > 1 ==> (var h := n / 2; var first := [Op(CompareAndSwap, [0, h])]; var half := InsertionOps(h);
      2 * h == n && (n == 2 ==> InsertionOps(n) == first) &&
      (n > 2 ==> InsertionOps(n) == first + Rename(half, Range(0, h)) + Rename(half, Range(h, h))))
  {
    if n > 1 { InsertionUnfolds(n); }
    hide InsertionOps, Rename;
  }

  ghost function HalfMerge(n: nat, invert: bool): seq<Op>
    requires PowerOfTwo(n)
  {
    if n > 2 then MergeOps(n / 2, invert) else []
  }

  lemma MergeShape(n: nat, invert: bool)
    requires PowerOfTwo(n)
    ensures var h := n / 2; var split := SplitOps(h, invert, h); var half := HalfMerge(n, invert);
      ValidOps(split, n) && [] + Rename(split, Range(0, n)) == split &&
      (n <= 2 ==> MergeOps(n, invert) == split) &&
      (n > 2 ==> PowerOfTwo(h) && half == MergeOps(h, invert) && ValidOps(half, h) && 2 * h == n) &&
      (n > 2 ==> MergeOps(n, invert) == split + Rename(half, Range(0, h)) + Rename(half, Range(h, h)))
  {
    var h := n / 2;
    SplitValid(h, invert, h);
    if n > 1 { MergeUnfolds(n, invert); }
    assert ValidOps(SplitOps(h, invert, h), n);
    RenameSame(SplitOps(h, invert, h), n);
    hide SplitOps, ValidOp;
  }

  lemma IdsWithOne(gates: set<Gate>, t: Gate, lo: nat)
    requires IdsWithin(gates, lo, t.id) && lo <= t.id
    ensures IdsWithin(gates + {t}, lo, t.id + 1)
  {
  }

  // ----- what the built networks do -----

  /** On x, the network has an evaluation, and every evaluation delivers what good accepts. */
  ghost predicate Outputs(n: Net, x: seq<int>, good: seq<int> -> bool) {
    && (exists v: Ins, w: Outs :: Evaluation(n, v, w, x))
    && (forall v: Ins, w: Outs :: Evaluation(n, v, w, x) ==> exists y :: Delivers(n.last, w, x, y) && good(y))
  }

  lemma RunIsOutput(n: Net, x: seq<int>, good: seq<int> -> bool)
    requires Computes(n) && Realizable(n) && |x| == |n.first| && good(Run(n.ops, x))
    ensures Outputs(n, x, good)
  {
    hide Run, Consistent, Feeds, Delivers;
    forall v: Ins, w: Outs | Evaluation(n, v, w, x) ensures exists y :: Delivers(n.last, w, x, y) && good(y) {
      assert Delivers(n.last, w, x, Run(n.ops, x));
    }
  }

  /** A graph built by CreateBitonicSort sorts every input, in the order asked for. */
  lemma BitonicNetworkSorts(n: Net, invert: bool, x: seq<int>)
    requires Computes(n) && Realizable(n) && |x| == |n.first| && PowerOfTwo(|x|)
    requires n.ops == SortOps(|x|, invert)
    ensures Outputs(n, x, y => Sorted(y, invert) && multiset(y) == multiset(x))
  {
    BitonicSortSorts(|x|, invert, x);
    hide *;
    RunIsOutput(n, x, y => Sorted(y, invert) && multiset(y) == multiset(x));
  }

  lemma TournamentNetworkExtremes(n: Net, x: seq<int>)
    requires Computes(n) && Realizable(n) && |x| == |n.first| && PowerOfTwo(|x|)
    requires n.ops == TournamentOps(|x|)
    ensures Outputs(n, x, y => LeastFirst(y, x) && GreatestLast(y, x) && multiset(y) == multiset(x))
  {
    TournamentExtremes(|x|, x);
    hide *;
    RunIsOutput(n, x, y => LeastFirst(y, x) && GreatestLast(y, x) && multiset(y) == multiset(x));
  }

  lemma InsertionNetworkSorts(n: Net, x: seq<int>)
    requires Computes(n) && Realizable(n) && |x| == |n.first| && PowerOfTwo(|x|)
    requires n.ops == InsertionOps(|x|) && Ascending(x[1..])
    ensures Outputs(n, x, y => Ascending(y) && multiset(y) == multiset(x))
  {
    InsertionSorts(|x|, x);
    hide *;
    RunIsOutput(n, x, y => Ascending(y) && multiset(y) == multiset(x));
  }

  // ----- an ascending sorter can be collapsed -----

  lemma RoundKinds(h: nat, invert: bool, i: nat, w: nat)
    ensures FirstKind(RoundOps(h, invert, i), w) == if w == i || w == i + h then Some(CompareAndSwap) else None
    ensures !invert ==> LastKind(RoundOps(h, invert, i), w) == FirstKind(RoundOps(h, invert, i), w)
  {
    var cmp, swap := Op(CompareAndSwap, [i, i + h]), Op(SWAP, [i, i + h]);
    KindsOfOne(cmp, w);
    if invert {
      KindsOfOne(swap, w);
      KindsConcat([cmp], [swap], w);
    } else {
      assert [cmp] + [] == [cmp];
    }
  }

  lemma NoKinds(w: nat)
    ensures FirstKind([], w) == LastKind([], w) == None
  {
  }

  lemma {:induction false} SplitKinds(h: nat, invert: bool, k: nat, w: nat)
    requires k <= h && w < 2 * h
    ensures FirstKind(SplitOps(h, invert, k), w) == if w < k || h <= w < h + k then Some(CompareAndSwap) else None
    ensures !invert ==> LastKind(SplitOps(h, invert, k), w) == FirstKind(SplitOps(h, invert, k), w)
  {
    hide FirstKind, LastKind, RoundOps;
    if k == 0 {
      NoKinds(w);
    } else {
      SplitKinds(h, invert, k - 1, w);
      RoundKinds(h, invert, k - 1, w);
      KindsConcat(SplitOps(h, invert, k - 1), RoundOps(h, invert, k - 1), w);
    }
  }

  lemma HalvesKinds(low: seq<Op>, high: seq<Op>, h: nat, w: nat)
    requires ValidOps(low, h) && ValidOps(high, h) && w < 2 * h
    ensures FirstKind(Halves(low, high, h), w) == if w < h then FirstKind(low, w) else FirstKind(high, w - h)
    ensures LastKind(Halves(low, high, h), w) == if w < h then LastKind(low, w) else LastKind(high, w - h)
  {
    hide FirstKind, LastKind, Rename, ValidOps;
    var l, u := Range(0, h), Range(h, h);
    KindsConcat(Rename(low, l), Rename(high, u), w);
    KindsRename(low, l, w);
    KindsRename(high, u, w);
    if w < h {
      assert l[w] == w;
    } else {
      assert u[w - h] == w;
    }
  }

  /** Every wire of a merge starts with a compare-and-swap gate, and in an ascending merge it also
      ends with one. */
  lemma {:induction false} MergeKinds(n: nat, invert: bool, w: nat)
    requires PowerOfTwo(n) && n > 1 && w < n
    ensures FirstKind(MergeOps(n, invert), w) == Some(CompareAndSwap)
    ensures !invert ==> LastKind(MergeOps(n, invert), w) == Some(CompareAndSwap)
    decreases n
  {
    var h := n / 2;
    MergeUnfolds(n, invert);
    SplitKinds(h, invert, h, w);
    if n > 2 {
      var half := MergeOps(h, invert);
      KindsConcat(SplitOps(h, invert, h), Halves(half, half, h), w);
      HalvesKinds(half, half, h, w);
      MergeKinds(h, invert, if w < h then w else w - h);
    }
  }

  lemma {:induction false} SortFirst(n: nat, invert: bool, w: nat)
    requires PowerOfTwo(n) && n > 1 && w < n
    ensures FirstKind(SortOps(n, invert), w) == Some(CompareAndSwap)
    decreases n
  {
    var h := n / 2;
    MergeKinds(n, invert, w);
    if n >= 4 {
      var low, high := SortOps(h, false), SortOps(h, true);
      KindsConcat(Halves(low, high, h), MergeOps(n, invert), w);
      HalvesKinds(low, high, h, w);
      SortFirst(h, w >= h, if w < h then w else w - h);
    }
  }

  lemma SortEndsCompare(n: nat)
    requires PowerOfTwo(n)
    ensures ComparesAtEnds(SortOps(n, false), n)
  {
    forall w: nat | w < n
      ensures ComparesOnly(FirstKind(SortOps(n, false), w)) && ComparesOnly(LastKind(SortOps(n, false), w))
    {
      if n > 1 {
        SortFirst(n, false, w);
        MergeKinds(n, false, w);
        if n >= 4 {
          var h := n / 2;
          KindsConcat(Halves(SortOps(h, false), SortOps(h, true), h), MergeOps(n, false), w);
        }
      }
    }
  }

  /** CollapsePermutationGates can always be called on an ascending bitonic sorter. */
  lemma BitonicCanCollapse(n: Net)
    requires NetOk(n) && Labelled(n) && PowerOfTwo(|n.first|) && n.ops == SortOps(|n.first|, false)
    ensures forall t :: t in n.g.gates && IsPermutation(t) ==> FullyConnected(n.g, t)
  {
    SortEndsCompare(|n.first|);
    hide *;
    PermutationsConnected(n);
  }

  /** A whole use: build an ascending sorter and collapse it. What is left is compare-and-swap gates
      only, and it still sorts. */
  method CollapsedSorter(factory: SortingNetworkFactory, wireCount: nat) returns (pn: PermutationNetwork)
    requires PowerOfTwo(wireCount)
    modifies factory
    ensures fresh(pn.Repr()) && WF(pn.Circuit.Value()) && Acyclic(pn.Circuit.Value())
    ensures forall t :: t in pn.Circuit.Gates ==> !IsPermutation(t)
    ensures |pn.Value().first| == wireCount
    ensures forall x: seq<int> :: |x| == wireCount ==> Outputs(pn.Value(), x, y => Sorted(y, false) && multiset(y) == multiset(x))
  {
    pn := factory.CreateBitonicSort(wireCount, false);
    CollapseBitonic(pn);
  }

  method CollapseBitonic(pn: PermutationNetwork)
    requires pn.Valid() && PowerOfTwo(pn.WireCount) && pn.Ops == SortOps(pn.WireCount, false)
    modifies pn.Circuit
    ensures WF(pn.Circuit.Value()) && Acyclic(pn.Circuit.Value())
    ensures forall t :: t in pn.Circuit.Gates ==> !IsPermutation(t)
    ensures |pn.Value().first| == pn.WireCount
    ensures forall x: seq<int> :: |x| == pn.WireCount ==> Outputs(pn.Value(), x, y => Sorted(y, false) && multiset(y) == multiset(x))
  {
    hide NetOk, Labelled, WF, Acyclic, Computes, Realizable, SortOps, Outputs, PowerOfTwo, Sorted, Ends, FullyConnected;
    BitonicCanCollapse(pn.Value());
    pn.CollapsePermutationGates();
    forall x: seq<int> | |x| == pn.WireCount
      ensures Outputs(pn.Value(), x, y => Sorted(y, false) && multiset(y) == multiset(x))
    {
      BitonicNetworkSorts(pn.Value(), false, x);
    }
  }
}
