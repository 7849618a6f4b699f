/** Gate lists that sort. */
module SortingTheory {
  // What the networks of SortingNetworkFactory do, as lists of gates on wires.

  import opened WireOps

  ghost predicate PowerOfTwo(n: nat) {
    n == 1 || (n >= 2 && n % 2 == 0 && PowerOfTwo(n / 2))
  }

  const SWAP := Permutation([1, 0])

  ghost predicate Ascending(x: seq<int>) {
    forall i, j :: 0 <= i <= j < |x| ==> x[i] <= x[j]
  }

  ghost predicate Descending(x: seq<int>) {
    forall i, j :: 0 <= i <= j < |x| ==> x[i] >= x[j]
  }

  ghost predicate Sorted(x: seq<int>, invert: bool) {
    if invert then Descending(x) else Ascending(x)
  }

  // ----- the gate lists -----

  /** One round of the loop of CreateBitonicSplit. */
  ghost function RoundOps(h: nat, invert: bool, i: nat): seq<Op> {
    [Op(CompareAndSwap, [i, i + h])] + (if invert then [Op(SWAP, [i, i + h])] else [])
  }

  /** The first k rounds. */
  ghost function SplitOps(h: nat, invert: bool, k: nat): seq<Op> {
    if k == 0 then [] else SplitOps(h, invert, k - 1) + RoundOps(h, invert, k - 1)
  }

  ghost function Halves(low: seq<Op>, high: seq<Op>, h: nat): seq<Op>
    requires ValidOps(low, h) && ValidOps(high, h)
  {
    Rename(low, Range(0, h)) + Rename(high, Range(h, h))
  }

  ghost function MergeOps(n: nat, invert: bool): (r: seq<Op>)
    requires PowerOfTwo(n)
    ensures ValidOps(r, n) && Binary(r)
  {
    var h := n / 2;
    SplitValid(h, invert, h);
    assert 2 * h <= n;
    var split := Widen(SplitOps(h, invert, h), 2 * h, n);
    if n > 2 then
      var half := MergeOps(h, invert);
      HalvesValid(half, half, h);
      split + Halves(half, half, h)
    else split
  }

  /** Gates valid on m wires are valid on more. */
  ghost function Widen(ops: seq<Op>, m: nat, n: nat): (r: seq<Op>)
    requires ValidOps(ops, m) && m <= n
    ensures r == ops && ValidOps(r, n)
  {
    ops
  }

  ghost function SortOps(n: nat, invert: bool): (r: seq<Op>)
    requires PowerOfTwo(n)
    ensures ValidOps(r, n) && Binary(r)
  {
    var h := n / 2;
    if n >= 4 then
      var low, high := SortOps(h, false), SortOps(h, true);
      HalvesValid(low, high, h);
      Halves(low, high, h) + MergeOps(n, invert)
    else MergeOps(n, invert)
  }

  ghost function TournamentOps(n: nat): (r: seq<Op>)
    requires PowerOfTwo(n)
    ensures ValidOps(r, n) && Binary(r)
  {
    if n == 1 then []
    else
      var h := n / 2;
      SplitValid(h, false, h);
      var round := SplitOps(h, false, h);
      if n > 2 then
        var half := TournamentOps(h);
        HalvesValid(half, half, h);
        round + Halves(half, half, h)
      else round
  }

  ghost function InsertionOps(n: nat): (r: seq<Op>)
    requires PowerOfTwo(n)
    ensures ValidOps(r, n) && Binary(r)
  {
    if n == 1 then []
    else
      var h := n / 2;
      var first := [Op(CompareAndSwap, [0, h])];
      if n > 2 then
        var half := InsertionOps(h);
        HalvesValid(half, half, h);
        first + Halves(half, half, h)
      else first
  }

  lemma SwapIsBijective()
    ensures Bijective([1, 0])
  {
    assert [1, 0][0] == 1 && [1, 0][1] == 0;
  }

  lemma {:induction false} SplitValid(h: nat, invert: bool, k: nat)
    requires k <= h
    ensures ValidOps(SplitOps(h, invert, k), 2 * h) && Binary(SplitOps(h, invert, k))
  {
    if k > 0 {
      SplitValid(h, invert, k - 1);
      SwapIsBijective();
      forall op | op in RoundOps(h, invert, k - 1) ensures ValidOp(op, 2 * h) && Arity(op.kind) == 2 { }
    }
  }

  lemma HalvesValid(low: seq<Op>, high: seq<Op>, h: nat)
    requires ValidOps(low, h) && ValidOps(high, h)
    ensures ValidOps(Halves(low, high, h), 2 * h)
    ensures Binary(low) && Binary(high) ==> Binary(Halves(low, high, h))
  {
    RenameValid(low, Range(0, h), 2 * h);
    RenameValid(high, Range(h, h), 2 * h);
  }

  /** Two networks side by side work on the two halves independently. */
  lemma HalvesRun(low: seq<Op>, high: seq<Op>, h: nat, x: seq<int>)
    requires ValidOps(low, h) && ValidOps(high, h) && |x| == 2 * h
    ensures ValidOps(Halves(low, high, h), 2 * h)
    ensures Run(Halves(low, high, h), x) == Run(low, x[..h]) + Run(high, x[h..])
  {
    HalvesValid(low, high, h);
    var a, b := Rename(low, Range(0, h)), Rename(high, Range(h, h));
    ShiftRun(low, 0, h, x);
    var y := Run(a, x);
    assert x[0..0 + h] == x[..h] && x[0 + h..] == x[h..] && x[..0] == [];
    assert y == Run(low, x[..h]) + x[h..];
    ShiftRun(high, h, h, y);
    assert y[h..h + h] == x[h..] && y[h + h..] == [] && y[..h] == Run(low, x[..h]);
    RunConcat(a, b, x);
  }

  // ----- the split -----

  ghost function Lower(x: seq<int>, h: nat): (y: seq<int>)
    requires |x| == 2 * h
    ensures |y| == h && forall i :: 0 <= i < h ==> y[i] == Min(x[i], x[i + h])
  {
    seq(h, i requires 0 <= i < h => Min(x[i], x[i + h]))
  }

  ghost function Upper(x: seq<int>, h: nat): (y: seq<int>)
    requires |x| == 2 * h
    ensures |y| == h && forall i :: 0 <= i < h ==> y[i] == Max(x[i], x[i + h])
  {
    seq(h, i requires 0 <= i < h => Max(x[i], x[i + h]))
  }

  /** y is x with u at a and v at b. */
  ghost predicate Updated(y: seq<int>, x: seq<int>, a: nat, b: nat, u: int, v: int)
    requires a < |x| && b < |x|
  {
    |y| == |x| && y[a] == u && y[b] == v && forall w :: 0 <= w < |x| && w != a && w != b ==> y[w] == x[w]
  }

  lemma CompareGate(x: seq<int>, a: nat, b: nat)
    requires a < |x| && b < |x| && a != b
    ensures ValidOp(Op(CompareAndSwap, [a, b]), |x|)
    ensures Updated(Apply(Op(CompareAndSwap, [a, b]), x), x, a, b, Min(x[a], x[b]), Max(x[a], x[b]))
  {
    var op := Op(CompareAndSwap, [a, b]);
    ApplyAt(op, x, 0);
    ApplyAt(op, x, 1);
    assert Gather(x, op.wires) == [x[a], x[b]];
  }

  lemma SwapGate(x: seq<int>, a: nat, b: nat)
    requires a < |x| && b < |x| && a != b
    ensures ValidOp(Op(SWAP, [a, b]), |x|)
    ensures Updated(Apply(Op(SWAP, [a, b]), x), x, a, b, x[b], x[a])
  {
    SwapIsBijective();
    var op := Op(SWAP, [a, b]);
    ApplyAt(op, x, 0);
    ApplyAt(op, x, 1);
    assert Gather(x, op.wires) == [x[a], x[b]];
    assert Unpermute([1, 0], 0, 0) == 1 && Unpermute([1, 0], 1, 0) == 0;
  }

  lemma RoundRun(h: nat, invert: bool, i: nat, y: seq<int>)
    requires i < h && |y| == 2 * h
    ensures ValidOps(RoundOps(h, invert, i), |y|)
    ensures Updated(Run(RoundOps(h, invert, i), y), y, i, i + h, First(y, h, i, invert), Second(y, h, i, invert))
  {
    hide Run, Apply, ValidOp;
    var cmp, swap := Op(CompareAndSwap, [i, i + h]), Op(SWAP, [i, i + h]);
    CompareGate(y, i, i + h);
    var z := Apply(cmp, y);
    RunOne(cmp, y);
    if invert {
      SwapGate(z, i, i + h);
      RunOne(swap, z);
      RunConcat([cmp], [swap], y);
      UpdatedTwice(y, z, Apply(swap, z), i, i + h);
    } else {
      assert [cmp] + [] == [cmp];
    }
  }

  lemma UpdatedTwice(x: seq<int>, y: seq<int>, z: seq<int>, a: nat, b: nat)
    requires a < |x| && b < |x| == |y| && a != b
    requires Updated(y, x, a, b, Min(x[a], x[b]), Max(x[a], x[b])) && Updated(z, y, a, b, y[b], y[a])
    ensures Updated(z, x, a, b, Max(x[a], x[b]), Min(x[a], x[b]))
  {
  }

  ghost function First(x: seq<int>, h: nat, i: nat, invert: bool): int
    requires i < h && |x| == 2 * h
  {
    if invert then Max(x[i], x[i + h]) else Min(x[i], x[i + h])
  }

  ghost function Second(x: seq<int>, h: nat, i: nat, invert: bool): int
    requires i < h && |x| == 2 * h
  {
    if invert then Min(x[i], x[i + h]) else Max(x[i], x[i + h])
  }

  /** Pair i has been ordered (i < k) or is still as in x. */
  ghost predicate Pair(y: seq<int>, x: seq<int>, h: nat, i: nat, invert: bool, k: nat)
    requires i < h && |x| == 2 * h == |y|
  {
    if i < k then y[i] == First(x, h, i, invert) && y[i + h] == Second(x, h, i, invert)
    else y[i] == x[i] && y[i + h] == x[i + h]
  }

  /** After k rounds the first k pairs are ordered, the larger value first if invert. */
  ghost predicate Rounds(y: seq<int>, x: seq<int>, h: nat, invert: bool, k: nat) {
    |x| == 2 * h == |y| && forall i :: 0 <= i < h ==> Pair(y, x, h, i, invert, k)
  }

  lemma RoundStep(y: seq<int>, z: seq<int>, x: seq<int>, h: nat, invert: bool, k: nat)
    requires k < h && Rounds(y, x, h, invert, k)
    requires Updated(z, y, k, k + h, First(y, h, k, invert), Second(y, h, k, invert))
    ensures Rounds(z, x, h, invert, k + 1)
  {
    assert Pair(y, x, h, k, invert, k);
    var next := k + 1;
    forall i | 0 <= i < h ensures Pair(z, x, h, i, invert, next) {
      assert Pair(y, x, h, i, invert, k);
    }
  }

  lemma {:induction false} SplitRounds(h: nat, invert: bool, k: nat, x: seq<int>)
    requires k <= h && |x| == 2 * h
    ensures ValidOps(SplitOps(h, invert, k), |x|)
    ensures Rounds(Run(SplitOps(h, invert, k), x), x, h, invert, k)
  {
    hide Run, ValidOps, Rounds, RoundOps;
    if k == 0 {
      RoundsStart(h, invert, x);
    } else {
      SplitRounds(h, invert, k - 1, x);
      AnotherRound(h, invert, k - 1, x, SplitOps(h, invert, k - 1));
    }
  }

  lemma RoundsStart(h: nat, invert: bool, x: seq<int>)
    requires |x| == 2 * h
    ensures ValidOps([], |x|) && Rounds(Run([], x), x, h, invert, 0)
  {
  }

  lemma AnotherRound(h: nat, invert: bool, k: nat, x: seq<int>, before: seq<Op>)
    requires k < h && |x| == 2 * h && ValidOps(before, |x|) && Rounds(Run(before, x), x, h, invert, k)
    ensures ValidOps(before + RoundOps(h, invert, k), |x|)
    ensures Rounds(Run(before + RoundOps(h, invert, k), x), x, h, invert, k + 1)
  {
    hide Run, RoundOps, Updated, Rounds, ValidOps;
    var y := Run(before, x);
    RoundRun(h, invert, k, y);
    RunConcat(before, RoundOps(h, invert, k), x);
    RoundStep(y, Run(RoundOps(h, invert, k), y), x, h, invert, k);
  }

  lemma RoundsDone(y: seq<int>, x: seq<int>, h: nat, invert: bool)
    requires Rounds(y, x, h, invert, h)
    ensures |x| == 2 * h
    ensures y == if invert then Upper(x, h) + Lower(x, h) else Lower(x, h) + Upper(x, h)
  {
    var z := if invert then Upper(x, h) + Lower(x, h) else Lower(x, h) + Upper(x, h);
    forall i | 0 <= i < 2 * h ensures y[i] == z[i] {
      assert Pair(y, x, h, if i < h then i else i - h, invert, h);
    }
    assert y == z;
  }

  lemma SplitRun(h: nat, invert: bool, x: seq<int>)
    requires |x| == 2 * h
    ensures ValidOps(SplitOps(h, invert, h), |x|)
    ensures Run(SplitOps(h, invert, h), x) == if invert then Upper(x, h) + Lower(x, h) else Lower(x, h) + Upper(x, h)
  {
    SplitRounds(h, invert, h, x);
    RoundsDone(Run(SplitOps(h, invert, h), x), x, h, invert);
  }

  // ----- bitonic sequences of zeros and ones -----

  /** c on [a, b), 1 - c elsewhere. */
  ghost predicate Block(x: seq<int>, a: nat, b: nat, c: int) {
    0 <= c <= 1 && a <= b <= |x| && forall i :: 0 <= i < |x| ==> x[i] == if a <= i < b then c else 1 - c
  }

  ghost predicate Bitonic(x: seq<int>) {
    exists a, b, c :: Block(x, a, b, c)
  }

  ghost predicate AllEqual(x: seq<int>, c: int) {
    forall i :: 0 <= i < |x| ==> x[i] == c
  }

  /** A split halves a bitonic sequence: both halves are bitonic, and the lower one is all 0 or the
      upper one all 1. */
  lemma SplitBitonic(x: seq<int>, h: nat)
    requires |x| == 2 * h && Bitonic(x)
    ensures Bitonic(Lower(x, h)) && Bitonic(Upper(x, h))
    ensures AllEqual(Lower(x, h), 0) || AllEqual(Upper(x, h), 1)
  {
    var a, b, c :| Block(x, a, b, c);
    if c == 1 {
      SplitOnes(x, h, a, b);
    } else {
      SplitZeros(x, h, a, b);
    }
  }

  lemma OnesWide(x: seq<int>, h: nat, a: nat, b: nat)
    requires |x| == 2 * h && Block(x, a, b, 1) && b - a >= h
    ensures AllEqual(Upper(x, h), 1) && Block(Upper(x, h), 0, h, 1) && b >= h && Block(Lower(x, h), a, b - h, 1)
  {
  }

  lemma OnesNarrow(x: seq<int>, h: nat, a: nat, b: nat)
    requires |x| == 2 * h && Block(x, a, b, 1) && b - a < h
    ensures AllEqual(Lower(x, h), 0) && Block(Lower(x, h), 0, h, 0) && Bitonic(Upper(x, h))
  {
    var u := Upper(x, h);
    if b <= h {
      assert Block(u, a, b, 1);
    } else if a >= h {
      assert Block(u, a - h, b - h, 1);
    } else {
      assert Block(u, b - h, a, 0);
    }
  }

  lemma ZerosWide(x: seq<int>, h: nat, a: nat, b: nat)
    requires |x| == 2 * h && Block(x, a, b, 0) && b - a >= h
    ensures AllEqual(Lower(x, h), 0) && Block(Lower(x, h), 0, h, 0) && b >= h && Block(Upper(x, h), a, b - h, 0)
  {
  }

  lemma ZerosNarrow(x: seq<int>, h: nat, a: nat, b: nat)
    requires |x| == 2 * h && Block(x, a, b, 0) && b - a < h
    ensures AllEqual(Upper(x, h), 1) && Block(Upper(x, h), 0, h, 1) && Bitonic(Lower(x, h))
  {
    var l := Lower(x, h);
    if b <= h {
      assert Block(l, a, b, 0);
    } else if a >= h {
      assert Block(l, a - h, b - h, 0);
    } else {
      assert Block(l, b - h, a, 1);
    }
  }

  lemma SplitOnes(x: seq<int>, h: nat, a: nat, b: nat)
    requires |x| == 2 * h && Block(x, a, b, 1)
    ensures Bitonic(Lower(x, h)) && Bitonic(Upper(x, h))
    ensures AllEqual(Lower(x, h), 0) || AllEqual(Upper(x, h), 1)
  {
    hide Block, AllEqual, Lower, Upper;
    if b - a >= h {
      OnesWide(x, h, a, b);
    } else {
      OnesNarrow(x, h, a, b);
    }
  }

  lemma SplitZeros(x: seq<int>, h: nat, a: nat, b: nat)
    requires |x| == 2 * h && Block(x, a, b, 0)
    ensures Bitonic(Lower(x, h)) && Bitonic(Upper(x, h))
    ensures AllEqual(Lower(x, h), 0) || AllEqual(Upper(x, h), 1)
  {
    hide Block, AllEqual, Lower, Upper;
    if b - a >= h {
      ZerosWide(x, h, a, b);
    } else {
      ZerosNarrow(x, h, a, b);
    }
  }

  // ----- merging -----

  lemma ElementFromInput(ops: seq<Op>, x: seq<int>, i: nat) returns (j: nat)
    requires ValidOps(ops, |x|) && Binary(ops) && i < |x|
    ensures j < |x| && Run(ops, x)[i] == x[j]
  {
    RunPermutes(ops, x);
    var y := Run(ops, x);
    assert y[i] in multiset(y);
    assert y[i] in multiset(x);
    j :| 0 <= j < |x| && x[j] == y[i];
  }

  lemma AllEqualRun(ops: seq<Op>, x: seq<int>, c: int)
    requires ValidOps(ops, |x|) && Binary(ops) && AllEqual(x, c)
    ensures AllEqual(Run(ops, x), c)
  {
    forall i | 0 <= i < |x| ensures Run(ops, x)[i] == c {
      var j := ElementFromInput(ops, x, i);
    }
  }

  ghost predicate ZeroOne(x: seq<int>) {
    forall i :: 0 <= i < |x| ==> 0 <= x[i] <= 1
  }

  lemma ZeroOneRun(ops: seq<Op>, x: seq<int>)
    requires ValidOps(ops, |x|) && Binary(ops) && ZeroOne(x)
    ensures ZeroOne(Run(ops, x))
  {
    forall i | 0 <= i < |x| ensures 0 <= Run(ops, x)[i] <= 1 {
      var j := ElementFromInput(ops, x, i);
    }
  }

  lemma JoinSorted(p: seq<int>, q: seq<int>, invert: bool)
    requires Sorted(p, invert) && Sorted(q, invert) && ZeroOne(p) && ZeroOne(q)
    requires !invert ==> AllEqual(p, 0) || AllEqual(q, 1)
    requires invert ==> AllEqual(q, 0) || AllEqual(p, 1)
    ensures Sorted(p + q, invert)
  {
  }

  lemma BitonicZeroOne(x: seq<int>)
    requires Bitonic(x)
    ensures ZeroOne(x)
  {
  }

  lemma HalfPower(n: nat)
    requires PowerOfTwo(n) && n > 1
    ensures n == 2 * (n / 2) && PowerOfTwo(n / 2)
  {
  }

  lemma MergeUnfolds(n: nat, invert: bool)
    requires PowerOfTwo(n) && n > 1
    ensures n == 2 * (n / 2) && PowerOfTwo(n / 2) && ValidOps(SplitOps(n / 2, invert, n / 2), n)
    ensures n > 2 ==> (
      MergeOps(n, invert) == SplitOps(n / 2, invert, n / 2) + Halves(MergeOps(n / 2, invert), MergeOps(n / 2, invert), n / 2))
    ensures n == 2 ==> MergeOps(n, invert) == SplitOps(n / 2, invert, n / 2)
  {
    SplitValid(n / 2, invert, n / 2);
  }

  /** A bitonic merge sorts every bitonic sequence of zeros and ones. */
  lemma {:induction false} MergeSorts(n: nat, invert: bool, x: seq<int>)
    requires PowerOfTwo(n) && |x| == n && Bitonic(x)
    ensures Sorted(Run(MergeOps(n, invert), x), invert)
    decreases n
  {
    var h := n / 2;
    if n > 1 {
      MergeUnfolds(n, invert);
      SplitRun(h, invert, x);
      SplitBitonic(x, h);
      hide Run, MergeOps, SplitOps, Sorted, Bitonic, ValidOps, PowerOfTwo;
      var y := Run(SplitOps(h, invert, h), x);
      var p, q := y[..h], y[h..];
      assert p == (if invert then Upper(x, h) else Lower(x, h)) && q == (if invert then Lower(x, h) else Upper(x, h));
      assert y == p + q;
      BitonicZeroOne(p);
      BitonicZeroOne(q);
      if n > 2 {
        var half := MergeOps(h, invert);
        HalvesRun(half, half, h, y);
        RunConcat(SplitOps(h, invert, h), Halves(half, half, h), x);
        MergeSorts(h, invert, p);
        MergeSorts(h, invert, q);
        JoinHalves(half, p, q, invert);
      } else {
        ShortSorted(p, invert);
        ShortSorted(q, invert);
        JoinSorted(p, q, invert);
      }
    } else {
      assert |Run(MergeOps(n, invert), x)| == 1;
    }
  }

  lemma ShortSorted(p: seq<int>, invert: bool)
    requires |p| <= 1
    ensures Sorted(p, invert)
  {
  }

  lemma JoinHalves(half: seq<Op>, p: seq<int>, q: seq<int>, invert: bool)
    requires |p| == |q| && ValidOps(half, |p|) && Binary(half) && ZeroOne(p) && ZeroOne(q)
    requires if invert then AllEqual(q, 0) || AllEqual(p, 1) else AllEqual(p, 0) || AllEqual(q, 1)
    requires Sorted(Run(half, p), invert) && Sorted(Run(half, q), invert)
    ensures Sorted(Run(half, p) + Run(half, q), invert)
  {
    hide Run, Sorted;
    forall c | c in {0, 1} && AllEqual(p, c) ensures AllEqual(Run(half, p), c) {
      AllEqualRun(half, p, c);
    }
    forall c | c in {0, 1} && AllEqual(q, c) ensures AllEqual(Run(half, q), c) {
      AllEqualRun(half, q, c);
    }
    ZeroOneRun(half, p);
    ZeroOneRun(half, q);
    JoinSorted(Run(half, p), Run(half, q), invert);
  }

  // ----- sorting -----

  /** An ascending and then descending sequence of zeros and ones is bitonic. */
  lemma UpDownIsBitonic(p: seq<int>, q: seq<int>)
    requires ZeroOne(p) && ZeroOne(q) && Ascending(p) && Descending(q)
    ensures Bitonic(p + q)
  {
    var a := CountLeading(p, 0);
    var b := CountLeading(q, 1);
    assert Block(p + q, a, |p| + b, 1);
  }

  lemma {:induction false} CountLeading(x: seq<int>, c: int) returns (k: nat)
    requires ZeroOne(x) && 0 <= c <= 1 && (if c == 0 then Ascending(x) else Descending(x))
    ensures k <= |x| && forall i :: 0 <= i < |x| ==> x[i] == if i < k then c else 1 - c
  {
    if x == [] || x[|x| - 1] == c {
      k := |x|;
    } else {
      var y := x[..|x| - 1];
      assert x == y + [x[|x| - 1]];
      k := CountLeading(y, c);
    }
  }

  lemma {:induction false} SortsZeroOne(n: nat, invert: bool, x: seq<int>)
    requires PowerOfTwo(n) && |x| == n && ZeroOne(x)
    ensures Sorted(Run(SortOps(n, invert), x), invert)
    decreases n
  {
    var h := n / 2;
    if n >= 4 {
      HalfPower(n);
      var low, high := SortOps(h, false), SortOps(h, true);
      SortsZeroOne(h, false, x[..h]);
      SortsZeroOne(h, true, x[h..]);
      ZeroOneRun(low, x[..h]);
      ZeroOneRun(high, x[h..]);
      HalvesRun(low, high, h, x);
      RunConcat(Halves(low, high, h), MergeOps(n, invert), x);
      UpDownIsBitonic(Run(low, x[..h]), Run(high, x[h..]));
      MergeSorts(n, invert, Run(low, x[..h]) + Run(high, x[h..]));
    } else {
      assert n % 2 == 0 || n == 1;
      ShortIsBitonic(x);
      MergeSorts(n, invert, x);
    }
  }

  lemma ShortIsBitonic(x: seq<int>)
    requires ZeroOne(x) && 1 <= |x| <= 2
    ensures Bitonic(x)
  {
    if |x| == 1 || x[0] == x[1] {
      assert Block(x, 0, |x|, x[0]);
    } else {
      assert Block(x, 0, 1, x[0]);
    }
  }

  /** The zero-one principle. */
  lemma ZeroOnePrinciple(y: seq<int>, invert: bool)
    requires forall t :: Sorted(Threshold(y, t), invert)
    ensures Sorted(y, invert)
  {
    forall i, j | 0 <= i <= j < |y| ensures if invert then y[i] >= y[j] else y[i] <= y[j] {
      var t := if invert then y[j] else y[i];
      var b := Threshold(y, t);
      assert Sorted(b, invert);
      assert if invert then b[i] >= b[j] else b[i] <= b[j];
    }
  }

  /** CreateBitonicSort sorts every input, and only permutes it. */
  lemma BitonicSortSorts(n: nat, invert: bool, x: seq<int>)
    requires PowerOfTwo(n) && |x| == n
    ensures Sorted(Run(SortOps(n, invert), x), invert)
    ensures multiset(Run(SortOps(n, invert), x)) == multiset(x)
  {
    var ops := SortOps(n, invert);
    forall t ensures Sorted(Threshold(Run(ops, x), t), invert) {
      ThresholdRun(ops, x, t);
      SortsZeroOne(n, invert, Threshold(x, t));
    }
    ZeroOnePrinciple(Run(ops, x), invert);
    RunPermutes(ops, x);
  }

  // ----- the tournament -----

  ghost predicate LeastFirst(y: seq<int>, x: seq<int>) {
    |y| > 0 && (forall i :: 0 <= i < |x| ==> y[0] <= x[i])
  }

  ghost predicate GreatestLast(y: seq<int>, x: seq<int>) {
    |y| > 0 && (forall i :: 0 <= i < |x| ==> x[i] <= y[|y| - 1])
  }

  lemma TournamentUnfolds(n: nat)
    requires PowerOfTwo(n) && n > 1
    ensures n == 2 * (n / 2) && PowerOfTwo(n / 2) && ValidOps(SplitOps(n / 2, false, n / 2), n)
    ensures n > 2 ==> (
      TournamentOps(n) == SplitOps(n / 2, false, n / 2) + Halves(TournamentOps(n / 2), TournamentOps(n / 2), n / 2))
    ensures n == 2 ==> TournamentOps(n) == SplitOps(n / 2, false, n / 2)
  {
    SplitValid(n / 2, false, n / 2);
  }

  /** CreateButterflyTournament: the minimum on the first wire, the maximum on the last one. */
  lemma {:induction false} TournamentExtremes(n: nat, x: seq<int>)
    requires PowerOfTwo(n) && |x| == n
    ensures LeastFirst(Run(TournamentOps(n), x), x) && GreatestLast(Run(TournamentOps(n), x), x)
    ensures multiset(Run(TournamentOps(n), x)) == multiset(x)
  {
    RunPermutes(TournamentOps(n), x);
    if n > 1 {
      var h := n / 2;
      TournamentUnfolds(n);
      SplitRun(h, false, x);
      hide Run, TournamentOps, SplitOps, ValidOps, PowerOfTwo, LeastFirst, GreatestLast;
      var y := Run(SplitOps(h, false, h), x);
      var l, u := Lower(x, h), Upper(x, h);
      assert y == l + u && y[..h] == l && y[h..] == u;
      SplitCovers(x, h);
      if n > 2 {
        var half := TournamentOps(h);
        TournamentExtremes(h, l);
        TournamentExtremes(h, u);
        HalvesRun(half, half, h, y);
        RunConcat(SplitOps(h, false, h), Halves(half, half, h), x);
        Extremes(Run(half, l), Run(half, u), l, u, x);
      } else {
        Extremes(l, u, l, u, x);
      }
    }
  }

  /** Every input is at least some lower and at most some upper value of the split. */
  lemma SplitCovers(x: seq<int>, h: nat)
    requires |x| == 2 * h
    ensures Covers(Lower(x, h), Upper(x, h), x)
    ensures h == 1 ==> LeastFirst(Lower(x, h), Lower(x, h)) && GreatestLast(Upper(x, h), Upper(x, h))
  {
    hide SomeBelow, SomeAbove, Lower, Upper;
    forall i | 0 <= i < |x| ensures SomeBelow(Lower(x, h), x[i]) && SomeAbove(Upper(x, h), x[i]) {
      PairCovers(x, h, i);
    }
  }

  lemma PairCovers(x: seq<int>, h: nat, i: nat)
    requires |x| == 2 * h && i < |x|
    ensures SomeBelow(Lower(x, h), x[i]) && SomeAbove(Upper(x, h), x[i])
  {
    var k := if i < h then i else i - h;
    assert Lower(x, h)[k] <= x[i] <= Upper(x, h)[k];
  }

  ghost predicate SomeBelow(l: seq<int>, v: int) {
    exists k :: 0 <= k < |l| && l[k] <= v
  }

  ghost predicate SomeAbove(u: seq<int>, v: int) {
    exists k :: 0 <= k < |u| && v <= u[k]
  }

  ghost predicate Covers(l: seq<int>, u: seq<int>, x: seq<int>) {
    forall i :: 0 <= i < |x| ==> SomeBelow(l, x[i]) && SomeAbove(u, x[i])
  }

  lemma Extremes(p: seq<int>, q: seq<int>, l: seq<int>, u: seq<int>, x: seq<int>)
    requires LeastFirst(p, l) && GreatestLast(q, u)
    requires Covers(l, u, x)
    ensures LeastFirst(p + q, x) && GreatestLast(p + q, x)
  {
    forall i | 0 <= i < |x| ensures p[0] <= x[i] <= q[|q| - 1] {
      assert SomeBelow(l, x[i]) && SomeAbove(u, x[i]);
      var k :| 0 <= k < |l| && l[k] <= x[i];
      var m :| 0 <= m < |u| && x[i] <= u[m];
      assert p[0] <= l[k] && u[m] <= q[|q| - 1];
    }
  }

  // ----- insertion -----

  lemma InsertionUnfolds(n: nat)
    requires PowerOfTwo(n) && n > 1
    ensures n == 2 * (n / 2) && PowerOfTwo(n / 2)
    ensures n > 2 ==> (
      InsertionOps(n) == [Op(CompareAndSwap, [0, n / 2])] + Halves(InsertionOps(n / 2), InsertionOps(n / 2), n / 2))
    ensures n == 2 ==> InsertionOps(n) == [Op(CompareAndSwap, [0, n / 2])]
  {
  }

  /** The first gate of the insertion: afterwards both halves are insertion problems, and the
      lower one holds nothing above x[h], the upper one nothing below it. */
  lemma FirstInsertion(h: nat, x: seq<int>, y: seq<int>)
    requires h >= 1 && |x| == 2 * h && Ascending(x[1..])
    requires Updated(y, x, 0, h, Min(x[0], x[h]), Max(x[0], x[h]))
    ensures Ascending(y[..h][1..]) && Ascending(y[h..][1..])
    ensures forall i :: 0 <= i < h ==> y[..h][i] <= x[h]
    ensures forall i :: 0 <= i < h ==> x[h] <= y[h..][i]
  {
    forall i, j | 1 <= i <= j < 2 * h ensures x[i] <= x[j] {
      assert x[1..][i - 1] == x[i] && x[1..][j - 1] == x[j];
    }
  }

  /** CreateBinaryTreeInsertion sorts any input whose wires from 1 on are sorted. */
  lemma {:induction false} InsertionSorts(n: nat, x: seq<int>)
    requires PowerOfTwo(n) && |x| == n && Ascending(x[1..])
    ensures Ascending(Run(InsertionOps(n), x))
    ensures multiset(Run(InsertionOps(n), x)) == multiset(x)
  {
    RunPermutes(InsertionOps(n), x);
    if n > 1 {
      var h := n / 2;
      InsertionUnfolds(n);
      hide Run, InsertionOps, PowerOfTwo, Ascending, Halves;
      var op := Op(CompareAndSwap, [0, h]);
      CompareGate(x, 0, h);
      RunOne(op, x);
      var y := Apply(op, x);
      FirstInsertion(h, x, y);
      if n > 2 {
        var half := InsertionOps(h);
        var l, u := y[..h], y[h..];
        InsertionSorts(h, l);
        InsertionSorts(h, u);
        HalvesRun(half, half, h, y);
        RunConcat([op], Halves(half, half, h), x);
        JoinAscending(half, l, u, x[h]);
      } else {
        TwoAscending(y);
      }
    } else {
      assert |Run(InsertionOps(n), x)| == 1;
    }
  }

  lemma TwoAscending(y: seq<int>)
    requires |y| == 2 && y[0] <= y[1]
    ensures Ascending(y)
  {
  }

  lemma JoinAscending(half: seq<Op>, l: seq<int>, u: seq<int>, c: int)
    requires |l| == |u| && ValidOps(half, |l|) && Binary(half)
    requires Ascending(Run(half, l)) && Ascending(Run(half, u))
    requires forall i :: 0 <= i < |l| ==> l[i] <= c
    requires forall i :: 0 <= i < |u| ==> c <= u[i]
    ensures Ascending(Run(half, l) + Run(half, u))
  {
    var p, q := Run(half, l), Run(half, u);
    forall i | 0 <= i < |p| ensures p[i] <= c <= q[i] {
      var a := ElementFromInput(half, l, i);
      var b := ElementFromInput(half, u, i);
    }
  }
}
