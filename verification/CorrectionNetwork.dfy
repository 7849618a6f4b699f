/** The block correction network of LPSorting.cs as a whole. */
module CorrectionNetworks {
  // The wires are reordered by a permutation and a split gate before the lists are formed. The
  // permutation and the set Y come from a table of the approximate sorter and are parameters here.

  import opened WireOps
  import opened NetworkTheory
  import opened PermutationNetworks
  import opened SortingTheory
  import opened SortingNetworks
  import opened PermutationGates
  import opened SplitGates
  import opened BlockCorrection

  // ----- what the split gate does to the wires -----

  /** A permutation gate on all wires takes wire i to wire p[i]. */
  lemma GateMoves(p: seq<nat>, x: seq<int>, i: nat)
    requires Bijective(p) && |p| == |x| && i < |p|
    ensures ValidOp(Op(Permutation(p), Range(0, |p|)), |x|)
    ensures Apply(Op(Permutation(p), Range(0, |p|)), x)[p[i]] == x[i]
  {
    var op := Op(Permutation(p), Range(0, |p|));
    ApplyAt(op, x, p[i]);
    var k := Unpermute(p, p[i], 0);
    assert p[i] in p[0..];
    assert k == i;
  }

  ghost function SplitWires(g: seq<nat>, x: seq<int>): (y: seq<int>)
    requires Group(g, |x|)
    ensures |y| == |x|
  {
    SplitIsBijective(g, |x|);
    Apply(Op(Permutation(SplitTable(g, |x|, false)), Range(0, |x|)), x)
  }

  /** The wires outside the group come first, in order. */
  ghost predicate RestFirst(g: seq<nat>, count: nat)
    requires Group(g, count)
  {
    forall x: seq<int>, k: nat :: |x| == count && k < |Others(g, count)| ==> MovedTo(g, count, x, k)
  }

  ghost predicate MovedTo(g: seq<nat>, count: nat, x: seq<int>, k: nat)
    requires Group(g, count) && |x| == count && k < |Others(g, count)|
  {
    GroupAndOthers(g, count);
    SplitWires(g, x)[k] == x[Others(g, count)[k]]
  }

  /** Wire k of the first wires goes to the k-th member of the group, the others to the rest. */
  lemma SplitScatters(g: seq<nat>, x: seq<int>, k: nat)
    requires Group(g, |x|) && k < |x|
    ensures |g| + |Others(g, |x|)| == |x|
    ensures k < |g| ==> g[k] < |x| && SplitWires(g, x)[g[k]] == x[k]
    ensures k >= |g| ==> SplitWires(g, x)[Others(g, |x|)[k - |g|]] == x[k]
  {
    hide Bijective, Apply, Others;
    SplitIsBijective(g, |x|);
    GroupAndOthers(g, |x|);
    GateMoves(SplitTable(g, |x|, false), x, k);
  }

  ghost function Numbers(n: nat): (s: seq<int>)
    ensures |s| == n && forall i :: 0 <= i < n ==> s[i] == i
  {
    seq(n, i => i)
  }

  /** The gate is asked to bring the rest to the first wires. It does so in their order for no group at
      all, unless there is nothing to separate. */
  lemma RestNeverFirst(g: seq<nat>, count: nat)
    requires Group(g, count)
    ensures RestFirst(g, count) <==> g == [] || |g| == count
  {
    hide Apply, Bijective, SplitWires;
    GroupAndOthers(g, count);
    if g == [] {
      forall x: seq<int>, k: nat | |x| == count && k < |Others(g, count)| ensures MovedTo(g, count, x, k) {
        SplitScatters(g, x, k);
        NothingTaken(g, count, k);
      }
    } else if |g| < count {
      var x := Numbers(count);
      FirstStays(g, count, x);
      assert !MovedTo(g, count, x, 0);
    }
  }

  /** With no group the others are all wires. */
  lemma {:induction false} NothingTaken(g: seq<nat>, count: nat, k: nat)
    requires g == [] && k < count
    ensures |Others(g, count)| == count && Others(g, count)[k] == k
  {
    if count > 1 && k < count - 1 {
      NothingTaken(g, count - 1, k);
    } else if count > 1 {
      NothingTaken(g, count - 1, 0);
    }
  }

  /** What arrives at wire 0 is not the first wire outside the group. */
  lemma FirstStays(g: seq<nat>, count: nat, x: seq<int>)
    requires Group(g, count) && 0 < |g| < count && x == Numbers(count)
    ensures |Others(g, count)| > 0 && SplitWires(g, x)[0] != x[Others(g, count)[0]]
  {
    hide Apply, SplitWires, Others;
    GroupAndOthers(g, count);
    var o := Others(g, count);
    ZeroIsFirst(g, o, count);
    if g[0] == 0 {
      SplitScatters(g, x, 0);
      assert o[0] in o && 0 in g;
    } else {
      SplitScatters(g, x, |g|);
    }
  }

  // ----- the two parts in any order -----

  /** Whatever the values, every wire outside the group is found among the first wires and every wire of
      the group among the last. */
  ghost predicate Separates(g: seq<nat>, count: nat)
    requires Group(g, count)
  {
    forall x: seq<int>, i: nat :: |x| == count && i < count ==> FoundOnItsSide(g, count, x, i)
  }

  ghost predicate FoundOnItsSide(g: seq<nat>, count: nat, x: seq<int>, i: nat)
    requires Group(g, count) && |x| == count && i < count
  {
    exists k: nat :: k < count && OnSide(g, count, i, k) && SplitWires(g, x)[k] == x[i]
  }

  ghost predicate OnSide(g: seq<nat>, count: nat, i: nat, k: nat) {
    i in g <==> k >= count - |g|
  }

  ghost predicate KeepsSides(g: seq<nat>, count: nat) {
    forall i: nat :: i < count ==> OnSide(g, count, i, SplitTable(g, count, false)[i])
  }

  /** With 2 * s the size of the smaller part: the group is the wires from s to its size, and the last s. */
  ghost predicate Halved(g: seq<nat>, count: nat) {
    |g| <= count && exists s: nat :: 2 * s == Min(|g|, count - |g|) && g == Range(s, |g| - s) + Range(count - s, s)
  }

  /** The gate is asked to bring the rest to the first wires and the group to the last ones. In some
      order it does so for exactly one group of each size if the smaller part is even, and for none if it
      is odd. */
  lemma SplitSeparates(g: seq<nat>, count: nat)
    requires Group(g, count)
    ensures Separates(g, count) <==> Halved(g, count)
  {
    hide Separates, Halved, Bijective;
    GroupAndOthers(g, count);
    SeparatesTable(g, count);
    if KeepsSides(g, count) {
      SidesHalve(g, count);
    }
    if Halved(g, count) {
      forall i: nat | i < count ensures OnSide(g, count, i, SplitTable(g, count, false)[i]) {
        HalvesSide(g, count, i);
      }
    }
  }

  lemma SeparatesTable(g: seq<nat>, count: nat)
    requires Group(g, count)
    ensures Separates(g, count) <==> KeepsSides(g, count)
  {
    hide OnSide, Apply, SplitWires, SplitTable, Others;
    SplitIsBijective(g, count);
    var p := SplitTable(g, count, false);
    if Separates(g, count) {
      var x := Numbers(count);
      forall i: nat | i < count ensures OnSide(g, count, i, p[i]) {
        assert FoundOnItsSide(g, count, x, i);
        var k: nat :| k < count && OnSide(g, count, i, k) && SplitWires(g, x)[k] == x[i];
        assert k in p;
        var j :| 0 <= j < |p| && p[j] == k;
        Arrives(g, x, j);
      }
    }
    if KeepsSides(g, count) {
      forall x: seq<int>, i: nat | |x| == count && i < count ensures FoundOnItsSide(g, count, x, i) {
        Arrives(g, x, i);
        assert OnSide(g, count, i, p[i]);
      }
    }
  }

  lemma Arrives(g: seq<nat>, x: seq<int>, i: nat)
    requires Group(g, |x|) && i < |x|
    ensures SplitTable(g, |x|, false)[i] < |x| && SplitWires(g, x)[SplitTable(g, |x|, false)[i]] == x[i]
  {
    hide Apply, Others;
    SplitIsBijective(g, |x|);
    GateMoves(SplitTable(g, |x|, false), x, i);
  }

  lemma TableParts(g: seq<nat>, count: nat)
    requires Group(g, count)
    ensures |g| + |Others(g, count)| == count && Strict(Others(g, count))
    ensures SplitTable(g, count, false) == g + Others(g, count)
  {
    GroupAndOthers(g, count);
    hide Others;
  }

  ghost predicate LowerSides(g: seq<nat>, count: nat) {
    forall v: nat :: v < |g| ==> (v in g <==> g[v] >= count - |g|)
  }

  lemma LowerSide(g: seq<nat>, count: nat, v: nat)
    requires LowerSides(g, count) && v < |g|
    ensures v in g <==> g[v] >= count - |g|
  {
  }

  /** The entries of the table at the group's size and above are in order, too. */
  lemma SidesOfParts(g: seq<nat>, count: nat)
    requires Group(g, count) && |g| <= count && KeepsSides(g, count)
    ensures LowerSides(g, count)
    ensures UpToFrom(g, |g|, count)
  {
    hide Others, SplitTable;
    TableParts(g, count);
    var p, o := SplitTable(g, count, false), Others(g, count);
    forall v: nat | v < |g| ensures v in g <==> g[v] >= count - |g| {
      assert OnSide(g, count, v, p[v]);
    }
    forall v: nat, w: nat | |g| <= v < w < count && v in g ensures w in g {
      assert OnSide(g, count, v, p[v]) && OnSide(g, count, w, p[w]);
      assert p[v] == o[v - |g|] && p[w] == o[w - |g|];
    }
  }

  /** Where the table keeps to the sides, the group is a stretch up to its size and the last wires. */
  lemma SidesHalve(g: seq<nat>, count: nat)
    requires Group(g, count) && |g| <= count && KeepsSides(g, count)
    ensures Halved(g, count)
  {
    hide KeepsSides, LowerSides, UpToFrom, Below;
    SidesOfParts(g, count);
    var c := Below(g, |g|);
    LowerPart(g, count, c);
    UpperPart(g, count, c);
    JoinedStretches(g, count, |g| - c);
    TwoStretches(g, count, |g| - c);
  }

  lemma LowerPart(g: seq<nat>, count: nat, c: nat)
    requires Group(g, count) && c == Below(g, |g|) && LowerSides(g, count)
    ensures g[..c] == Range(|g| - c, c)
  {
    hide Below, LowerSides;
    forall v: nat, w: nat | v in g[..c] && v < w < |g| ensures w in g[..c] {
      CutAt(g, c, |g|, v);
      CutAt(g, c, |g|, w);
      assert v in g;
      LowerSide(g, count, v);
      LowerSide(g, count, w);
      assert g[v] < g[w] && g[w] in g;
    }
    assert UpTo(g[..c], |g|);
    hide UpTo;
    Stretch(g[..c], 0, |g|);
  }

  lemma UpperPart(g: seq<nat>, count: nat, c: nat)
    requires Group(g, count) && Strict(g) && c == Below(g, |g|) && |g| <= count && UpToFrom(g, |g|, count)
    ensures |g| - c <= count - |g| && g[c..] == Range(count - (|g| - c), |g| - c)
  {
    hide Below, UpToFrom, UpTo, Group, Strict;
    TailBounds(g, count, c);
    UpToTail(g, count, c);
    Stretch(g[c..], |g|, count);
  }

  lemma TailBounds(g: seq<nat>, count: nat, c: nat)
    requires Group(g, count) && c <= |g| && forall k :: c <= k < |g| ==> g[k] >= |g|
    ensures Strict(g) && Strict(g[c..]) && forall k :: 0 <= k < |g[c..]| ==> |g| <= g[c..][k] < count
  {
  }

  lemma UpToTail(g: seq<nat>, count: nat, c: nat)
    requires Strict(g) && c == Below(g, |g|) && UpToFrom(g, |g|, count)
    ensures UpTo(g[c..], count)
  {
    forall v: nat, w: nat | v in g[c..] && v < w < count ensures w in g[c..] {
      hide *;
      CutAt(g, c, |g|, v);
      UpToFromHas(g, |g|, count, v, w);
      CutAt(g, c, |g|, w);
    }
  }

  /** The members below lo come first. */
  lemma CutAt(g: seq<nat>, c: nat, lo: nat, v: nat)
    requires c <= |g| && (forall k :: 0 <= k < c ==> g[k] < lo) && forall k :: c <= k < |g| ==> g[k] >= lo
    ensures v in g[..c] <==> v in g && v < lo
    ensures v in g[c..] <==> v in g && v >= lo
  {
    if v in g {
      var k :| 0 <= k < |g| && g[k] == v;
      assert k < c ==> g[..c][k] == v;
      assert k >= c ==> g[c..][k - c] == v;
    }
  }

  ghost predicate UpToFrom(g: seq<nat>, lo: nat, hi: nat) {
    forall v: nat, w: nat :: lo <= v < w < hi && v in g ==> w in g
  }

  lemma UpToFromHas(g: seq<nat>, lo: nat, hi: nat, v: nat, w: nat)
    requires UpToFrom(g, lo, hi) && lo <= v < w < hi && v in g
    ensures w in g
  {
  }

  ghost predicate Stretches(g: seq<nat>, count: nat, s: nat) {
    s <= |g| && |g| + s <= count && g == Range(s, |g| - s) + Range(count - s, s)
  }

  lemma JoinedStretches(g: seq<nat>, count: nat, s: nat)
    requires s <= |g| && |g| + s <= count
    requires g[..|g| - s] == Range(s, |g| - s) && g[|g| - s..] == Range(count - s, s)
    ensures Stretches(g, count, s)
  {
    assert g == g[..|g| - s] + g[|g| - s..];
  }

  lemma StretchAt(g: seq<nat>, count: nat, s: nat, k: nat)
    requires Stretches(g, count, s) && k < |g|
    ensures g[k] == if k < |g| - s then s + k else count - |g| + k
    ensures s > 0 ==> s - 1 !in g
    ensures s < |g| ==> s in g
  {
    if s < |g| {
      assert g[0] == s;
    }
  }

  /** How long the last stretch is. */
  lemma TwoStretches(g: seq<nat>, count: nat, s: nat)
    requires Stretches(g, count, s) && LowerSides(g, count)
    ensures Halved(g, count)
  {
    SidesOfStretches(g, count, s);
    hide LowerSides;
  }

  lemma SidesOfStretches(g: seq<nat>, count: nat, s: nat)
    requires Stretches(g, count, s) && LowerSides(g, count)
    ensures 2 * s == Min(|g|, count - |g|)
  {
    assert s <= |g| && |g| + s <= count;
    hide LowerSides, Stretches;
    var a, m := |g|, count - |g|;
    if s > 0 {
      StretchAt(g, count, s, s - 1);
      LowerSide(g, count, s - 1);
    }
    if s < a {
      StretchAt(g, count, s, s);
      LowerSide(g, count, s);
    }
    EndSize(a, m, s, if s > 0 then g[s - 1] else 0, if s < a then g[s] else 0);
  }

  lemma EndSize(a: nat, m: nat, s: nat, before: nat, at: nat)
    requires s <= a && s <= m
    requires s > 0 ==> before == (if s - 1 < a - s then 2 * s - 1 else m + s - 1) && before < m
    requires s < a ==> at == (if s < a - s then 2 * s else m + s) && at >= m
    ensures 2 * s == Min(a, m)
  {
  }

  /** How many members of the group are below a. */
  ghost function Below(g: seq<nat>, a: nat): (c: nat)
    requires Strict(g)
    ensures c <= |g| && (forall k :: 0 <= k < c ==> g[k] < a) && forall k :: c <= k < |g| ==> g[k] >= a
  {
    if g == [] then 0
    else if g[|g| - 1] < a then |g|
    else Below(g[..|g| - 1], a)
  }

  /** Nothing between a member and hi is left out. */
  ghost predicate UpTo(t: seq<nat>, hi: nat) {
    forall v: nat, w: nat :: v in t && v < w < hi ==> w in t
  }

  lemma NotAbove(t: seq<nat>, v: nat)
    requires Strict(t) && v in t
    ensures v <= t[|t| - 1]
  {
  }

  lemma UpToHas(t: seq<nat>, hi: nat, v: nat, w: nat)
    requires UpTo(t, hi) && v in t && v < w < hi
    ensures w in t
  {
  }

  lemma LastUpTo(t: seq<nat>, hi: nat)
    requires Strict(t) && t != [] && UpTo(t, hi) && t[|t| - 1] < hi
    ensures t[|t| - 1] == hi - 1
  {
    hide Strict, UpTo;
    if t[|t| - 1] < hi - 1 {
      UpToHas(t, hi, t[|t| - 1], hi - 1);
      NotAbove(t, hi - 1);
    }
  }

  lemma WithoutLast(t: seq<nat>, hi: nat)
    requires Strict(t) && t != [] && UpTo(t, hi) && t[|t| - 1] == hi - 1
    ensures Strict(t[..|t| - 1]) && UpTo(t[..|t| - 1], hi - 1)
  {
    var n := |t| - 1;
    forall v: nat, w: nat | v in t[..n] && v < w < hi - 1 ensures w in t[..n] {
      assert v in t && w in t;
    }
  }

  /** Numbers in order that leave out nothing above any of them. */
  lemma {:induction false} Stretch(t: seq<nat>, lo: nat, hi: nat)
    requires Strict(t) && lo <= hi && (forall k :: 0 <= k < |t| ==> lo <= t[k] < hi) && UpTo(t, hi)
    ensures |t| <= hi - lo && t == Range(hi - |t|, |t|)
    decreases |t|
  {
    hide UpTo;
    if t != [] {
      var n := |t| - 1;
      LastUpTo(t, hi);
      WithoutLast(t, hi);
      Stretch(t[..n], lo, hi - 1);
      assert t == t[..n] + [t[n]];
    }
  }

  lemma NoMembers(s: seq<nat>, t: seq<nat>)
    requires forall v: nat :: v in s <==> v in t
    ensures s == [] ==> t == []
  {
    assert t != [] ==> t[0] in s;
  }

  /** Numbers in order are determined by which they are. */
  lemma {:induction false} SameStrict(s: seq<nat>, t: seq<nat>)
    requires Strict(s) && Strict(t) && forall v: nat :: v in s <==> v in t
    ensures s == t
    decreases |s|
  {
    if s == [] {
      NoMembers(s, t);
    } else {
      assert s[|s| - 1] in s && t != [];
      assert t[|t| - 1] in t;
      var m, n := |s| - 1, |t| - 1;
      assert s[m] == t[n];
      forall v: nat ensures v in s[..m] <==> v in t[..n] {
        assert v in s <==> v in s[..m] || v == s[m];
        assert v in t <==> v in t[..n] || v == t[n];
      }
      SameStrict(s[..m], t[..n]);
      assert s == s[..m] + [s[m]] && t == t[..n] + [t[n]];
    }
  }

  lemma HalvesSide(g: seq<nat>, count: nat, i: nat)
    requires Group(g, count) && Halved(g, count) && i < count
    ensures OnSide(g, count, i, SplitTable(g, count, false)[i])
  {
    hide Others, SplitTable, OnSide, Group;
    TableParts(g, count);
    var s: nat :| 2 * s == Min(|g|, count - |g|) && g == Range(s, |g| - s) + Range(count - s, s);
    var o := RestOfHalves(g, count, s);
    SideOfHalves(g, o, count, s, i);
  }

  lemma RestOfHalves(g: seq<nat>, count: nat, s: nat) returns (o: seq<nat>)
    requires Group(g, count) && 2 * s <= |g| <= count - 2 * s && g == Range(s, |g| - s) + Range(count - s, s)
    ensures o == Range(0, s) + Range(|g|, count - s - |g|) && o == Others(g, count)
  {
    hide Others;
    TableParts(g, count);
    o := Range(0, s) + Range(|g|, count - s - |g|);
    forall v: nat ensures v in o <==> v in Others(g, count) {
      InRange(v, s, |g| - s);
      InRange(v, count - s, s);
      InRange(v, 0, s);
      InRange(v, |g|, count - s - |g|);
      assert v in g <==> v in Range(s, |g| - s) || v in Range(count - s, s);
      assert v in o <==> v in Range(0, s) || v in Range(|g|, count - s - |g|);
    }
    SameStrict(o, Others(g, count));
  }

  lemma SideOfHalves(g: seq<nat>, o: seq<nat>, count: nat, s: nat, i: nat)
    requires |g| <= count && 2 * s == Min(|g|, count - |g|) && i < count
    requires g == Range(s, |g| - s) + Range(count - s, s) && o == Range(0, s) + Range(|g|, count - s - |g|)
    ensures OnSide(g, count, i, (g + o)[i])
  {
    HalvesHas(g, count, s, i);
    if i < |g| {
      assert (g + o)[i] == g[i] == if i < |g| - s then s + i else count - |g| + i;
    } else {
      assert (g + o)[i] == o[i - |g|] == if i < |g| + s then i - |g| else i - s;
    }
  }

  lemma HalvesHas(g: seq<nat>, count: nat, s: nat, i: nat)
    requires s <= |g| <= count && s <= count && g == Range(s, |g| - s) + Range(count - s, s)
    ensures i in g <==> s <= i < |g| || count - s <= i < count
  {
    InRange(i, s, |g| - s);
    InRange(i, count - s, s);
    hide Range;
    assert i in g <==> i in Range(s, |g| - s) || i in Range(count - s, s);
  }

  lemma InRange(v: nat, start: nat, count: nat)
    ensures v in Range(start, count) <==> start <= v < start + count
  {
    if start <= v < start + count {
      assert Range(start, count)[v - start] == v;
    }
  }

  // ----- the whole network -----

  ghost function CorrectionOps(pi: seq<nat>, group: seq<nat>, size: nat, numGroups: nat): seq<Op>
    requires Lists(size, numGroups) && PowerOfTwo(size)
  {
    var n := numGroups * size;
    [Op(Permutation(pi), Range(0, n)), Op(Permutation(SplitTable(group, n, false)), Range(0, n))] + BlockOps(size, numGroups)
  }

  /** Where the first two gates take the wires: z is x reordered. */
  ghost predicate Reordered(z: seq<int>, x: seq<int>, pi: seq<nat>, group: seq<nat>) {
    && |z| == |x| == |pi|
    && forall i :: 0 <= i < |x| ==> pi[i] < |x| && SplitTable(group, |x|, false)[pi[i]] < |x| && z[SplitTable(group, |x|, false)[pi[i]]] == x[i]
  }

  lemma ReorderedOnce(y: seq<int>, z: seq<int>, x: seq<int>, pi: seq<nat>, group: seq<nat>)
    requires Bijective(pi) && Group(group, |x|) && Reordered(y, x, pi, group) && Reordered(z, x, pi, group)
    ensures y == z
  {
    hide Others;
    var p := SplitTable(group, |x|, false);
    SplitIsBijective(group, |x|);
    forall w | 0 <= w < |x| ensures y[w] == z[w] {
      assert w in p;
      var k :| 0 <= k < |p| && p[k] == w;
      assert k in pi;
      var i :| 0 <= i < |pi| && pi[i] == k;
      assert z[p[pi[i]]] == x[i] == y[p[pi[i]]];
    }
  }

  lemma TwoGates(pi: seq<nat>, group: seq<nat>, x: seq<int>) returns (y: seq<int>)
    requires Bijective(pi) && |pi| == |x| && Group(group, |x|)
    ensures var ops := [Op(Permutation(pi), Range(0, |x|)), Op(Permutation(SplitTable(group, |x|, false)), Range(0, |x|))];
      ValidOps(ops, |x|) && y == Run(ops, x) && Reordered(y, x, pi, group)
  {
    hide Apply, Others, ValidOp, Slots;
    var p := SplitTable(group, |x|, false);
    SplitIsBijective(group, |x|);
    var first, second := Op(Permutation(pi), Range(0, |x|)), Op(Permutation(p), Range(0, |x|));
    if |x| == 0 {
      NoWires(first);
      NoWires(second);
    } else {
      GateMoves(pi, x, 0);
      GateMoves(p, x, 0);
    }
    var mid := Apply(first, x);
    y := Apply(second, mid);
    forall i | 0 <= i < |x| ensures pi[i] < |x| && p[pi[i]] < |x| && y[p[pi[i]]] == x[i] {
      GateMoves(pi, x, i);
      GateMoves(p, mid, pi[i]);
    }
    RunTwo(first, second, x);
  }

  lemma NoWires(op: Op)
    requires op.kind.Permutation? && op.kind.perm == [] && op.wires == []
    ensures ValidOp(op, 0)
  {
  }

  /** When the first wires are in order after the two gates, the lists take turns on the outputs, each
      sorted together with its new wire. */
  lemma CorrectionTurns(pi: seq<nat>, group: seq<nat>, size: nat, numGroups: nat, x: seq<int>, z: seq<int>)
    requires Lists(size, numGroups) && PowerOfTwo(size) && |x| == |pi| == numGroups * size
    requires Bijective(pi) && Group(group, |x|) && Reordered(z, x, pi, group)
    requires 0 <= Interleaved(size, numGroups) <= |z| && Ascending(z[..Interleaved(size, numGroups)])
    ensures ValidOps(CorrectionOps(pi, group, size, numGroups), |x|)
    ensures TurnsSorted(Run(CorrectionOps(pi, group, size, numGroups), x), z, size, numGroups)
  {
    hide Run, ValidOp, Bijective, BlockOps, TurnsSorted, Ascending, Interleaved, PowerOfTwo, Reordered, SplitTable;
    var y := TwoGates(pi, group, x);
    ReorderedOnce(y, z, x, pi, group);
    EveryTurnSorted(size, numGroups, z);
    var ops := [Op(Permutation(pi), Range(0, |x|)), Op(Permutation(SplitTable(group, |x|, false)), Range(0, |x|))];
    RunConcat(ops, BlockOps(size, numGroups), x);
  }

  // ----- building it -----

  /** The library's sort. */
  function SortedGroup(s: seq<nat>): (r: seq<nat>)
    ensures multiset(r) == multiset(s) && |r| == |s|
  {
    if s == [] then []
    else
      assert s == [s[0]] + s[1..];
      Insert(SortedGroup(s[1..]), s[0])
  }

  function Insert(s: seq<nat>, v: nat): (r: seq<nat>)
    ensures multiset(r) == multiset(s) + multiset{v} && |r| == |s| + 1
  {
    if s == [] || v <= s[0] then [v] + s
    else
      assert s == [s[0]] + s[1..];
      [s[0]] + Insert(s[1..], v)
  }

  ghost predicate InOrder(s: seq<nat>) {
    forall i, j :: 0 <= i < j < |s| ==> s[i] <= s[j]
  }

  lemma ConsInOrder(v: nat, s: seq<nat>)
    requires InOrder(s) && forall x :: x in s ==> v <= x
    ensures InOrder([v] + s)
  {
    var t := [v] + s;
    forall i, j | 0 <= i < j < |t| ensures t[i] <= t[j] {
      assert t[j] == s[j - 1] && s[j - 1] in s;
    }
  }

  lemma {:induction false} InsertInOrder(s: seq<nat>, v: nat)
    requires InOrder(s)
    ensures InOrder(Insert(s, v))
  {
    if s == [] || v <= s[0] {
      forall x | x in s ensures v <= x { }
      ConsInOrder(v, s);
    } else {
      InsertInOrder(s[1..], v);
      var t := Insert(s[1..], v);
      forall x | x in t ensures s[0] <= x {
        assert x in multiset(t);
        assert x == v || x in s[1..];
      }
      hide InOrder;
      ConsInOrder(s[0], t);
    }
  }

  lemma {:induction false} SortedInOrder(s: seq<nat>)
    ensures InOrder(SortedGroup(s))
  {
    if s != [] {
      SortedInOrder(s[1..]);
      InsertInOrder(SortedGroup(s[1..]), s[0]);
    }
  }

  ghost function Mapped(pi: seq<nat>, y: seq<nat>): (r: seq<nat>)
    requires forall k :: 0 <= k < |y| ==> y[k] < |pi|
    ensures |r| == |y| && forall k :: 0 <= k < |y| ==> r[k] == pi[y[k]]
  {
    seq(|y|, k requires 0 <= k < |y| => pi[y[k]])
  }

  /** The wires that the members of Y come to are a group again. */
  lemma MappedIsGroup(pi: seq<nat>, y: seq<nat>)
    requires Bijective(pi) && Group(y, |pi|)
    ensures Group(SortedGroup(Mapped(pi, y)), |pi|)
  {
    var m := Mapped(pi, y);
    var s := SortedGroup(m);
    SortedInOrder(m);
    forall i, j | 0 <= i < j < |m| ensures m[i] != m[j] {
      assert y[i] < y[j];
    }
    forall k | 0 <= k < |s| ensures s[k] in m {
      assert s[k] in multiset(s);
    }
    forall i, j | 0 <= i < j < |s| ensures s[i] < s[j] {
      if s[i] == s[j] {
        Twice(s, i, j);
        var k :| 0 <= k < |m| && m[k] == s[i];
        Once(m, k);
        assert false;
      }
    }
  }

  lemma AllOps(pi: seq<nat>, group: seq<nat>, size: nat, numGroups: nat)
    requires Lists(size, numGroups) && PowerOfTwo(size) && |pi| == numGroups * size
    ensures [] + [Op(Permutation(pi), Range(0, |pi|))] + [Op(Permutation(SplitTable(group, |pi|, false)), Range(0, |pi|))]
      + BlockOps(size, numGroups) == CorrectionOps(pi, group, size, numGroups)
  {
    hide BlockOps, SplitTable;
  }

  /** The group of the wires that pi takes the members of y to. */
  ghost predicate IsImage(group: seq<nat>, pi: seq<nat>, y: seq<nat>) {
    Group(group, |pi|) && forall v: nat :: v in group <==> exists k :: 0 <= k < |y| && y[k] < |pi| && pi[y[k]] == v
  }

  lemma MappedIsImage(pi: seq<nat>, y: seq<nat>)
    requires Bijective(pi) && Group(y, |pi|)
    ensures IsImage(SortedGroup(Mapped(pi, y)), pi, y)
  {
    MappedIsGroup(pi, y);
    hide SortedGroup, Bijective;
    var m := Mapped(pi, y);
    forall v: nat ensures v in SortedGroup(m) <==> exists k :: 0 <= k < |y| && y[k] < |pi| && pi[y[k]] == v {
      assert v in SortedGroup(m) <==> v in multiset(SortedGroup(m));
      assert v in m <==> v in multiset(m);
      if v in m {
        var k :| 0 <= k < |m| && m[k] == v;
        assert pi[y[k]] == v;
      }
      if k :| 0 <= k < |y| && y[k] < |pi| && pi[y[k]] == v {
        assert m[k] == v;
      }
    }
  }

  method MapGroup(pi: seq<nat>, ySet: seq<nat>) returns (mappedY: array<nat>)
    requires forall k :: 0 <= k < |ySet| ==> ySet[k] < |pi|
    ensures fresh(mappedY) && mappedY[..] == Mapped(pi, ySet)
  {
    mappedY := new nat[|ySet|](i => 0);
    for i := 0 to |ySet|
      invariant forall k :: 0 <= k < i ==> mappedY[k] == pi[ySet[k]]
    {
      mappedY[i] := pi[ySet[i]];
    }
  }

  /** Reorders the wires by pi, separates the images of Y, and inserts. The sorted set Y is given in
      ascending order. */
  method CreateBlockCorrectionNetwork(factory: SortingNetworkFactory, size: nat, numGroups: nat, pi: seq<nat>, ySet: seq<nat>)
    returns (pn: PermutationNetwork)
    requires Lists(size, numGroups) && PowerOfTwo(size) && |pi| == numGroups * size
    requires Bijective(pi) && Group(ySet, |pi|) && |ySet| == numGroups
    modifies factory
    ensures fresh(pn.Repr()) && old(factory.NextGate) <= factory.NextGate && pn.WireCount == |pi|
    ensures exists group :: (
      IsImage(group, pi, ySet) &&
      Built(pn, |pi|, CorrectionOps(pi, group, size, numGroups), old(factory.NextGate), factory.NextGate))
  {
    hide Built, PowerOfTwo, Bijective, BlockOps, SortedGroup, Mapped, SplitTable, IsImage;
    ghost var lo := factory.NextGate;
    MappedIsGroup(pi, ySet);
    MappedIsImage(pi, ySet);
    pn := SortingNetworkFactory.EmptyNetwork(|pi|, lo);
    AppendTable(factory, pn, pi, [], lo);
    var mappedY := MapGroup(pi, ySet);
    var group := SortedGroup(mappedY[..]);
    var split := CreateSplitGate(|pi|, group, false);
    SplitIsBijective(group, |pi|);
    ghost var ops := [] + [Op(Permutation(pi), Range(0, |pi|))];
    AppendTable(factory, pn, split[..], ops, lo);
    ops := ops + [Op(Permutation(split[..]), Range(0, |pi|))];
    AllOps(pi, group, size, numGroups);
    AppendBlockCorrection(factory, pn, size, numGroups, ops, lo);
  }

  /** Every evaluation of the built network. */
  lemma CorrectionInserts(n: Net, pi: seq<nat>, group: seq<nat>, size: nat, numGroups: nat, x: seq<int>, z: seq<int>)
    requires Computes(n) && Realizable(n) && |x| == |pi| == |n.first| == numGroups * size
    requires Lists(size, numGroups) && PowerOfTwo(size) && n.ops == CorrectionOps(pi, group, size, numGroups)
    requires Bijective(pi) && Group(group, |x|) && Reordered(z, x, pi, group)
    requires 0 <= Interleaved(size, numGroups) <= |z| && Ascending(z[..Interleaved(size, numGroups)])
    ensures Outputs(n, x, y => |z| == numGroups * size && TurnsSorted(y, z, size, numGroups))
  {
    CorrectionTurns(pi, group, size, numGroups, x, z);
    hide *;
    RunIsOutput(n, x, y => |z| == numGroups * size && TurnsSorted(y, z, size, numGroups));
  }
}
