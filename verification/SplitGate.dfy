/** Split gates. */
module SplitGates {
  // Gate.cs: taking a permutation back, and the gate that separates a group of wires.

  import opened Options
  import opened WireOps

  // ----- PermutationGate.Unpermute -----

  /** A permutation gate is made from an array or from a function, here the table of its values. */
  datatype PermutationGate = ByArray(perm: seq<nat>) | ByFunction(perm: seq<nat>)

  /** The loop of Unpermute. A gate made from an array has no function: unless its entry matches,
      the second operand of the test is evaluated and fails, here None. */
  method UnpermuteGate(gate: PermutationGate, output: nat) returns (r: Option<int>)
    ensures gate.ByFunction? ==> r == Some(Unpermute(gate.perm, output, 0))
    ensures gate.ByArray? ==> (r.Some? <==> gate.perm == [] || gate.perm[0] == output)
    ensures gate.ByArray? && r.Some? ==> r.value == if gate.perm == [] then -1 else 0
  {
    for i := 0 to |gate.perm|
      invariant gate.ByArray? ==> i == 0
      invariant Unpermute(gate.perm, output, 0) == Unpermute(gate.perm, output, i)
    {
      if gate.ByArray? && gate.perm[i] == output {
        return Some(i);
      }
      if gate.ByArray? {
        return None;
      }
      if gate.perm[i] == output {
        return Some(i);
      }
    }
    r := Some(-1);
  }

  // ----- CreateSplitGate -----

  ghost predicate Strict(s: seq<nat>) {
    forall i, j :: 0 <= i < j < |s| ==> s[i] < s[j]
  }

  ghost predicate Group(g: seq<nat>, count: nat) {
    Strict(g) && forall k :: 0 <= k < |g| ==> g[k] < count
  }

  /** The wires below n that are not in the group, in order. */
  ghost function Others(g: seq<nat>, n: nat): (o: seq<nat>)
    ensures Strict(o) && (forall k :: 0 <= k < |o| ==> o[k] < n) && forall v: nat :: v in o <==> v < n && v !in g
  {
    if n == 0 then []
    else
      var o := Others(g, n - 1);
      assert forall v: nat :: v in o + [n - 1] <==> v in o || v == n - 1;
      if n - 1 in g then o else o + [n - 1]
  }

  /** Entry k once s has been written from slot 0 on and o from slot base on, in ascending order of
      the values. */
  function Slot(s: seq<nat>, o: seq<nat>, base: nat, k: nat): nat {
    if k < |s| then
      if base <= k < base + |o| then Max(s[k], o[k - base]) else s[k]
    else
      if base <= k < base + |o| then o[k - base] else 0
  }

  ghost function Slots(s: seq<nat>, o: seq<nat>, base: nat, n: nat): (p: seq<nat>)
    ensures |p| == n && forall k :: 0 <= k < n ==> p[k] == Slot(s, o, base, k)
  {
    seq(n, k requires 0 <= k < n => Slot(s, o, base, k))
  }

  ghost function SplitTable(g: seq<nat>, count: nat, moveGroupToTop: bool): (p: seq<nat>)
    ensures |p| == count
  {
    Slots(g, Others(g, count), if moveGroupToTop then 0 else |g|, count)
  }

  /** The group is given sorted, as Array.Sort leaves it. */
  method CreateSplitGate(count: nat, sortedGroup: seq<nat>, moveGroupToTop: bool) returns (perm: array<nat>)
    requires Group(sortedGroup, count)
    ensures fresh(perm) && perm[..] == SplitTable(sortedGroup, count, moveGroupToTop)
  {
    hide Slots, Slot, Others, WrittenUpTo, Strict;
    perm := new nat[count](i => 0);
    var groupIndex: nat := 0;
    var notGroupIndex: nat := if moveGroupToTop then 0 else |sortedGroup|;
    ghost var base: nat := notGroupIndex;
    NothingWritten(sortedGroup, base, count);
    assert perm[..] == Slots(sortedGroup[..0], Others(sortedGroup, 0), base, count);
    for i := 0 to count
      invariant groupIndex <= |sortedGroup|
      invariant WrittenUpTo(sortedGroup, i, groupIndex, notGroupIndex, base)
      invariant perm[..] == Slots(sortedGroup[..groupIndex], Others(sortedGroup, i), base, count)
    {
      WrittenNext(sortedGroup, count, i, groupIndex, notGroupIndex, base);
      if groupIndex < |sortedGroup| && i == sortedGroup[groupIndex] {
        perm[groupIndex] := i;
        groupIndex := groupIndex + 1;
      } else {
        perm[notGroupIndex] := i;
        notGroupIndex := notGroupIndex + 1;
      }
    }
    AllWritten(sortedGroup, count, groupIndex, notGroupIndex, base);
  }

  /** The two indexes when the wires below i have been placed. */
  ghost predicate WrittenUpTo(g: seq<nat>, i: nat, groupIndex: nat, notGroupIndex: nat, base: nat) {
    && groupIndex <= |g|
    && (forall k :: 0 <= k < |g| ==> (g[k] < i <==> k < groupIndex))
    && notGroupIndex == base + |Others(g, i)| && groupIndex + |Others(g, i)| == i
  }

  lemma WrittenNext(g: seq<nat>, count: nat, i: nat, groupIndex: nat, notGroupIndex: nat, base: nat)
    requires Group(g, count) && i < count && WrittenUpTo(g, i, groupIndex, notGroupIndex, base) && base in {0, |g|}
    ensures groupIndex < |g| && g[groupIndex] == i ==>
      groupIndex < count && WrittenUpTo(g, i + 1, groupIndex + 1, notGroupIndex, base) &&
      Slots(g[..groupIndex + 1], Others(g, i + 1), base, count) ==
        Slots(g[..groupIndex], Others(g, i), base, count)[groupIndex := i]
    ensures !(groupIndex < |g| && g[groupIndex] == i) ==>
      notGroupIndex < count && WrittenUpTo(g, i + 1, groupIndex, notGroupIndex + 1, base) &&
      Slots(g[..groupIndex], Others(g, i + 1), base, count) ==
        Slots(g[..groupIndex], Others(g, i), base, count)[notGroupIndex := i]
  {
    hide Slots;
    var s, o := g[..groupIndex], Others(g, i);
    if groupIndex < |g| && g[groupIndex] == i {
      WriteMember(s, o, base, count, i);
      assert g[..groupIndex + 1] == s + [i];
    } else {
      StrictRoom(g, groupIndex, i + 1, count);
      WriteOther(s, o, base, count, i);
    }
  }

  lemma NothingWritten(g: seq<nat>, base: nat, count: nat)
    ensures WrittenUpTo(g, 0, 0, base, base)
    ensures forall k :: 0 <= k < count ==> Slots(g[..0], Others(g, 0), base, count)[k] == 0
  {
  }

  lemma MemberBelow(g: seq<nat>, count: nat, k: nat)
    requires Group(g, count) && k < |g|
    ensures g[k] < count
  {
  }

  lemma AllWritten(g: seq<nat>, count: nat, groupIndex: nat, notGroupIndex: nat, base: nat)
    requires Group(g, count) && WrittenUpTo(g, count, groupIndex, notGroupIndex, base)
    ensures g[..groupIndex] == g
  {
    if groupIndex < |g| {
      MemberBelow(g, count, groupIndex);
      assert false;
    }
  }

  lemma {:induction false} StrictRoom(g: seq<nat>, from: nat, lo: nat, count: nat)
    requires Group(g, count) && from <= |g| && lo <= count && forall k :: from <= k < |g| ==> g[k] >= lo
    ensures |g| - from <= count - lo
    decreases |g| - from
  {
    if from < |g| {
      StrictRoom(g, from + 1, g[from] + 1, count);
    }
  }

  lemma WriteMember(s: seq<nat>, o: seq<nat>, base: nat, n: nat, i: nat)
    requires |s| < n && (forall k :: 0 <= k < |o| ==> o[k] < i)
    ensures Slots(s + [i], o, base, n) == Slots(s, o, base, n)[|s| := i]
  {
    var p, q := Slots(s + [i], o, base, n), Slots(s, o, base, n)[|s| := i];
    forall k | 0 <= k < n ensures p[k] == q[k] { }
    assert p == q;
  }

  lemma WriteOther(s: seq<nat>, o: seq<nat>, base: nat, n: nat, i: nat)
    requires base + |o| < n && (forall k :: 0 <= k < |s| ==> s[k] < i)
    ensures Slots(s, o + [i], base, n) == Slots(s, o, base, n)[base + |o| := i]
  {
    var p, q := Slots(s, o + [i], base, n), Slots(s, o, base, n)[base + |o| := i];
    forall k | 0 <= k < n ensures p[k] == q[k] { }
    assert p == q;
  }

  lemma OthersNext(g: seq<nat>, n: nat)
    ensures Others(g, n + 1) == if n in g then Others(g, n) else Others(g, n) + [n]
    ensures Others(g, 0) == []
  {
  }

  lemma LastMember(g: seq<nat>, n: nat, from: nat)
    requires n > 0 && Strict(g) && from <= |g| && n - 1 in g && forall k :: 0 <= k < |g| ==> (g[k] < n <==> k < from)
    ensures from > 0 && g[from - 1] == n - 1 && forall k :: 0 <= k < |g| ==> (g[k] < n - 1 <==> k < from - 1)
  {
  }

  lemma {:induction false} OthersCount(g: seq<nat>, n: nat, from: nat)
    requires Strict(g) && from <= |g| && forall k :: 0 <= k < |g| ==> (g[k] < n <==> k < from)
    ensures |Others(g, n)| + from == n
    decreases n
  {
    hide Others;
    if n == 0 {
      OthersNext(g, 0);
    } else {
      OthersNext(g, n - 1);
      if n - 1 in g {
        LastMember(g, n, from);
        OthersCount(g, n - 1, from - 1);
      } else {
        OthersCount(g, n - 1, from);
      }
    }
  }

  lemma GroupAndOthers(g: seq<nat>, count: nat)
    requires Group(g, count)
    ensures |g| + |Others(g, count)| == count && Bijective(g + Others(g, count))
  {
    OthersCount(g, count, |g|);
    var p := g + Others(g, count);
    forall j | 0 <= j < count ensures j in p { }
    forall i, j | 0 <= i < j < count ensures p[i] != p[j] {
      if i < |g| <= j {
        assert p[i] in g && p[j] in Others(g, count);
      }
    }
  }

  lemma SameElementsBijective(p: seq<nat>, q: seq<nat>)
    requires Bijective(p) && multiset(p) == multiset(q) && |p| == |q|
    ensures Bijective(q)
  {
    forall v: nat ensures v in p <==> v in q {
      assert v in p <==> v in multiset(p);
      assert v in q <==> v in multiset(q);
    }
    forall i | 0 <= i < |q| ensures q[i] < |q| {
      assert q[i] in q;
    }
    forall i, j | 0 <= i < j < |q| ensures q[i] != q[j] {
      if q[i] == q[j] {
        Twice(q, i, j);
        var k :| 0 <= k < |p| && p[k] == q[i];
        Once(p, k);
        assert false;
      }
    }
  }

  lemma Twice(q: seq<nat>, i: nat, j: nat)
    requires i < j < |q| && q[i] == q[j]
    ensures multiset(q)[q[i]] >= 2
  {
    assert q == q[..i] + [q[i]] + q[i + 1..j] + [q[j]] + q[j + 1..];
  }

  lemma Once(p: seq<nat>, k: nat)
    requires k < |p| && forall i, j :: 0 <= i < j < |p| ==> p[i] != p[j]
    ensures multiset(p)[p[k]] == 1
  {
    assert p == p[..k] + [p[k]] + p[k + 1..];
    assert p[k] !in p[..k] && p[k] !in p[k + 1..];
  }

  /** Asked to leave the group below, the gate is a permutation for every group. */
  lemma SplitIsBijective(g: seq<nat>, count: nat)
    requires Group(g, count)
    ensures Bijective(SplitTable(g, count, false))
  {
    GroupAndOthers(g, count);
    assert SplitTable(g, count, false) == g + Others(g, count);
  }

  /** Asked to move the group to the top, both parts are written from slot 0 on. That is still a
      permutation exactly when one of the parts has at most one wire. */
  lemma SplitToTop(g: seq<nat>, count: nat)
    requires Group(g, count)
    ensures Bijective(SplitTable(g, count, true)) <==> |g| <= 1 || count - |g| <= 1
  {
    hide Bijective, Strict, Slot;
    GroupAndOthers(g, count);
    GroupParts(g, count);
    var o := Others(g, count);
    if |g| == 0 || |o| == 0 {
      OnlyOnePart(g, o, count);
    } else if |g| == 1 {
      ZeroIsFirst(g, o, count);
      TopSlots(g, o, count);
      OneOnTop(g[0], o, count, g + o, SplitTable(g, count, true));
    } else if |o| == 1 {
      ZeroIsFirst(g, o, count);
      Swapped(g, o);
      TopSlots(g, o, count);
      OneOnTop(o[0], g, count, o + g, SplitTable(g, count, true));
    } else {
      TwoZeros(g, o, count);
    }
  }

  /** What it does then: with one part empty it is the identity. Otherwise the last wire gets 0 and the
      first one the single wire, or 1 when that is wire 0, and the wires in between stay in order. */
  lemma SplitTopIs(g: seq<nat>, count: nat)
    requires Group(g, count) && (|g| <= 1 || count - |g| <= 1)
    ensures |g| == 0 || |g| == count ==> forall k :: 0 <= k < count ==> SplitTable(g, count, true)[k] == k
    ensures 0 < |g| < count ==> (
      var t := SplitTable(g, count, true);
      t[count - 1] == 0 && Strict(t[1..count - 1]) &&
      (|g| == 1 ==> t[0] == Max(g[0], 1)) &&
      (|g| == count - 1 ==> forall v: nat :: v < count && v !in g ==> t[0] == Max(v, 1)))
  {
    hide Bijective, Slot, Strict;
    GroupAndOthers(g, count);
    GroupParts(g, count);
    var o := Others(g, count);
    if |g| == 0 || |g| == count {
      OnlyOnePart(g, o, count);
      assert g + o == if |g| == 0 then o else g;
      Counting(g + o, count);
    } else {
      ZeroIsFirst(g, o, count);
      TopSlots(g, o, count);
      if |g| == 1 {
        TopOfOne(g[0], o, count, SplitTable(g, count, true));
      }
      if |o| == 1 {
        Swapped(g, o);
        TopOfOne(o[0], g, count, SplitTable(g, count, true));
        assert forall v: nat :: v < count && v !in g ==> v in o;
      }
    }
  }

  lemma TopOfOne(a: nat, o: seq<nat>, count: nat, t: seq<nat>)
    requires Strict(o) && |o| + 1 == count && |o| > 0 && (a == 0 || o[0] == 0) && Bijective([a] + o)
    requires t == [Max(a, o[0])] + o[1..] + [0]
    ensures t[count - 1] == 0 && Strict(t[1..count - 1]) && t[0] == Max(a, 1)
  {
    assert t[1..count - 1] == o[1..];
    if a == 0 {
      assert 1 in [a] + o;
      var k :| 0 <= k < |o| && o[k] == 1;
      assert ([a] + o)[1] == o[0] && ([a] + o)[0] == 0;
    }
  }

  lemma {:induction false} Counting(s: seq<nat>, count: nat)
    requires Group(s, count) && |s| == count
    ensures forall k :: 0 <= k < count ==> s[k] == k
  {
    if count > 0 {
      var init := s[..count - 1];
      forall k | 0 <= k < count - 1 ensures init[k] < count - 1 {
        assert s[k] < s[count - 1] < count;
      }
      Counting(init, count - 1);
      forall k | 0 <= k < count - 1 ensures s[k] == k {
        assert s[k] == init[k];
      }
      assert count > 1 ==> s[count - 2] < s[count - 1];
      assert s[count - 1] < count;
    }
  }

  lemma GroupParts(g: seq<nat>, count: nat)
    requires Group(g, count)
    ensures Strict(g) && Strict(Others(g, count))
  {
  }

  lemma OnlyOnePart(g: seq<nat>, o: seq<nat>, count: nat)
    requires |g| + |o| == count && (|g| == 0 || |o| == 0)
    ensures Slots(g, o, 0, count) == g + o
  {
  }

  lemma TopSlots(g: seq<nat>, o: seq<nat>, count: nat)
    requires |g| + |o| == count && |g| > 0 && |o| > 0
    ensures |g| == 1 ==> Slots(g, o, 0, count) == [Max(g[0], o[0])] + o[1..] + [0] && g + o == [g[0]] + o
    ensures |o| == 1 ==> Slots(g, o, 0, count) == [Max(o[0], g[0])] + g[1..] + [0] && o + g == [o[0]] + g
  {
  }

  lemma TwoZeros(g: seq<nat>, o: seq<nat>, count: nat)
    requires |g| + |o| == count && |g| >= 2 && |o| >= 2
    ensures !Bijective(Slots(g, o, 0, count))
  {
    var t := Slots(g, o, 0, count);
    assert t[count - 1] == 0 == t[count - 2];
  }

  lemma Swapped(g: seq<nat>, o: seq<nat>)
    requires Bijective(g + o)
    ensures Bijective(o + g)
  {
    assert multiset(g + o) == multiset(o + g);
    SameElementsBijective(g + o, o + g);
  }

  lemma ZeroIsFirst(g: seq<nat>, o: seq<nat>, count: nat)
    requires Strict(g) && Strict(o) && |g| > 0 && |o| > 0 && |g| + |o| == count && Bijective(g + o)
    ensures g[0] == 0 || o[0] == 0
  {
    var p := g + o;
    assert 0 in p;
  }

  lemma OneOnTop(a: nat, o: seq<nat>, count: nat, p: seq<nat>, t: seq<nat>)
    requires |o| + 1 == count && |o| > 0 && (a == 0 || o[0] == 0)
    requires p == [a] + o && Bijective(p)
    requires t == [Max(a, o[0])] + o[1..] + [0]
    ensures Bijective(t)
  {
    assert o == [o[0]] + o[1..];
    assert multiset(t) == multiset{Max(a, o[0]), 0} + multiset(o[1..]);
    assert multiset(p) == multiset{a, o[0]} + multiset(o[1..]);
    SameElementsBijective(p, t);
  }
}
