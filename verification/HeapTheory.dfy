/** Heap order on sequences: what the sift loops do, step by step. */
module HeapTheory {

  /** An event as the queues see it; serial tells events with equal times apart. */
  datatype BaseEvent = BaseEvent(time: int, target: int, serial: nat)

  /** A value with the time it was added: TimestampedT. */
  datatype Entry = Entry(value: BaseEvent, stamp: nat)

  predicate Before(a: Entry, b: Entry) {
    a.value.time < b.value.time || (a.value.time == b.value.time && a.stamp < b.stamp)
  }

  predicate AtMost(a: Entry, b: Entry) {
    !Before(b, a)
  }

  function Parent(k: nat): nat
    requires k > 0
  {
    (k - 1) / 2
  }

  ghost predicate Heap(s: seq<Entry>) {
    forall k :: 0 < k < |s| ==> AtMost(s[Parent(k)], s[k])
  }

  ghost predicate InOrder(s: seq<Entry>) {
    forall i, j :: 0 <= i < j < |s| ==> AtMost(s[i], s[j])
  }

  ghost predicate LeastOf(v: Entry, s: seq<Entry>) {
    v in s && forall x :: x in s ==> AtMost(v, x)
  }

  lemma SortedIsHeap(s: seq<Entry>)
    requires InOrder(s)
    ensures Heap(s)
  {
    forall k | 0 < k < |s| ensures AtMost(s[Parent(k)], s[k]) {
      assert Parent(k) < k;
    }
  }

  /** The root is a least element. */
  lemma {:induction false} RootLeast(s: seq<Entry>, k: nat)
    requires Heap(s) && k < |s|
    ensures AtMost(s[0], s[k])
  {
    if k > 0 {
      RootLeast(s, Parent(k));
    }
  }

  function Swap(s: seq<Entry>, a: nat, b: nat): (r: seq<Entry>)
    requires a < |s| && b < |s|
    ensures |r| == |s|
    ensures forall k :: 0 <= k < |s| ==> r[k] == if k == b then s[a] else if k == a then s[b] else s[k]
  {
    s[a := s[b]][b := s[a]]
  }

  lemma SwapKeeps(s: seq<Entry>, a: nat, b: nat)
    requires a < |s| && b < |s|
    ensures multiset(Swap(s, a, b)) == multiset(s)
  {
  }

  // ----- moving up -----

  /** Heap order but for the element at p and its parent. */
  ghost predicate HeapUp(s: seq<Entry>, p: nat) {
    && p < |s|
    && (forall k :: 0 < k < |s| && k != p ==> AtMost(s[Parent(k)], s[k]))
    && (p > 0 ==> forall k :: 0 < k < |s| && Parent(k) == p ==> AtMost(s[Parent(p)], s[k]))
  }

  lemma UpStart(s: seq<Entry>, item: Entry)
    requires Heap(s)
    ensures HeapUp(s + [item], |s|)
  {
    var t := s + [item];
    forall k | 0 < k < |t| && k != |s| ensures AtMost(t[Parent(k)], t[k]) {
      assert t[k] == s[k] && t[Parent(k)] == s[Parent(k)];
    }
  }

  lemma UpStep(s: seq<Entry>, p: nat)
    requires HeapUp(s, p) && p > 0 && Before(s[p], s[Parent(p)])
    ensures HeapUp(Swap(s, p, Parent(p)), Parent(p))
  {
    var q := Parent(p);
    var t := Swap(s, p, q);
    forall k | 0 < k < |t| && k != q ensures AtMost(t[Parent(k)], t[k]) {
      if k != p {
        assert AtMost(s[Parent(k)], s[k]);
      }
    }
    if q > 0 {
      forall k | 0 < k < |t| && Parent(k) == q ensures AtMost(t[Parent(q)], t[k]) {
        assert AtMost(s[Parent(q)], s[q]);
        if k != p {
          assert AtMost(s[q], s[k]);
        }
      }
    }
  }

  lemma UpEnd(s: seq<Entry>, p: nat)
    requires HeapUp(s, p) && (p > 0 ==> AtMost(s[Parent(p)], s[p]))
    ensures Heap(s)
  {
  }

  // ----- moving down -----

  /** Heap order but for the element at p and its children. */
  ghost predicate HeapDown(s: seq<Entry>, p: nat) {
    && p < |s|
    && (forall k :: 0 < k < |s| && Parent(k) != p ==> AtMost(s[Parent(k)], s[k]))
    && (p > 0 ==> forall k :: 0 < k < |s| && Parent(k) == p ==> AtMost(s[Parent(p)], s[k]))
  }

  lemma DownStart(s: seq<Entry>, item: Entry)
    requires Heap(s) && |s| > 0
    ensures HeapDown(s[0 := item], 0)
  {
    var t := s[0 := item];
    forall k | 0 < k < |t| && Parent(k) != 0 ensures AtMost(t[Parent(k)], t[k]) {
      assert AtMost(s[Parent(k)], s[k]);
    }
  }

  /** c is the child to go to: the only one, or the lesser of two. */
  ghost predicate LeastChild(s: seq<Entry>, p: nat, c: nat) {
    0 < c < |s| && Parent(c) == p && forall k :: 0 < k < |s| && Parent(k) == p ==> AtMost(s[c], s[k])
  }

  lemma DownStep(s: seq<Entry>, p: nat, c: nat)
    requires HeapDown(s, p) && LeastChild(s, p, c) && Before(s[c], s[p])
    ensures HeapDown(Swap(s, p, c), c)
  {
    var t := Swap(s, p, c);
    forall k | 0 < k < |t| && Parent(k) != c ensures AtMost(t[Parent(k)], t[k]) {
      if Parent(k) == p {
        if k != c { assert AtMost(s[c], s[k]); }
      } else if k == p {
        assert AtMost(s[Parent(p)], s[c]);
      } else {
        assert AtMost(s[Parent(k)], s[k]);
      }
    }
    forall k | 0 < k < |t| && Parent(k) == c ensures AtMost(t[Parent(c)], t[k]) {
      assert AtMost(s[c], s[k]);
    }
  }

  lemma DownEnd(s: seq<Entry>, p: nat)
    requires HeapDown(s, p) && forall k :: 0 < k < |s| && Parent(k) == p ==> AtMost(s[p], s[k])
    ensures Heap(s)
  {
    forall k | 0 < k < |s| ensures AtMost(s[Parent(k)], s[k]) { }
  }

  lemma ChildrenOf(p: nat, k: nat)
    requires k > 0
    ensures Parent(k) == p <==> k == 2 * p + 1 || k == 2 * p + 2
  {
  }

  // ----- sorting -----

  function Inserted(s: seq<Entry>, x: Entry): (r: seq<Entry>)
    ensures multiset(r) == multiset(s) + multiset{x} && |r| == |s| + 1
  {
    if s == [] || Before(x, s[0]) then [x] + s
    else
      assert s == [s[0]] + s[1..];
      [s[0]] + Inserted(s[1..], x)
  }

  function SortSeq(s: seq<Entry>): (r: seq<Entry>)
    ensures multiset(r) == multiset(s) && |r| == |s|
  {
    if s == [] then []
    else
      assert s == [s[0]] + s[1..];
      Inserted(SortSeq(s[1..]), s[0])
  }

  lemma {:induction false} InsertedInOrder(s: seq<Entry>, x: Entry)
    requires InOrder(s)
    ensures InOrder(Inserted(s, x))
  {
    if s == [] || Before(x, s[0]) {
      var r := [x] + s;
      forall i, j | 0 <= i < j < |r| ensures AtMost(r[i], r[j]) {
        assert AtMost(s[0], s[j - 1]);
      }
    } else {
      var t := Inserted(s[1..], x);
      InsertedInOrder(s[1..], x);
      var r := [s[0]] + t;
      forall i, j | 0 <= i < j < |r| ensures AtMost(r[i], r[j]) {
        if i == 0 {
          assert t[j - 1] in multiset(t);
          assert t[j - 1] == x || t[j - 1] in s[1..];
        }
      }
    }
  }

  lemma {:induction false} SortSeqInOrder(s: seq<Entry>)
    ensures InOrder(SortSeq(s))
  {
    if s != [] {
      SortSeqInOrder(s[1..]);
      InsertedInOrder(SortSeq(s[1..]), s[0]);
    }
  }
}
