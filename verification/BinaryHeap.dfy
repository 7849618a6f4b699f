/** The array heap, and the stable heap on top of it. */
module BinaryHeaps {
  import opened Options
  import opened HeapTheory

  const DEFAULT_SIZE := 4
  /** Fills unused cells: default(T). */
  const NOTHING := Entry(BaseEvent(0, 0, 0), 0)

  class BinaryHeap {
    var data: array<Entry>
    var count: nat
    var capacity: nat
    var sorted: bool

    ghost function Items(): seq<Entry>
      requires count <= data.Length
      reads this, data
    {
      data[..count]
    }

    ghost predicate Valid()
      reads this, data
      ensures Valid() ==> count <= data.Length
    {
      && count <= capacity == data.Length && capacity >= DEFAULT_SIZE
      && Heap(Items()) && (sorted ==> InOrder(Items()))
    }

    constructor ()
      ensures Valid() && fresh(data) && Items() == []
    {
      data := new Entry[DEFAULT_SIZE](i => NOTHING);
      count, capacity, sorted := 0, DEFAULT_SIZE, false;
    }

    /** Setting Capacity: the first count items move to a new array. */
    method SetCapacity(value: nat)
      requires count <= capacity == data.Length
      modifies `capacity, `data
      ensures capacity == data.Length == (if value >= count then value else count)
      ensures data[..count] == old(data[..count])
      ensures data == old(data) || fresh(data)
    {
      var previousCapacity := capacity;
      capacity := if value >= count then value else count;
      if capacity != previousCapacity {
        var temp := new Entry[capacity](i => NOTHING);
        for i := 0 to count
          invariant data == old(data) && capacity == temp.Length && data[..] == old(data[..])
          invariant forall k :: 0 <= k < i ==> temp[k] == data[k]
        {
          temp[i] := data[i];
        }
        data := temp;
      }
    }

    lemma CountOfItems()
      requires Valid()
      ensures |Items()| == count
    {
    }

    method Peek() returns (r: Option<Entry>)
      requires Valid()
      ensures count == 0 ==> r == None
      ensures count > 0 ==> r.Some? && LeastOf(r.value, Items())
    {
      if count == 0 {
        return None;
      }
      RootOfAll(Items());
      r := Some(data[0]);
    }

    method Clear()
      requires Valid()
      modifies this
      ensures Valid() && Items() == [] && fresh(data)
    {
      count := 0;
      data := new Entry[capacity](i => NOTHING);
    }

    method Add(item: Entry)
      requires Valid()
      modifies this, data
      ensures Valid() && (data == old(data) || fresh(data))
      ensures count == old(count) + 1 && multiset(Items()) == multiset(old(Items())) + multiset{item}
    {
      hide Heap, InOrder;
      Grow();
      AddLast(item);
      count := count + 1;
    }

    method AddLast(item: Entry)
      requires count < data.Length && Heap(data[..count])
      modifies `sorted, data
      ensures !sorted && Heap(data[..count + 1])
      ensures multiset(data[..count + 1]) == multiset(old(data[..count])) + multiset{item}
    {
      hide Heap;
      PutLast(item);
      UpHeap();
    }

    /** Doubles the capacity of a full heap. */
    method Grow()
      requires count <= capacity == data.Length && capacity >= DEFAULT_SIZE
      modifies `capacity, `data
      ensures count < capacity == data.Length && capacity >= DEFAULT_SIZE
      ensures data[..count] == old(data[..count]) && (data == old(data) || fresh(data))
    {
      if count == capacity {
        SetCapacity(2 * capacity);
      }
    }

    method PutLast(item: Entry)
      requires count < data.Length
      modifies data
      ensures data[..count] == old(data[..count]) && data[..count + 1] == old(data[..count]) + [item]
    {
      data[count] := item;
      assert data[..count + 1] == data[..count] + [item];
    }

    /** Bubbles the item at position count up. */
    method UpHeap()
      requires count < data.Length && Heap(data[..count])
      modifies `sorted, data
      ensures !sorted && Heap(data[..count + 1])
      ensures multiset(data[..count + 1]) == multiset(old(data[..count + 1]))
    {
      sorted := false;
      SiftUp(data, count);
    }

    method Remove() returns (r: Option<Entry>)
      requires Valid()
      modifies this, data
      ensures Valid() && data == old(data)
      ensures old(count) == 0 ==> r == None && Items() == old(Items())
      ensures old(count) > 0 ==> (
        count == old(count) - 1 && r.Some? && LeastOf(r.value, old(Items())) &&
        multiset(Items()) == multiset(old(Items())) - multiset{r.value})
    {
      hide Heap, InOrder, LeastOf;
      if count == 0 {
        return None;
      }
      RootOfAll(data[..count]);
      r := Some(data[0]);
      TakeRoot();
      sorted := false;
    }

    /** The last item replaces the one at the root and sinks. */
    method TakeRoot()
      requires 0 < count <= data.Length && Heap(data[..count])
      modifies `count, `sorted, data
      ensures count == old(count) - 1 && Heap(data[..count])
      ensures multiset(data[..count]) == multiset(old(data[..count])) - multiset{old(data[0])}
    {
      hide Heap, HeapDown;
      LastCell();
      count := count - 1;
      if count > 0 {
        DownHeap();
      }
    }

    /** Moves the last item to the root and clears its cell. */
    method LastCell()
      requires 0 < count <= data.Length && Heap(data[..count])
      modifies data
      ensures count > 1 ==> HeapDown(data[..count - 1], 0)
      ensures count == 1 ==> Heap(data[..count - 1])
      ensures multiset(data[..count - 1]) == multiset(old(data[..count])) - multiset{old(data[0])}
    {
      ghost var s := data[..count];
      hide Heap, HeapDown;
      var last := count - 1;
      data[0] := data[last];
      data[last] := NOTHING;
      if last > 0 {
        assert data[..last] == s[..last][0 := s[last]];
      }
      LastToRoot(s, data[..last]);
    }

    /** Lets the item at the root sink. */
    method DownHeap()
      requires 0 < count <= data.Length && HeapDown(data[..count], 0)
      modifies `sorted, data
      ensures !sorted && Heap(data[..count])
      ensures multiset(data[..count]) == multiset(old(data[..count]))
    {
      sorted := false;
      SiftDown(data, count);
    }

    method EnsureSort()
      requires Valid()
      modifies `sorted, data
      ensures Valid() && sorted && multiset(Items()) == multiset(old(Items()))
    {
      if sorted {
        return;
      }
      hide Heap, InOrder, SortSeq;
      SortSeqInOrder(data[..count]);
      SortedIsHeap(SortSeq(data[..count]));
      SortArray(data, count);
      sorted := true;
    }

    /** Whether some item has the time that is asked for: the probe carries any timestamp. */
    method Contains(time: int) returns (r: bool)
      requires Valid()
      modifies `sorted, data
      ensures Valid() && count == old(count) && multiset(Items()) == multiset(old(Items()))
      ensures r <==> exists x :: x in Items() && x.value.time == time
    {
      EnsureSort();
      var i := BinarySearch(time);
      r := i >= 0;
      assert forall k :: 0 <= k < count ==> Items()[k] == data[k];
      assert r ==> data[i] in Items();
    }

    method BinarySearch(time: int) returns (i: int)
      requires Valid() && sorted
      ensures i < count
      ensures i >= 0 ==> data[i].value.time == time
      ensures i < 0 ==> forall k :: 0 <= k < count ==> data[k].value.time != time
    {
      var lo, hi := 0, count;
      assert forall i, j :: 0 <= i < j < count ==> Items()[i] == data[i] && Items()[j] == data[j];
      while lo < hi
        invariant 0 <= lo <= hi <= count
        invariant forall k :: 0 <= k < lo ==> data[k].value.time < time
        invariant forall k :: hi <= k < count ==> data[k].value.time > time
      {
        var mid := (lo + hi) / 2;
        assert forall k :: 0 <= k < mid ==> AtMost(Items()[k], Items()[mid]);
        assert forall k :: mid < k < count ==> AtMost(Items()[mid], Items()[k]);
        if data[mid].value.time == time {
          return mid;
        } else if data[mid].value.time < time {
          lo := mid + 1;
        } else {
          hi := mid;
        }
      }
      i := -1;
    }
  }

  /** The loop of UpHeap: parents greater than the item move down until its place is found. */
  method SiftUp(data: array<Entry>, count: nat)
    requires count < data.Length && Heap(data[..count])
    modifies data
    ensures Heap(data[..count + 1])
    ensures multiset(data[..count + 1]) == multiset(old(data[..count + 1]))
  {
    hide Heap, HeapUp, Before, Parent, HoleAt;
    var p, item := count, data[count];
    ghost var t := data[..count + 1];
    ghost var before := multiset(t);
    assert t[..count] == data[..count];
    UpStartAt(t);
    HoleStart(t, p);
    var par := if p > 0 then Parent(p) else -1;
    if p > 0 { ParentBelow(p); }
    while par > -1 && Before(item, data[par])
      invariant p <= count && par < p && (if p > 0 then par == Parent(p) else par == -1)
      invariant |t| == count + 1 && HoleAt(data[..count + 1], t, p) && t[p] == item
      invariant HeapUp(t, p) && multiset(t) == before
    {
      HoleOther(data[..count + 1], t, p, par);
      var next := UpMove(t, p, item);
      HoleMove(data[..count + 1], t, next, p, par, item);
      label Round:
      data[p] := data[par];
      assert data[..count + 1] == old@Round(data[..count + 1])[p := t[par]];
      p := par;
      t := next;
      par := if p > 0 then Parent(p) else -1;
      if p > 0 { ParentBelow(p); }
    }
    if p > 0 { HoleOther(data[..count + 1], t, p, par); }
    UpEnd(t, p);
    HoleFill(data[..count + 1], t, p);
    data[p] := item;
    assert data[..count + 1] == t;
  }

  /** The loop of DownHeap: the lesser child moves up while it is less than the item. */
  method SiftDown(data: array<Entry>, count: nat)
    requires 0 < count <= data.Length && HeapDown(data[..count], 0)
    modifies data
    ensures Heap(data[..count])
    ensures multiset(data[..count]) == multiset(old(data[..count]))
  {
    hide Heap, HeapDown, Before, Parent, LeastChild, HoleAt;
    var p, item := 0, data[0];
    ghost var t := data[..count];
    ghost var before := multiset(t);
    HoleStart(t, p);
    while true
      invariant p < count && |t| == count && HoleAt(data[..count], t, p) && t[p] == item
      invariant HeapDown(t, p) && multiset(t) == before
      decreases count - p
    {
      var ch1 := 2 * p + 1;
      if ch1 >= count {
        NoChildren(t, p);
        break;
      }
      var n := LesserChild(data, count, p);
      HoleOther(data[..count], t, p, ch1);
      if ch1 + 1 < count { HoleOther(data[..count], t, p, ch1 + 1); }
      ChildChosen(t, p, n);
      if Before(data[n], item) {
        var next := DownMove(t, p, n, item);
        HoleMove(data[..count], t, next, p, n, item);
        label Round:
        data[p] := data[n];
        assert data[..count] == old@Round(data[..count])[p := t[n]];
        p := n;
        t := next;
      } else {
        ItemFits(t, p, n);
        break;
      }
    }
    DownEnd(t, p);
    HoleFill(data[..count], t, p);
    data[p] := item;
    assert data[..count] == t;
  }

  method LesserChild(data: array<Entry>, count: nat, p: nat) returns (n: nat)
    requires 2 * p + 1 < count <= data.Length
    ensures n == if 2 * p + 2 < count && !Before(data[2 * p + 1], data[2 * p + 2]) then 2 * p + 2 else 2 * p + 1
  {
    var ch1, ch2 := 2 * p + 1, 2 * p + 2;
    if ch2 >= count {
      n := ch1;
    } else {
      n := if Before(data[ch1], data[ch2]) then ch1 else ch2;
    }
  }

  /** The library's array sort, on the first n cells. */
  method SortArray(data: array<Entry>, n: nat)
    requires n <= data.Length
    modifies data
    ensures data[..n] == SortSeq(old(data[..n]))
    ensures forall k :: n <= k < data.Length ==> data[k] == old(data[k])
  {
    hide SortSeq;
    var s := SortSeq(data[..n]);
    for i := 0 to n
      invariant forall k :: 0 <= k < i ==> data[k] == s[k]
      invariant forall k :: n <= k < data.Length ==> data[k] == old(data[k])
    {
      data[i] := s[i];
    }
    assert data[..n] == s;
  }

  lemma LastToRoot(s: seq<Entry>, after: seq<Entry>)
    requires Heap(s) && |s| == |after| + 1 && (after != [] ==> after == s[..|after|][0 := s[|after|]])
    ensures after != [] ==> HeapDown(after, 0)
    ensures after == [] ==> Heap(after)
    ensures multiset(after) == multiset(s) - multiset{s[0]}
  {
    hide Heap, HeapDown, Before;
    if after == [] {
      assert s == [s[0]];
      EmptyIsHeap();
    } else {
      PrefixHeap(s, |after|);
      DownStart(s[..|after|], s[|after|]);
      LastToFront(s);
    }
  }

  lemma HoleStart(t: seq<Entry>, p: nat)
    ensures HoleAt(t, t, p)
  {
  }

  lemma HoleOther(cells: seq<Entry>, t: seq<Entry>, p: nat, k: nat)
    requires HoleAt(cells, t, p) && k < |t| && k != p
    ensures k < |cells| && cells[k] == t[k]
  {
  }

  lemma HoleMove(cells: seq<Entry>, t: seq<Entry>, next: seq<Entry>, p: nat, q: nat, item: Entry)
    requires HoleAt(cells, t, p) && p < |t| && q < |t| && p != q && |next| == |t|
    requires forall k :: 0 <= k < |t| ==> next[k] == if k == p then t[q] else if k == q then item else t[k]
    ensures |cells| == |t| && HoleAt(cells[p := t[q]], next, q) && next[q] == item
  {
  }

  lemma HoleFill(cells: seq<Entry>, t: seq<Entry>, p: nat)
    requires HoleAt(cells, t, p) && p < |t|
    ensures |cells| == |t| && cells[p := t[p]] == t
  {
  }

  lemma UpStartAt(t: seq<Entry>)
    requires |t| > 0 && Heap(t[..|t| - 1])
    ensures HeapUp(t, |t| - 1)
  {
    hide Heap, HeapUp;
    UpStart(t[..|t| - 1], t[|t| - 1]);
    assert t[..|t| - 1] + [t[|t| - 1]] == t;
  }

  lemma ParentBelow(p: nat)
    requires p > 0
    ensures Parent(p) < p
  {
  }

  lemma UpMove(t: seq<Entry>, p: nat, item: Entry) returns (next: seq<Entry>)
    requires HeapUp(t, p) && 0 < p < |t| && t[p] == item && Before(item, t[Parent(p)])
    ensures Parent(p) < p && |next| == |t|
    ensures forall k :: 0 <= k < |t| ==> next[k] == if k == p then t[Parent(p)] else if k == Parent(p) then item else t[k]
    ensures HeapUp(next, Parent(p)) && multiset(next) == multiset(t)
  {
    hide HeapUp, Before;
    next := Swap(t, p, Parent(p));
    UpStep(t, p);
    SwapKeeps(t, p, Parent(p));
  }

  lemma DownMove(t: seq<Entry>, p: nat, n: nat, item: Entry) returns (next: seq<Entry>)
    requires HeapDown(t, p) && p < n < |t| && t[p] == item && LeastChild(t, p, n) && Before(t[n], item)
    ensures |next| == |t|
    ensures forall k :: 0 <= k < |t| ==> next[k] == if k == p then t[n] else if k == n then item else t[k]
    ensures HeapDown(next, n) && multiset(next) == multiset(t)
  {
    hide HeapDown, Before, LeastChild;
    next := Swap(t, p, n);
    DownStep(t, p, n);
    SwapKeeps(t, p, n);
  }

  lemma RootOfAll(s: seq<Entry>)
    requires Heap(s) && s != []
    ensures LeastOf(s[0], s)
  {
    forall x | x in s ensures AtMost(s[0], x) {
      var k :| 0 <= k < |s| && s[k] == x;
      RootLeast(s, k);
    }
  }

  /** The cells are t but for the one at p, whose item is held aside. */
  ghost predicate HoleAt(cells: seq<Entry>, t: seq<Entry>, p: nat) {
    |cells| == |t| && forall k :: 0 <= k < |t| && k != p ==> cells[k] == t[k]
  }

  lemma PrefixHeap(s: seq<Entry>, n: nat)
    requires Heap(s) && n <= |s|
    ensures Heap(s[..n])
  {
  }

  lemma EmptyIsHeap()
    ensures Heap([]) && InOrder([])
  {
  }

  lemma LastToFront(s: seq<Entry>)
    requires |s| > 1
    ensures multiset(s[..|s| - 1][0 := s[|s| - 1]]) == multiset(s) - multiset{s[0]}
  {
    var n := |s| - 1;
    assert s == [s[0]] + s[1..n] + [s[n]];
    assert s[..n][0 := s[n]] == [s[n]] + s[1..n];
  }

  lemma NoChildren(t: seq<Entry>, p: nat)
    requires p < |t| <= 2 * p + 1
    ensures forall k :: 0 < k < |t| && Parent(k) == p ==> AtMost(t[p], t[k])
  {
    forall k | 0 < k < |t| ensures Parent(k) != p {
      ChildrenOf(p, k);
    }
  }

  lemma ChildChosen(t: seq<Entry>, p: nat, n: nat)
    requires 2 * p + 1 < |t|
    requires n == if 2 * p + 2 < |t| && !Before(t[2 * p + 1], t[2 * p + 2]) then 2 * p + 2 else 2 * p + 1
    ensures LeastChild(t, p, n) && n > p
  {
    ChildrenOf(p, n);
    forall k | 0 < k < |t| && Parent(k) == p ensures AtMost(t[n], t[k]) {
      ChildrenOf(p, k);
    }
  }

  lemma ItemFits(t: seq<Entry>, p: nat, n: nat)
    requires p < |t| && LeastChild(t, p, n) && AtMost(t[p], t[n])
    ensures forall k :: 0 < k < |t| && Parent(k) == p ==> AtMost(t[p], t[k])
  {
    forall k | 0 < k < |t| && Parent(k) == p ensures AtMost(t[p], t[k]) {
      assert AtMost(t[n], t[k]);
    }
  }
}
