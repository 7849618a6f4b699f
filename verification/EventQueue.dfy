/** The stable heap as a queue ordered by time and then by insertion, and the event queue on it. */
module EventQueues {
  import opened Options
  import opened HeapTheory
  import opened BinaryHeaps

  // ----- the reference: an ordered list -----

  ghost predicate TimeOrder(q: seq<BaseEvent>) {
    forall i, j :: 0 <= i < j < |q| ==> q[i].time <= q[j].time
  }

  /** Adding an event puts it after every event that is not later. */
  function Enqueued(q: seq<BaseEvent>, e: BaseEvent): (r: seq<BaseEvent>)
    ensures |r| == |q| + 1
  {
    if q == [] || q[0].time > e.time then [e] + q else [q[0]] + Enqueued(q[1..], e)
  }

  lemma TailOrder(q: seq<BaseEvent>)
    requires TimeOrder(q) && q != []
    ensures TimeOrder(q[1..]) && forall i :: 0 <= i < |q| ==> q[0].time <= q[i].time
  {
  }

  lemma SplitAfterHead(h: BaseEvent, rest: seq<BaseEvent>, n: nat, e: BaseEvent)
    requires n <= |rest|
    ensures ([h] + rest)[..n + 1] == [h] + rest[..n] && ([h] + rest)[n + 1..] == rest[n..]
    ensures [h] + (rest[..n] + [e] + rest[n..]) == ([h] + rest)[..n + 1] + [e] + ([h] + rest)[n + 1..]
  {
  }

  /** Where the new event is: behind all events up to its time, before all later ones, and the
      others keep their order. */
  lemma {:induction false} EnqueuedAt(q: seq<BaseEvent>, e: BaseEvent) returns (k: nat)
    requires TimeOrder(q)
    ensures k <= |q| && Enqueued(q, e) == q[..k] + [e] + q[k..]
    ensures forall i :: 0 <= i < k ==> q[i].time <= e.time
    ensures forall i :: k <= i < |q| ==> q[i].time > e.time
  {
    hide TimeOrder;
    if q == [] {
      k := 0;
      assert [e] + q == q[..0] + [e] + q[0..];
    } else if q[0].time > e.time {
      TailOrder(q);
      k := 0;
      assert [e] + q == q[..0] + [e] + q[0..];
    } else {
      TailOrder(q);
      var h, rest := q[0], q[1..];
      var n := EnqueuedAt(rest, e);
      assert q == [h] + rest;
      SplitAfterHead(h, rest, n, e);
      k := n + 1;
      forall i | 0 <= i < |q| ensures (i < k ==> q[i].time <= e.time) && (i >= k ==> q[i].time > e.time) {
        if i > 0 { assert q[i] == rest[i - 1]; }
      }
    }
  }

  /** The events up to time t. */
  function UpTo(q: seq<BaseEvent>, t: int): (r: seq<BaseEvent>)
    ensures r <= q
  {
    if q == [] || q[0].time > t then [] else [q[0]] + UpTo(q[1..], t)
  }

  lemma {:induction false} UpToExact(q: seq<BaseEvent>, t: int)
    requires TimeOrder(q)
    ensures forall i :: 0 <= i < |q| ==> (q[i].time <= t <==> i < |UpTo(q, t)|)
  {
    if q != [] && q[0].time <= t {
      UpToExact(q[1..], t);
      forall i | 0 <= i < |q| ensures q[i].time <= t <==> i < |UpTo(q, t)| {
        if i > 0 { assert q[i] == q[1..][i - 1]; }
      }
    }
  }

  // ----- entries in order -----

  ghost predicate Strict(q: seq<Entry>) {
    forall i, j :: 0 <= i < j < |q| ==> Before(q[i], q[j])
  }

  ghost function Events(q: seq<Entry>): (r: seq<BaseEvent>)
    ensures |r| == |q| && forall i :: 0 <= i < |r| ==> r[i] == q[i].value
  {
    seq(|q|, i requires 0 <= i < |q| => q[i].value)
  }

  ghost function Placed(q: seq<Entry>, x: Entry): (r: seq<Entry>) {
    if q == [] || q[0].value.time > x.value.time then [x] + q else [q[0]] + Placed(q[1..], x)
  }

  lemma PlacedOk(q: seq<Entry>, x: Entry)
    requires Strict(q) && forall y :: y in q ==> y.stamp < x.stamp
    ensures Strict(Placed(q, x)) && multiset(Placed(q, x)) == multiset(q) + multiset{x}
    ensures Events(Placed(q, x)) == Enqueued(Events(q), x.value)
  {
    hide *;
    PlacedElements(q, x);
    PlacedEvents(q, x);
    PlacedStrict(q, x);
  }

  lemma {:induction false} PlacedElements(q: seq<Entry>, x: Entry)
    ensures multiset(Placed(q, x)) == multiset(q) + multiset{x}
  {
    if q != [] && q[0].value.time <= x.value.time {
      PlacedElements(q[1..], x);
      assert q == [q[0]] + q[1..];
    }
  }

  lemma {:induction false} PlacedEvents(q: seq<Entry>, x: Entry)
    ensures Events(Placed(q, x)) == Enqueued(Events(q), x.value)
  {
    if q == [] || q[0].value.time > x.value.time {
      assert Events([x] + q) == [x.value] + Events(q);
    } else {
      PlacedEvents(q[1..], x);
      assert Events(q)[1..] == Events(q[1..]);
      assert Events([q[0]] + Placed(q[1..], x)) == [q[0].value] + Events(Placed(q[1..], x));
    }
  }

  lemma StrictCons(h: Entry, rest: seq<Entry>)
    requires Strict(rest) && forall y :: y in rest ==> Before(h, y)
    ensures Strict([h] + rest)
  {
    var r := [h] + rest;
    hide Before;
    forall i, j | 0 <= i < j < |r| ensures Before(r[i], r[j]) {
      if i == 0 { assert r[j] in rest; }
    }
  }

  lemma StrictTail(q: seq<Entry>)
    requires Strict(q) && q != []
    ensures Strict(q[1..]) && forall y :: y in q[1..] ==> Before(q[0], y)
  {
    hide Before;
    forall y | y in q[1..] ensures Before(q[0], y) {
      var i :| 0 <= i < |q[1..]| && q[1..][i] == y;
      assert q[i + 1] == y;
    }
  }

  lemma {:induction false} PlacedStrict(q: seq<Entry>, x: Entry)
    requires Strict(q) && forall y :: y in q ==> y.stamp < x.stamp
    ensures Strict(Placed(q, x))
  {
    hide Strict;
    if q == [] {
      OneStrict(x);
      assert [x] + q == [x];
    } else {
      StrictTail(q);
      assert q == [q[0]] + q[1..];
      if q[0].value.time > x.value.time {
        forall y | y in q ensures Before(x, y) { }
        StrictCons(x, q);
      } else {
        PlacedStrict(q[1..], x);
        PlacedElements(q[1..], x);
        SameWith(q[1..], Placed(q[1..], x), x);
        StrictCons(q[0], Placed(q[1..], x));
      }
    }
  }

  lemma OneStrict(x: Entry)
    ensures Strict([x])
  {
  }

  /** A least entry is the first one. */
  lemma FirstIsLeast(q: seq<Entry>, v: Entry)
    requires Strict(q) && LeastOf(v, q)
    ensures q != [] && v == q[0]
  {
    var k :| 0 <= k < |q| && q[k] == v;
    assert AtMost(v, q[0]);
    assert k == 0;
  }

  lemma LeastIsFirst(q: seq<Entry>, v: Entry)
    requires Strict(q) && LeastOf(v, q)
    ensures q != [] && v == q[0] && Strict(q[1..]) && multiset(q[1..]) == multiset(q) - multiset{v}
    ensures Events(q)[1..] == Events(q[1..])
  {
    FirstIsLeast(q, v);
    StrictTail(q);
    hide Strict, AtMost;
    assert q == [q[0]] + q[1..];
  }

  /** The queue lists the items of the heap, and next is a new timestamp. */
  ghost predicate Lists(q: seq<Entry>, items: seq<Entry>, next: nat) {
    && multiset(q) == multiset(items) && Strict(q)
    && forall x :: x in q ==> x.stamp < next
  }

  lemma ListsLeast(q: seq<Entry>, items: seq<Entry>, next: nat, v: Entry)
    requires Lists(q, items, next) && LeastOf(v, items)
    ensures q != [] && LeastOf(v, q) && Events(q)[0] == v.value
  {
    hide Strict, AtMost;
    SameElements(q, items);
    FirstIsLeast(q, v);
  }

  lemma ListsCount(q: seq<Entry>, items: seq<Entry>, next: nat)
    requires Lists(q, items, next)
    ensures |q| == |items| && |Events(q)| == |q|
  {
    hide Strict;
    SameElements(q, items);
  }

  /** A new entry is placed behind those that are not later. */
  lemma ListsMore(q: seq<Entry>, items: seq<Entry>, next: nat, item: BaseEvent, after: seq<Entry>)
    requires Lists(q, items, next) && multiset(after) == multiset(items) + multiset{Entry(item, next)}
    ensures Lists(Placed(q, Entry(item, next)), after, next + 1)
    ensures Events(Placed(q, Entry(item, next))) == Enqueued(Events(q), item)
  {
    hide Strict, Before, Events, Enqueued, Placed;
    var x := Entry(item, next);
    PlacedOk(q, x);
    SameWith(q, Placed(q, x), x);
  }

  /** The least item of the heap is the first of the queue, and the rest stays the rest. */
  lemma ListsRest(q: seq<Entry>, items: seq<Entry>, next: nat, v: Entry, after: seq<Entry>)
    requires Lists(q, items, next) && LeastOf(v, items) && multiset(after) == multiset(items) - multiset{v}
    ensures q != [] && Lists(q[1..], after, next)
    ensures v.value == Events(q)[0] && Events(q)[1..] == Events(q[1..])
  {
    hide Strict, AtMost;
    ListsLeast(q, items, next, v);
    LeastIsFirst(q, v);
    TailElements(q);
  }

  lemma StrictInTime(q: seq<Entry>)
    requires Strict(q)
    ensures TimeOrder(Events(q))
  {
  }

  lemma SameElements(a: seq<Entry>, b: seq<Entry>)
    requires multiset(a) == multiset(b)
    ensures |a| == |b| && forall x :: x in a <==> x in b
  {
    assert |multiset(a)| == |multiset(b)|;
    forall x ensures x in a <==> x in b {
      assert x in a <==> x in multiset(a);
      assert x in b <==> x in multiset(b);
    }
  }

  lemma TailElements(q: seq<Entry>)
    requires q != []
    ensures forall x :: x in q[1..] ==> x in q
  {
  }

  class StableBinaryHeap {
    const Impl: BinaryHeap
    var NextTimestamp: nat
    /** The entries in the order in which they will leave. */
    ghost var Queue: seq<Entry>

    ghost function Repr(): set<object>
      reads this, Impl
    {
      {this, Impl, Impl.data}
    }

    ghost predicate Valid()
      reads this, Impl, Impl.data
    {
      Impl.Valid() && Lists(Queue, Impl.Items(), NextTimestamp)
    }

    constructor ()
      ensures Valid() && fresh(Repr()) && Queue == []
    {
      Impl := new BinaryHeap();
      NextTimestamp, Queue := 0, [];
    }

    method Count() returns (n: nat)
      requires Valid()
      ensures n == |Queue|
    {
      ListsCount(Queue, Impl.Items(), NextTimestamp);
      n := Impl.count;
    }

    method Add(item: BaseEvent)
      requires Valid()
      modifies Repr()
      ensures Valid() && fresh(Repr() - old(Repr()))
      ensures Events(Queue) == Enqueued(Events(old(Queue)), item)
    {
      hide Lists, Events, Enqueued, Placed, BinaryHeap.Valid, BinaryHeap.Items;
      ghost var items := Impl.Items();
      Impl.Add(Entry(item, NextTimestamp));
      ListsMore(Queue, items, NextTimestamp, item, Impl.Items());
      Queue := Placed(Queue, Entry(item, NextTimestamp));
      NextTimestamp := NextTimestamp + 1;
    }

    method Peek() returns (r: Option<BaseEvent>)
      requires Valid()
      ensures r == if Queue == [] then None else Some(Events(Queue)[0])
    {
      hide Lists, LeastOf, BinaryHeap.Valid, BinaryHeap.Items;
      ListsCount(Queue, Impl.Items(), NextTimestamp);
      Impl.CountOfItems();
      var v := Impl.Peek();
      if v == None {
        return None;
      }
      ListsLeast(Queue, Impl.Items(), NextTimestamp, v.value);
      r := Some(v.value.value);
    }

    method Remove() returns (r: Option<BaseEvent>)
      requires Valid()
      modifies Repr()
      ensures Valid() && Repr() == old(Repr())
      ensures old(Queue) == [] ==> r == None && Queue == []
      ensures old(Queue) != [] ==> r == Some(Events(old(Queue))[0]) && Events(Queue) == Events(old(Queue))[1..]
    {
      hide Lists, LeastOf, Events, BinaryHeap.Valid, BinaryHeap.Items;
      ghost var items := Impl.Items();
      ListsCount(Queue, items, NextTimestamp);
      Impl.CountOfItems();
      var v := Impl.Remove();
      if v == None {
        return None;
      }
      ListsRest(Queue, items, NextTimestamp, v.value, Impl.Items());
      Queue := Queue[1..];
      r := Some(v.value.value);
    }

    /** The queue is the same afterwards, though the heap may have been sorted. */
    method Contains(time: int) returns (r: bool)
      requires Valid()
      modifies Repr()
      ensures Valid() && Queue == old(Queue) && Repr() == old(Repr())
      ensures r <==> exists i :: 0 <= i < |Queue| && Events(Queue)[i].time == time
    {
      hide Strict, Before;
      r := Impl.Contains(time);
      SameElements(Queue, Impl.Items());
      if r {
        ghost var x :| x in Impl.Items() && x.value.time == time;
        assert x in Queue;
        ghost var k :| 0 <= k < |Queue| && Queue[k] == x;
        assert Events(Queue)[k].time == time;
      }
      if exists i :: 0 <= i < |Queue| && Events(Queue)[i].time == time {
        ghost var i :| 0 <= i < |Queue| && Events(Queue)[i].time == time;
        assert Queue[i] in Queue && Queue[i].value == Events(Queue)[i];
        assert Queue[i] in Impl.Items();
      }
    }

    method Clear()
      requires Valid()
      modifies Repr()
      ensures Valid() && fresh(Repr() - old(Repr())) && Queue == []
    {
      Impl.Clear();
      Queue := [];
    }
  }

  lemma SameWith(q: seq<Entry>, next: seq<Entry>, x: Entry)
    requires multiset(next) == multiset(q) + multiset{x}
    ensures forall y :: y in next <==> y in q || y == x
  {
    forall y ensures y in next <==> y in q || y == x {
      assert y in next <==> y in multiset(next);
    }
  }

  class EventQueue {
    const pQueue: StableBinaryHeap

    ghost function Repr(): set<object>
      reads this, pQueue, pQueue.Impl
    {
      {this} + pQueue.Repr()
    }

    ghost predicate Valid()
      reads this, pQueue, pQueue.Impl, pQueue.Impl.data
    {
      pQueue.Valid()
    }

    /** The events in the order in which they will be dequeued. */
    ghost function Pending(): seq<BaseEvent>
      reads pQueue
    {
      Events(pQueue.Queue)
    }

    constructor ()
      ensures Valid() && fresh(Repr()) && Pending() == []
    {
      pQueue := new StableBinaryHeap();
    }

    method Count() returns (n: nat)
      requires Valid()
      ensures n == |Pending()|
    {
      n := pQueue.Count();
    }

    method Enqueue(e: BaseEvent)
      requires Valid()
      modifies pQueue.Repr()
      ensures Valid() && fresh(Repr() - old(Repr()))
      ensures Pending() == Enqueued(old(Pending()), e)
    {
      pQueue.Add(e);
    }

    method Dequeue() returns (e: Option<BaseEvent>)
      requires Valid()
      modifies pQueue.Repr()
      ensures Valid() && Repr() == old(Repr()) && pQueue.Repr() == old(pQueue.Repr())
      ensures old(Pending()) == [] ==> e == None && Pending() == []
      ensures old(Pending()) != [] ==> e == Some(old(Pending())[0]) && Pending() == old(Pending())[1..]
    {
      e := pQueue.Remove();
    }

    /** Takes out exactly the events up to time t, in order. */
    method DequeueUpTo(t: int) returns (eList: seq<BaseEvent>)
      requires Valid()
      modifies pQueue.Repr()
      ensures Valid() && Repr() == old(Repr()) && TimeOrder(old(Pending()))
      ensures eList == UpTo(old(Pending()), t) && old(Pending()) == eList + Pending()
      ensures forall e :: e in eList ==> e.time <= t
      ensures forall e :: e in Pending() ==> e.time > t
    {
      hide *;
      ghost var q := Pending();
      PendingInOrder();
      eList := [];
      TakenNone(q, t);
      var more, first := NextUpTo(t);
      while more
        invariant Valid() && Repr() == old(Repr()) && pQueue.Repr() == old(pQueue.Repr())
        invariant Taken(q, eList, Pending(), t)
        invariant first == (if Pending() == [] then None else Some(Pending()[0]))
        invariant more <==> first.Some? && first.value.time <= t
        decreases Pending()
      {
        TakenNext(q, eList, Pending(), t);
        var e := Dequeue();
        eList := eList + [e.value];
        more, first := NextUpTo(t);
      }
      TakenAll(q, eList, Pending(), t);
    }

    lemma PendingInOrder()
      requires Valid()
      ensures TimeOrder(Pending())
    {
      StrictInTime(pQueue.Queue);
    }

    /** The loop condition: there is an event, and the first one is not after t. */
    method NextUpTo(t: int) returns (more: bool, first: Option<BaseEvent>)
      requires Valid()
      ensures first == if Pending() == [] then None else Some(Pending()[0])
      ensures more <==> first.Some? && first.value.time <= t
    {
      var n := pQueue.Count();
      first := pQueue.Peek();
      more := n > 0 && first.value.time <= t;
    }
  }

  /** The loop of DequeueUpTo has moved the front of q to taken. */
  ghost predicate Taken(q: seq<BaseEvent>, taken: seq<BaseEvent>, rest: seq<BaseEvent>, t: int) {
    q == taken + rest && forall e :: e in taken ==> e.time <= t
  }

  lemma TakenNone(q: seq<BaseEvent>, t: int)
    ensures Taken(q, [], q, t)
  {
  }

  lemma TakenNext(q: seq<BaseEvent>, taken: seq<BaseEvent>, rest: seq<BaseEvent>, t: int)
    requires Taken(q, taken, rest, t) && rest != [] && rest[0].time <= t
    ensures Taken(q, taken + [rest[0]], rest[1..], t)
  {
  }

  lemma TakenAll(q: seq<BaseEvent>, taken: seq<BaseEvent>, rest: seq<BaseEvent>, t: int)
    requires TimeOrder(q) && Taken(q, taken, rest, t) && (rest == [] || rest[0].time > t)
    ensures taken == UpTo(q, t) && q == taken + rest
    ensures (forall e :: e in taken ==> e.time <= t) && forall e :: e in rest ==> e.time > t
  {
    hide TimeOrder, UpTo;
    UpToSplit(q, taken, rest, t);
  }

  lemma {:induction false} UpToSplit(q: seq<BaseEvent>, a: seq<BaseEvent>, b: seq<BaseEvent>, t: int)
    requires TimeOrder(q) && q == a + b
    requires (forall e :: e in a ==> e.time <= t) && (b == [] || b[0].time > t)
    ensures a == UpTo(q, t) && forall e :: e in b ==> e.time > t
  {
    hide TimeOrder;
    if a == [] {
      assert q == b;
      if b != [] {
        TailOrder(q);
      }
    } else {
      TailOrder(q);
      assert q[1..] == a[1..] + b && q[0] == a[0] && a[0] in a;
      forall e | e in a[1..] ensures e.time <= t { assert e in a; }
      UpToSplit(q[1..], a[1..], b, t);
      assert a == [a[0]] + a[1..];
    }
  }
}
