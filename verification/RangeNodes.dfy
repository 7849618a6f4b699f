/** The search tree as linked nodes. */
module RangeNodes {
  // rangebst.py updates the links in place.

  import opened Options
  import opened RangeTrees

  class TNode<T> {
    var pos: real
    var data: T
    var left: TNode?<T>
    var right: TNode?<T>

    constructor (pos: real, data: T)
      ensures this.pos == pos && this.data == data && left == null && right == null
    {
      this.pos, this.data, left, right := pos, data, null, null;
    }
  }

  /** How nodes hang together. */
  datatype Shape<T> = Nil | Fork(node: TNode<T>, left: Shape<T>, right: Shape<T>)

  ghost function Nodes<T>(s: Shape<T>): set<TNode<T>> {
    if s.Nil? then {} else {s.node} + Nodes(s.left) + Nodes(s.right)
  }

  /** No node hangs in two places. */
  ghost predicate Apart<T>(s: Shape<T>) {
    s.Fork? ==>
      s.node !in Nodes(s.left) && s.node !in Nodes(s.right) && Nodes(s.left) !! Nodes(s.right) &&
      Apart(s.left) && Apart(s.right)
  }

  ghost function Root<T>(s: Shape<T>): TNode?<T> {
    if s.Nil? then null else s.node
  }

  /** The links are those of the shape. */
  ghost predicate Linked<T>(s: Shape<T>)
    reads Nodes(s)
  {
    s.Fork? ==>
      s.node.left == Root(s.left) && s.node.right == Root(s.right) && Linked(s.left) && Linked(s.right)
  }

  ghost function ValueOf<T>(s: Shape<T>): Tree<T>
    reads Nodes(s)
  {
    if s.Nil? then Leaf else Node(s.node.pos, s.node.data, ValueOf(s.left), ValueOf(s.right))
  }

  /** The nodes from cur on form the shape. */
  ghost predicate Hangs<T>(cur: TNode?<T>, s: Shape<T>)
    reads Nodes(s)
  {
    cur == Root(s) && Apart(s) && Linked(s)
  }

  lemma Parts<T>(s: Shape<T>)
    requires s.Fork?
    ensures s.node in Nodes(s) && Nodes(s.left) <= Nodes(s) && Nodes(s.right) <= Nodes(s)
  {
  }

  twostate lemma {:induction false} WereThere<T>(s: Shape<T>)
    ensures forall n :: n in Nodes(s) ==> old(allocated(n))
  {
    if s.Fork? {
      WereThere(s.left);
      WereThere(s.right);
    }
  }

  /** No node of the shape has changed. */
  twostate predicate Still<T>(s: Shape<T>)
    reads Nodes(s)
  {
    forall n :: n in Nodes(s) ==> old(allocated(n)) && unchanged(n)
  }

  twostate lemma {:induction false} StillSame<T>(s: Shape<T>)
    requires Still(s)
    ensures Linked(s) == old(Linked(s)) && ValueOf(s) == old(ValueOf(s))
  {
    if s.Fork? {
      Parts(s);
      assert Still(s.left) && Still(s.right);
      assert unchanged(s.node);
      StillSame(s.left);
      StillSame(s.right);
    }
  }

  // ----- insertion -----

  method InsertAt<T>(cur: TNode<T>, pos: real, data: T, ghost s: Shape<T>) returns (ghost t: Shape<T>)
    requires Hangs(cur, s)
    modifies Nodes(s)
    ensures Hangs(cur, t) && Nodes(s) <= Nodes(t) && fresh(Nodes(t) - Nodes(s))
    ensures ValueOf(t) == Insert(old(ValueOf(s)), pos, data)
    decreases s
  {
    Parts(s);
    if pos < cur.pos {
      if cur.left == null {
        cur.left := new TNode(pos, data);
        t := Fork(cur, Fork(cur.left, Nil, Nil), s.right);
      } else {
        ghost var l := InsertAt(cur.left, pos, data, s.left);
        t := Fork(cur, l, s.right);
      }
      WereThere(s.right);
      assert Still(s.right);
      StillSame(s.right);
    } else {
      if cur.right == null {
        cur.right := new TNode(pos, data);
        t := Fork(cur, s.left, Fork(cur.right, Nil, Nil));
      } else {
        ghost var r := InsertAt(cur.right, pos, data, s.right);
        t := Fork(cur, s.left, r);
      }
      WereThere(s.left);
      assert Still(s.left);
      StillSame(s.left);
    }
  }

  // ----- deletion -----

  ghost function First<T>(s: Shape<T>): TNode<T>
    requires s.Fork?
  {
    if s.left.Nil? then s.node else First(s.left)
  }

  ghost function WithoutFirst<T>(s: Shape<T>): Shape<T>
    requires s.Fork?
  {
    if s.left.Nil? then s.right else s.(left := WithoutFirst(s.left))
  }

  /** The node that the first node hangs from. */
  ghost function FirstParent<T>(s: Shape<T>): TNode<T>
    requires s.Fork? && s.left.Fork?
  {
    if s.left.left.Nil? then s.node else FirstParent(s.left)
  }

  lemma {:induction false} FirstFacts<T>(s: Shape<T>)
    requires s.Fork? && Apart(s)
    ensures First(s) in Nodes(s) && Nodes(WithoutFirst(s)) == Nodes(s) - {First(s)} && Apart(WithoutFirst(s))
    ensures s.left.Fork? ==> FirstParent(s) in Nodes(s) && FirstParent(s) != First(s)
  {
    Parts(s);
    if s.left.Fork? {
      FirstFacts(s.left);
    }
  }

  /** Only one link has changed: the first node's parent now has what was right of the first node. */
  twostate predicate OneLink<T>(s: Shape<T>)
    requires s.Fork? && s.left.Fork?
    reads Nodes(s), FirstParent(s)
  {
    var p := FirstParent(s);
    && (forall n :: n in Nodes(s) ==> old(allocated(n)) && (n != p ==> unchanged(n)))
    && old(allocated(p)) && old(allocated(First(s)))
    && unchanged(p`pos, p`data, p`right) && p.left == old(First(s).right)
  }

  /** After that, the first node is out. */
  twostate lemma {:induction false} Spliced<T>(s: Shape<T>)
    requires s.Fork? && s.left.Fork? && Apart(s) && old(Linked(s)) && OneLink(s)
    ensures Linked(WithoutFirst(s)) && ValueOf(WithoutFirst(s)) == WithoutLeftmost(old(ValueOf(s)))
  {
    Parts(s);
    FirstFacts(s.left);
    assert s.node in Nodes(s);
    ghost var v := old(ValueOf(s));
    assert v.left == old(ValueOf(s.left)) && v.left.left == old(ValueOf(s.left.left));
    if s.left.left.Nil? {
      Parts(s.left);
      WereThere(s.left.right);
      assert Still(s.left.right);
      StillSame(s.left.right);
      assert WithoutLeftmost(v) == v.(left := v.left.right);
    } else {
      assert OneLink(s.left);
      Spliced(s.left);
      assert unchanged(s.node);
      assert WithoutLeftmost(v) == v.(left := WithoutLeftmost(v.left));
    }
    WereThere(s.right);
    assert Still(s.right);
    StillSame(s.right);
  }

  /** The loop down to the successor of a node with two children. */
  method FindFirst<T>(cur: TNode<T>, ghost s: Shape<T>) returns (R: TNode<T>, parent: TNode<T>)
    requires Hangs(cur, s) && s.right.Fork?
    ensures R == First(s.right)
    ensures if s.right.left.Nil? then parent == cur else parent == FirstParent(s.right) && parent.left == R && parent.right != R
  {
    R := cur.right;
    parent := cur;
    ghost var c, above := s.right, s;
    while R.left != null
      invariant c.Fork? && Hangs(R, c) && First(c) == First(s.right)
      invariant c == s.right || (above.Fork? && above.left == c && Hangs(parent, above) &&
        s.right.left.Fork? && FirstParent(above) == FirstParent(s.right))
      invariant c == s.right ==> parent == cur
      decreases c
    {
      parent := R;
      R := R.left;
      above := c;
      c := c.left;
    }
  }

  method DeleteAt<T>(cur: TNode?<T>, pos: real, ghost s: Shape<T>) returns (ok: bool, r: TNode?<T>, ghost t: Shape<T>)
    requires Hangs(cur, s)
    modifies Nodes(s)
    ensures ok <==> Delete(old(ValueOf(s)), pos).Some?
    ensures Hangs(r, t) && Nodes(t) <= Nodes(s) && (!ok ==> r == cur)
    ensures ValueOf(t) == if ok then Delete(old(ValueOf(s)), pos).value else old(ValueOf(s))
    decreases s
  {
    ok, r, t := true, cur, s;
    if cur == null {
      ok := false;
    } else {
      Parts(s);
      if cur.pos > pos {
        var done, l, u := DeleteAt(cur.left, pos, s.left);
        ok := done;
        if done {
          cur.left := l;
        }
        t := Fork(cur, u, s.right);
        WereThere(s.right);
        assert Still(s.right);
        StillSame(s.right);
      } else if cur.pos < pos {
        var done, l, u := DeleteAt(cur.right, pos, s.right);
        ok := done;
        if done {
          cur.right := l;
        }
        t := Fork(cur, s.left, u);
        WereThere(s.left);
        assert Still(s.left);
        StillSame(s.left);
      } else if cur.left == null {
        r, t := cur.right, s.right;
      } else if cur.right == null {
        r, t := cur.left, s.left;
      } else {
        FirstIsLeftmost(s.right);
        r, t := ReplaceByFirst(cur, s);
      }
    }
  }

  lemma {:induction false} FirstIsLeftmost<T>(s: Shape<T>)
    requires s.Fork?
    ensures Leftmost(ValueOf(s)) == Entry(First(s).pos, First(s).data)
  {
    if s.left.Fork? {
      FirstIsLeftmost(s.left);
    }
  }

  method ReplaceByFirst<T>(cur: TNode<T>, ghost s: Shape<T>) returns (R: TNode<T>, ghost t: Shape<T>)
    requires Hangs(cur, s) && s.left.Fork? && s.right.Fork?
    modifies Nodes(s)
    ensures Hangs(R, t) && Nodes(t) <= Nodes(s)
    ensures ValueOf(t) == Node(old(First(s.right).pos), old(First(s.right).data), old(ValueOf(s.left)),
      WithoutLeftmost(old(ValueOf(s.right))))
  {
    Parts(s);
    FirstFacts(s.right);
    var parent;
    R, parent := FindFirst(cur, s);
    WereThere(s);
    assert Still(s);
    StillSame(s);
    StillSame(s.right);
    Splice(cur, parent, R, s);
    WereThere(s.left);
    assert Still(s.left);
    StillSame(s.left);
    t := MoveUp(cur, R, s.left, WithoutFirst(s.right));
  }

  /** The successor takes the place of the node, above both subtrees. */
  method MoveUp<T>(cur: TNode<T>, R: TNode<T>, ghost l: Shape<T>, ghost r: Shape<T>) returns (ghost t: Shape<T>)
    requires Hangs(cur.left, l) && Hangs(cur.right, r) && Nodes(l) !! Nodes(r) && R !in Nodes(l) && R !in Nodes(r) && R != cur
    modifies R
    ensures t == Fork(R, l, r) && Hangs(R, t)
    ensures ValueOf(t) == Node(old(R.pos), old(R.data), old(ValueOf(l)), old(ValueOf(r)))
  {
    R.right := cur.right;
    R.left := cur.left;
    t := Fork(R, l, r);
    WereThere(l);
    assert Still(l);
    StillSame(l);
    WereThere(r);
    assert Still(r);
    StillSame(r);
  }

  method Splice<T>(cur: TNode<T>, parent: TNode<T>, R: TNode<T>, ghost s: Shape<T>)
    requires Hangs(cur, s) && s.left.Fork? && s.right.Fork? && R == First(s.right)
    requires if s.right.left.Nil? then parent == cur else parent == FirstParent(s.right) && parent.left == R && parent.right != R
    requires cur in Nodes(s) && Nodes(s.right) <= Nodes(s) && First(s.right) in Nodes(s.right)
    modifies parent
    ensures Linked(WithoutFirst(s.right)) && ValueOf(WithoutFirst(s.right)) == WithoutLeftmost(old(ValueOf(s.right)))
    ensures cur.right == Root(WithoutFirst(s.right)) && cur.left == old(cur.left)
    ensures parent == cur || parent in Nodes(s.right)
    ensures R.pos == old(R.pos) && R.data == old(R.data) && R.right == old(R.right)
  {
    FirstFacts(s.right);
    Parts(s.right);
    assert Linked(s.right) && cur.right == s.right.node;
    if parent.right == R {
      parent.right := R.right;
    } else if parent.left == R {
      parent.left := R.right;
    }
    if s.right.left.Fork? {
      WereThere(s.right);
      assert OneLink(s.right);
      Spliced(s.right);
    } else {
      WereThere(s.right.right);
      assert Still(s.right.right);
      StillSame(s.right.right);
    }
  }

  // ----- lookup and ranges -----

  function FindAt<T>(cur: TNode?<T>, pos: real, ghost s: Shape<T>): (r: Option<T>)
    requires Hangs(cur, s)
    reads Nodes(s)
    ensures r == Find(ValueOf(s), pos)
    decreases s
  {
    if cur == null then None
    else if cur.pos == pos then Some(cur.data)
    else if pos < cur.pos then FindAt(cur.left, pos, s.left)
    else FindAt(cur.right, pos, s.right)
  }

  function AddAllAt<T>(cur: TNode?<T>, ghost s: Shape<T>): (r: seq<T>)
    requires Hangs(cur, s)
    reads Nodes(s)
    ensures r == AddAll(ValueOf(s))
    decreases s
  {
    if cur == null then [] else AddAllAt(cur.left, s.left) + [cur.data] + AddAllAt(cur.right, s.right)
  }

  function RangeRightAt<T>(cur: TNode?<T>, low: real, high: real, ghost s: Shape<T>): (r: seq<T>)
    requires Hangs(cur, s)
    reads Nodes(s)
    ensures r == RangeRight(ValueOf(s), low, high)
    decreases s
  {
    if cur == null then []
    else if cur.left == null && cur.right == null then (if cur.pos >= low && cur.pos < high then [cur.data] else [])
    else if cur.pos < high then AddAllAt(cur.left, s.left) + [cur.data] + RangeRightAt(cur.right, low, high, s.right)
    else []
  }

  function RangeLeftAt<T>(cur: TNode?<T>, low: real, high: real, ghost s: Shape<T>): (r: seq<T>)
    requires Hangs(cur, s)
    reads Nodes(s)
    ensures r == RangeLeft(ValueOf(s), low, high)
    decreases s
  {
    if cur == null then []
    else if cur.left == null && cur.right == null then (if cur.pos >= low && cur.pos < high then [cur.data] else [])
    else if cur.pos >= low then RangeLeftAt(cur.left, low, high, s.left) + [cur.data] + AddAllAt(cur.right, s.right)
    else []
  }

  function RangeAt<T>(cur: TNode?<T>, low: real, high: real, ghost s: Shape<T>): (r: seq<T>)
    requires Hangs(cur, s)
    reads Nodes(s)
    ensures r == Range(ValueOf(s), low, high)
    decreases s
  {
    if cur == null then []
    else if low < cur.pos && high <= cur.pos then RangeAt(cur.left, low, high, s.left)
    else if low > cur.pos && high >= cur.pos then RangeAt(cur.right, low, high, s.right)
    else RangeLeftAt(cur.left, low, high, s.left) + [cur.data] + RangeRightAt(cur.right, low, high, s.right)
  }

  // ----- the tree as it is used -----

  class RangeBST<T(==)> {
    var root: TNode?<T>
    var count: nat
    ghost var shape: Shape<T>
    ghost var Repr: set<object>

    /** The tree and its nodes. */
    ghost predicate Covered()
      reads this
    {
      Repr == {this} + Nodes(shape)
    }

    ghost predicate Valid()
      reads this, Repr
      ensures Valid() ==> Covered()
    {
      Covered() && Hangs(root, shape) && Search(Tree()) && count == |Entries()|
    }

    ghost function Tree(): Tree<T>
      requires Covered()
      reads this, Repr
    {
      ValueOf(shape)
    }

    ghost function Entries(): seq<Entry<T>>
      requires Covered()
      reads this, Repr
    {
      InOrder(Tree())
    }

    constructor ()
      ensures Valid() && Entries() == [] && fresh(Repr)
    {
      root, count, shape := null, 0, Nil;
      Repr := {this};
    }

    method Add(pos: real, data: T)
      requires Valid()
      modifies Repr
      ensures Valid() && fresh(Repr - old(Repr))
      ensures count == old(count) + 1 && Tree() == Insert(old(Tree()), pos, data)
      ensures exists a, b :: Between(old(Entries()), a, b, pos) && Entries() == a + [Entry(pos, data)] + b
    {
      hide Search, Between, Insert, InOrder, Hangs;
      InsertKeeps(Tree(), pos, data);
      Attach(pos, data);
      count := count + 1;
    }

    method Attach(pos: real, data: T)
      requires Covered() && Hangs(root, shape)
      modifies Repr
      ensures Covered() && Hangs(root, shape) && fresh(Repr - old(Repr)) && count == old(count)
      ensures Tree() == Insert(old(Tree()), pos, data)
    {
      if root == null {
        root := new TNode(pos, data);
        shape := Fork(root, Nil, Nil);
      } else {
        shape := InsertAt(root, pos, data, shape);
      }
      Repr := {this} + Nodes(shape);
    }

    /** Fails when the position is not there. */
    method Remove(pos: real) returns (ok: bool)
      requires Valid()
      modifies Repr
      ensures Valid() && Repr <= old(Repr) && (ok <==> Has(old(Entries()), pos))
      ensures !ok ==> Tree() == old(Tree()) && count == old(count)
      ensures ok ==> Delete(old(Tree()), pos) == Some(Tree()) && count == old(count) - 1
    {
      hide Search, Has, Delete, InOrder, Hangs;
      DeleteKeeps(Tree(), pos);
      var node;
      ghost var t;
      ok, node, t := DeleteAt(root, pos, shape);
      root, shape := node, t;
      Repr := {this} + Nodes(shape);
      if ok {
        count := count - 1;
      }
    }

    method Lookup(pos: real) returns (r: Option<T>)
      requires Valid()
      ensures r == Find(Tree(), pos)
    {
      r := FindAt(root, pos, shape);
    }

    method RangeOf(low: real, high: real) returns (r: seq<T>)
      requires Valid()
      ensures r == Range(Tree(), low, high)
    {
      r := RangeAt(root, low, high, shape);
    }

    /** The stack iterator: data in the order of positions. */
    method Iterate() returns (yielded: seq<Entry<T>>)
      requires Valid()
      ensures yielded == Entries()
    {
      hide InOrder, Rest, Size, StackSize;
      var stack: seq<TNode<T>> := [];
      var node := root;
      yielded := [];
      ghost var below, pending: seq<Shape<T>>, values: seq<Tree<T>> := shape, [], [];
      NothingLeft<T>(Leaf);
      assert [] + InOrder(Tree()) + [] == InOrder(Tree());
      while stack != [] || node != null
        invariant Hangs(node, below) && |stack| == |pending| == |values|
        invariant forall i :: 0 <= i < |stack| ==> OnStack(stack[i], pending[i], values[i])
        invariant yielded + InOrder(ValueOf(below)) + Rest(values) == Entries()
        decreases Size(ValueOf(below)) + StackSize(values), Size(ValueOf(below))
      {
        if node != null {
          ghost var v := ValueOf(below);
          RestPush(values, v);
          Three(yielded, InOrder(v), Rest(values));
          Three(yielded, InOrder(v.left), Rest(values + [v]));
          LeftSmaller(v);
          stack, pending, values := stack + [node], pending + [below], values + [v];
          node := node.left;
          below := below.left;
        } else {
          var last := |stack| - 1;
          RestPop(values);
          NothingLeft(ValueOf(below));
          ghost var top := values[last];
          YieldNext(yielded, [Entry(top.pos, top.data)], InOrder(top.right), Rest(values[..last]));
          node := stack[last];
          below := pending[last].right;
          stack, pending, values := stack[..last], pending[..last], values[..last];
          yielded := yielded + [Entry(node.pos, node.data)];
          node := node.right;
        }
      }
      NothingLeft(ValueOf(below));
      assert yielded + [] + [] == yielded;
    }
  }

  /** A node on the iterator's stack, what hangs from it, and its value. */
  ghost predicate OnStack<T>(node: TNode<T>, s: Shape<T>, v: Tree<T>)
    reads Nodes(s)
  {
    s.Fork? && Hangs(node, s) && v == ValueOf(s)
  }
}
