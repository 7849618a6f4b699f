/** The search tree as a value. */
module RangeTrees {
  import opened Options

  /** A stored position with its data. */
  datatype Entry<T> = Entry(pos: real, data: T)

  datatype Tree<T> = Leaf | Node(pos: real, data: T, left: Tree<T>, right: Tree<T>)

  function InOrder<T>(t: Tree<T>): seq<Entry<T>> {
    if t.Leaf? then [] else InOrder(t.left) + [Entry(t.pos, t.data)] + InOrder(t.right)
  }

  /** Positions do not decrease from left to right. */
  ghost predicate Ordered<T>(s: seq<Entry<T>>) {
    forall i, j :: 0 <= i < j < |s| ==> s[i].pos <= s[j].pos
  }

  ghost predicate Below<T>(s: seq<Entry<T>>, p: real) {
    forall i :: 0 <= i < |s| ==> s[i].pos < p
  }

  ghost predicate Above<T>(s: seq<Entry<T>>, p: real) {
    forall i :: 0 <= i < |s| ==> p < s[i].pos
  }

  ghost predicate AtMost<T>(s: seq<Entry<T>>, p: real) {
    forall i :: 0 <= i < |s| ==> s[i].pos <= p
  }

  ghost predicate AtLeast<T>(s: seq<Entry<T>>, p: real) {
    forall i :: 0 <= i < |s| ==> p <= s[i].pos
  }

  ghost predicate Has<T>(s: seq<Entry<T>>, p: real) {
    exists i :: 0 <= i < |s| && s[i].pos == p
  }

  /** Search order: smaller positions are to the left of a node, equal and larger ones to the right. */
  ghost predicate Search<T>(t: Tree<T>) {
    t.Node? ==>
      Below(InOrder(t.left), t.pos) && AtLeast(InOrder(t.right), t.pos) && Search(t.left) && Search(t.right)
  }

  lemma SearchParts<T>(t: Tree<T>)
    requires t.Node? && Search(t)
    ensures Search(t.left) && Search(t.right) && Below(InOrder(t.left), t.pos) && AtLeast(InOrder(t.right), t.pos)
  {
  }

  lemma SearchNode<T>(pos: real, data: T, l: Tree<T>, r: Tree<T>)
    requires Search(l) && Search(r) && Below(InOrder(l), pos) && AtLeast(InOrder(r), pos)
    ensures Search(Node(pos, data, l, r))
  {
  }

  lemma {:induction false} SearchOrdered<T>(t: Tree<T>)
    requires Search(t)
    ensures Ordered(InOrder(t))
  {
    if t.Node? {
      SearchOrdered(t.left);
      SearchOrdered(t.right);
    }
  }

  lemma BelowConcat<T>(a: seq<Entry<T>>, b: seq<Entry<T>>, p: real)
    ensures Below(a + b, p) <==> Below(a, p) && Below(b, p)
  {
    assert forall i :: 0 <= i < |a| ==> (a + b)[i] == a[i];
    assert forall i :: 0 <= i < |b| ==> (a + b)[|a| + i] == b[i];
  }

  lemma AboveConcat<T>(a: seq<Entry<T>>, b: seq<Entry<T>>, p: real)
    ensures Above(a + b, p) <==> Above(a, p) && Above(b, p)
  {
    assert forall i :: 0 <= i < |a| ==> (a + b)[i] == a[i];
    assert forall i :: 0 <= i < |b| ==> (a + b)[|a| + i] == b[i];
  }

  lemma AtMostConcat<T>(a: seq<Entry<T>>, b: seq<Entry<T>>, p: real)
    ensures AtMost(a + b, p) <==> AtMost(a, p) && AtMost(b, p)
  {
    assert forall i :: 0 <= i < |a| ==> (a + b)[i] == a[i];
    assert forall i :: 0 <= i < |b| ==> (a + b)[|a| + i] == b[i];
  }

  lemma AtLeastConcat<T>(a: seq<Entry<T>>, b: seq<Entry<T>>, p: real)
    ensures AtLeast(a + b, p) <==> AtLeast(a, p) && AtLeast(b, p)
  {
    assert forall i :: 0 <= i < |a| ==> (a + b)[i] == a[i];
    assert forall i :: 0 <= i < |b| ==> (a + b)[|a| + i] == b[i];
  }

  lemma AboveLess<T>(s: seq<Entry<T>>, root: real, p: real)
    requires AtLeast(s, root) && p < root
    ensures Above(s, p) && AtLeast(s, p)
  {
  }

  lemma BelowMore<T>(s: seq<Entry<T>>, root: real, p: real)
    requires Below(s, root) && root <= p
    ensures Below(s, p) && AtMost(s, p)
  {
  }

  lemma NothingBeyond<T>(p: real)
    ensures AtMost<T>([], p) && Above<T>([], p) && Below<T>([], p) && AtLeast<T>([], p)
  {
  }

  lemma OneBeyond<T>(e: Entry<T>, p: real)
    ensures (Below([e], p) <==> e.pos < p) && (Above([e], p) <==> p < e.pos)
    ensures (AtMost([e], p) <==> e.pos <= p) && (AtLeast([e], p) <==> p <= e.pos)
  {
    assert [e][0] == e;
  }

  lemma HasOne<T>(e: Entry<T>, p: real)
    ensures Has([e], p) <==> e.pos == p
  {
    assert [e][0] == e;
  }

  lemma HasParts<T>(l: seq<Entry<T>>, m: seq<Entry<T>>, r: seq<Entry<T>>, p: real)
    ensures Has(l + m + r, p) <==> Has(l, p) || Has(m, p) || Has(r, p)
  {
    var s := l + m + r;
    if Has(l, p) { var i :| 0 <= i < |l| && l[i].pos == p; assert s[i].pos == p; }
    if Has(m, p) { var i :| 0 <= i < |m| && m[i].pos == p; assert s[|l| + i].pos == p; }
    if Has(r, p) { var i :| 0 <= i < |r| && r[i].pos == p; assert s[|l| + |m| + i].pos == p; }
  }

  lemma Four<T>(a: seq<T>, b: seq<T>, c: seq<T>, d: seq<T>)
    ensures (a + b) + c + d == a + (b + c + d) == (a + b + c) + d
    ensures a + b + (c + d) == (a + b + c) + d
  {
  }

  lemma Five<T>(a: seq<T>, e: seq<T>, b: seq<T>, c: seq<T>, d: seq<T>)
    ensures (a + e + b) + c + d == a + e + (b + c + d)
    ensures c + d + (a + e + b) == (c + d + a) + e + b
  {
  }

  // ----- insertion -----

  function Insert<T>(t: Tree<T>, pos: real, data: T): Tree<T> {
    if t.Leaf? then Node(pos, data, Leaf, Leaf)
    else if pos < t.pos then t.(left := Insert(t.left, pos, data))
    else t.(right := Insert(t.right, pos, data))
  }

  /** A new entry at p goes in between: after all that are not above p. */
  ghost predicate Between<T>(whole: seq<Entry<T>>, a: seq<Entry<T>>, b: seq<Entry<T>>, p: real) {
    whole == a + b && AtMost(a, p) && Above(b, p)
  }

  /** Insertion puts the entry at its place in the order, after those at the same position, and
      changes nothing else. */
  lemma {:induction false} InsertPlace<T>(t: Tree<T>, pos: real, data: T) returns (a: seq<Entry<T>>, b: seq<Entry<T>>)
    requires Search(t)
    ensures Between(InOrder(t), a, b, pos)
    ensures InOrder(Insert(t, pos, data)) == a + [Entry(pos, data)] + b && Search(Insert(t, pos, data))
    decreases t
  {
    hide Below, Above, AtMost, AtLeast, Search;
    var e := Entry(pos, data);
    if t.Leaf? {
      a, b := [], [];
      NothingBeyond<T>(pos);
      SearchLeaf<T>();
      SearchNode(pos, data, t, t);
      assert InOrder(Insert(t, pos, data)) == [] + [e] + [];
    } else {
      SearchParts(t);
      var l, r, m := InOrder(t.left), InOrder(t.right), [Entry(t.pos, t.data)];
      OneBeyond(Entry(t.pos, t.data), pos);
      OneBeyond(e, t.pos);
      if pos < t.pos {
        var x, y := InsertPlace(t.left, pos, data);
        a, b := x, y + m + r;
        Four(x, y, m, r);
        Five(x, [e], y, m, r);
        AboveLess(r, t.pos, pos);
        AboveConcat(y, m, pos);
        AboveConcat(y + m, r, pos);
        BelowConcat(x, y, t.pos);
        BelowConcat(x, [e], t.pos);
        BelowConcat(x + [e], y, t.pos);
        SearchNode(t.pos, t.data, Insert(t.left, pos, data), t.right);
      } else {
        var x, y := InsertPlace(t.right, pos, data);
        a, b := l + m + x, y;
        Four(l, m, x, y);
        Five(x, [e], y, l, m);
        BelowMore(l, t.pos, pos);
        AtMostConcat(l, m, pos);
        AtMostConcat(l + m, x, pos);
        AtLeastConcat(x, y, t.pos);
        AtLeastConcat(x, [e], t.pos);
        AtLeastConcat(x + [e], y, t.pos);
        SearchNode(t.pos, t.data, t.left, Insert(t.right, pos, data));
      }
    }
  }

  lemma SearchLeaf<T>()
    ensures Search<T>(Leaf) && InOrder<T>(Leaf) == []
  {
  }

  // ----- deletion -----

  /** The leftmost node, and the tree without it: what the loop to the successor splices out. */
  function Leftmost<T>(t: Tree<T>): Entry<T>
    requires t.Node?
  {
    if t.left.Leaf? then Entry(t.pos, t.data) else Leftmost(t.left)
  }

  function WithoutLeftmost<T>(t: Tree<T>): Tree<T>
    requires t.Node?
  {
    if t.left.Leaf? then t.right else t.(left := WithoutLeftmost(t.left))
  }

  function Delete<T>(t: Tree<T>, pos: real): Option<Tree<T>> {
    if t.Leaf? then None
    else if t.pos > pos then
      var l := Delete(t.left, pos);
      if l.None? then None else Some(t.(left := l.value))
    else if t.pos < pos then
      var r := Delete(t.right, pos);
      if r.None? then None else Some(t.(right := r.value))
    else if t.left.Leaf? then Some(t.right)
    else if t.right.Leaf? then Some(t.left)
    else
      var r := Leftmost(t.right);
      Some(Node(r.pos, r.data, t.left, WithoutLeftmost(t.right)))
  }

  lemma {:induction false} LeftmostFirst<T>(t: Tree<T>)
    requires t.Node?
    ensures InOrder(t) == [Leftmost(t)] + InOrder(WithoutLeftmost(t))
  {
    if t.left.Node? {
      LeftmostFirst(t.left);
    }
  }

  lemma {:induction false} WithoutLeftmostSearch<T>(t: Tree<T>)
    requires t.Node? && Search(t)
    ensures Search(WithoutLeftmost(t)) && AtLeast(InOrder(WithoutLeftmost(t)), Leftmost(t).pos)
  {
    SearchOrdered(t);
    LeftmostFirst(t);
    forall i | 0 <= i < |InOrder(WithoutLeftmost(t))| ensures Leftmost(t).pos <= InOrder(WithoutLeftmost(t))[i].pos {
      assert InOrder(t)[i + 1] == InOrder(WithoutLeftmost(t))[i] && InOrder(t)[0] == Leftmost(t);
    }
    hide AtLeast, Below;
    SearchParts(t);
    if t.left.Node? {
      WithoutLeftmostSearch(t.left);
      LeftmostFirst(t.left);
      BelowConcat([Leftmost(t.left)], InOrder(WithoutLeftmost(t.left)), t.pos);
      SearchNode(t.pos, t.data, WithoutLeftmost(t.left), t.right);
    }
  }

  /** Deletion removes exactly one entry, the first one at the position; it fails if and only if there
      is none. */
  lemma {:induction false} DeleteExact<T>(t: Tree<T>, pos: real) returns (a: seq<Entry<T>>, b: seq<Entry<T>>, data: Option<T>)
    requires Search(t)
    ensures Has(InOrder(t), pos) <==> Delete(t, pos).Some?
    ensures Delete(t, pos).Some? ==> (
      data.Some? && InOrder(t) == a + [Entry(pos, data.value)] + b && Below(a, pos) && AtLeast(b, pos) &&
      InOrder(Delete(t, pos).value) == a + b && Search(Delete(t, pos).value))
    decreases t
  {
    hide Has, Below, Above, AtMost, AtLeast, Search;
    a, b, data := [], [], None;
    if t.Leaf? {
      NoneThere<T>(pos);
    } else {
      SearchParts(t);
      var l, r, m := InOrder(t.left), InOrder(t.right), [Entry(t.pos, t.data)];
      HasParts(l, m, r, pos);
      HasOne(Entry(t.pos, t.data), pos);
      OneBeyond(Entry(t.pos, t.data), pos);
      if t.pos > pos {
        NotAbove(r, t.pos, pos);
        var x, y, d := DeleteExact(t.left, pos);
        a, b, data := x, y + m + r, d;
        if Delete(t.left, pos).Some? {
          Five(x, [Entry(pos, d.value)], y, m, r);
          Four(x, y, m, r);
          AboveLess(r, t.pos, pos);
          AtLeastConcat(y, m, pos);
          AtLeastConcat(y + m, r, pos);
          BelowRest(x, Entry(pos, d.value), y, t.pos);
          SearchNode(t.pos, t.data, Delete(t.left, pos).value, t.right);
        }
      } else if t.pos < pos {
        NotBelow(l, t.pos, pos);
        var x, y, d := DeleteExact(t.right, pos);
        a, b, data := l + m + x, y, d;
        if Delete(t.right, pos).Some? {
          Five(x, [Entry(pos, d.value)], y, l, m);
          Four(l, m, x, y);
          BelowMore(l, t.pos, pos);
          BelowConcat(l, m, pos);
          BelowConcat(l + m, x, pos);
          AtLeastRest(x, Entry(pos, d.value), y, t.pos);
          SearchNode(t.pos, t.data, t.left, Delete(t.right, pos).value);
        }
      } else {
        a, b, data := l, r, Some(t.data);
        DeleteRoot(t);
      }
    }
  }

  lemma NoneThere<T>(p: real)
    ensures !Has<T>([], p)
  {
  }

  lemma BelowRest<T>(x: seq<Entry<T>>, e: Entry<T>, y: seq<Entry<T>>, p: real)
    requires Below(x + [e] + y, p)
    ensures Below(x + y, p)
  {
    BelowConcat(x + [e], y, p);
    BelowConcat(x, [e], p);
    BelowConcat(x, y, p);
  }

  lemma AtLeastRest<T>(x: seq<Entry<T>>, e: Entry<T>, y: seq<Entry<T>>, p: real)
    requires AtLeast(x + [e] + y, p)
    ensures AtLeast(x + y, p)
  {
    AtLeastConcat(x + [e], y, p);
    AtLeastConcat(x, [e], p);
    AtLeastConcat(x, y, p);
  }

  lemma DeleteRoot<T>(t: Tree<T>)
    requires t.Node? && Search(t)
    ensures Delete(t, t.pos).Some? && InOrder(Delete(t, t.pos).value) == InOrder(t.left) + InOrder(t.right)
    ensures Search(Delete(t, t.pos).value)
  {
    hide Below, AtLeast, Search;
    SearchParts(t);
    SearchLeaf<T>();
    if t.left.Node? && t.right.Node? {
      LeftmostFirst(t.right);
      WithoutLeftmostSearch(t.right);
      var e, rest := Leftmost(t.right), InOrder(WithoutLeftmost(t.right));
      assert InOrder(t.left) + [e] + rest == InOrder(t.left) + ([e] + rest);
      AtLeastConcat([e], rest, t.pos);
      OneBeyond(e, t.pos);
      BelowMore(InOrder(t.left), t.pos, e.pos);
      SearchNode(e.pos, e.data, t.left, WithoutLeftmost(t.right));
    }
  }

  lemma NotAbove<T>(r: seq<Entry<T>>, root: real, p: real)
    requires AtLeast(r, root) && p < root
    ensures !Has(r, p)
  {
  }

  lemma NotBelow<T>(l: seq<Entry<T>>, root: real, p: real)
    requires Below(l, root) && root <= p
    ensures !Has(l, p)
  {
  }

  // ----- where the tree changes -----

  /** The child to the right for true, to the left for false. */
  function Child<T>(t: Tree<T>, right: bool): Tree<T>
    requires t.Node?
  {
    if right then t.right else t.left
  }

  /** The steps from the root stay inside the tree until they end. */
  ghost predicate Reaches<T>(t: Tree<T>, path: seq<bool>) {
    path != [] ==> t.Node? && Reaches(Child(t, path[0]), path[1..])
  }

  ghost function Subtree<T>(t: Tree<T>, path: seq<bool>): Tree<T>
    requires Reaches(t, path)
  {
    if path == [] then t else Subtree(Child(t, path[0]), path[1..])
  }

  /** The tree with another subtree there. */
  ghost function Put<T>(t: Tree<T>, path: seq<bool>, u: Tree<T>): Tree<T>
    requires Reaches(t, path)
  {
    if path == [] then u
    else if path[0] then t.(right := Put(t.right, path[1..], u))
    else t.(left := Put(t.left, path[1..], u))
  }

  /** Insertion puts a new node in the place of one empty subtree and leaves the shape otherwise. */
  lemma {:induction false} InsertLeaf<T>(t: Tree<T>, pos: real, data: T) returns (path: seq<bool>)
    ensures Reaches(t, path) && Subtree(t, path).Leaf?
    ensures Insert(t, pos, data) == Put(t, path, Node(pos, data, Leaf, Leaf))
    decreases t
  {
    path := [];
    if t.Node? {
      var right := !(pos < t.pos);
      var rest := InsertLeaf(Child(t, right), pos, data);
      path := [right] + rest;
      assert path[1..] == rest;
    }
  }

  /** The node at the end of the left spine is replaced by its right subtree. */
  lemma {:induction false} LeftmostSpliced<T>(t: Tree<T>) returns (path: seq<bool>)
    requires t.Node?
    ensures Reaches(t, path) && true !in path && Subtree(t, path).Node? && Subtree(t, path).left.Leaf?
    ensures Leftmost(t) == Entry(Subtree(t, path).pos, Subtree(t, path).data)
    ensures WithoutLeftmost(t) == Put(t, path, Subtree(t, path).right)
    decreases t
  {
    path := [];
    if t.left.Node? {
      var rest := LeftmostSpliced(t.left);
      path := [false] + rest;
      assert path[1..] == rest;
    }
  }

  /** What takes the place of a deleted node: its only child, or else the node at the end of the left
      spine of its right subtree, which leaves its own right subtree behind. */
  ghost predicate TakesPlace<T>(u: Tree<T>, t: Tree<T>)
    requires t.Node?
  {
    if t.left.Leaf? then u == t.right
    else if t.right.Leaf? then u == t.left
    else exists path :: TakenFrom(u, t, path)
  }

  ghost predicate TakenFrom<T>(u: Tree<T>, t: Tree<T>, path: seq<bool>)
    requires t.Node?
  {
    && Reaches(t.right, path) && true !in path && Subtree(t.right, path).Node? && Subtree(t.right, path).left.Leaf?
    && var s := Subtree(t.right, path); u == Node(s.pos, s.data, t.left, Put(t.right, path, s.right))
  }

  /** Deletion changes one subtree: the one whose root is at the position. */
  lemma {:induction false} DeleteNode<T>(t: Tree<T>, pos: real) returns (path: seq<bool>, u: Tree<T>)
    requires Delete(t, pos).Some?
    ensures Reaches(t, path) && Subtree(t, path).Node? && Subtree(t, path).pos == pos
    ensures TakesPlace(u, Subtree(t, path)) && Delete(t, pos).value == Put(t, path, u)
    decreases t
  {
    path, u := [], Delete(t, pos).value;
    if t.pos != pos {
      var right := t.pos < pos;
      var rest, v := DeleteNode(Child(t, right), pos);
      path, u := [right] + rest, v;
      assert path[1..] == rest;
    } else if t.left.Node? && t.right.Node? {
      var spine := LeftmostSpliced(t.right);
      assert TakenFrom(u, t, spine);
    }
  }

  // ----- lookup -----

  function Find<T>(t: Tree<T>, pos: real): Option<T> {
    if t.Leaf? then None
    else if t.pos == pos then Some(t.data)
    else if pos < t.pos then Find(t.left, pos)
    else Find(t.right, pos)
  }

  /** Find gives the data stored at the position, and fails if and only if nothing is. */
  lemma {:induction false} FindExact<T>(t: Tree<T>, pos: real)
    requires Search(t)
    ensures Find(t, pos).Some? <==> Has(InOrder(t), pos)
    ensures Find(t, pos).Some? ==> Entry(pos, Find(t, pos).value) in InOrder(t)
  {
    hide Has, Below, Above, AtLeast, Search;
    if t.Leaf? {
      NoneThere<T>(pos);
    } else {
      SearchParts(t);
      var l, r, m := InOrder(t.left), InOrder(t.right), [Entry(t.pos, t.data)];
      HasParts(l, m, r, pos);
      HasOne(Entry(t.pos, t.data), pos);
      if pos < t.pos {
        NotAbove(r, t.pos, pos);
        FindExact(t.left, pos);
      } else if t.pos < pos {
        NotBelow(l, t.pos, pos);
        FindExact(t.right, pos);
      }
    }
  }

  // ----- ranges -----

  function AddAll<T>(t: Tree<T>): seq<T> {
    if t.Leaf? then [] else AddAll(t.left) + [t.data] + AddAll(t.right)
  }

  predicate IsLeafNode<T>(t: Tree<T>) {
    t.Node? && t.left.Leaf? && t.right.Leaf?
  }

  function RangeRight<T>(t: Tree<T>, low: real, high: real): seq<T> {
    if t.Leaf? then []
    else if IsLeafNode(t) then (if low <= t.pos < high then [t.data] else [])
    else if t.pos < high then AddAll(t.left) + [t.data] + RangeRight(t.right, low, high)
    else []
  }

  function RangeLeft<T>(t: Tree<T>, low: real, high: real): seq<T> {
    if t.Leaf? then []
    else if IsLeafNode(t) then (if low <= t.pos < high then [t.data] else [])
    else if t.pos >= low then RangeLeft(t.left, low, high) + [t.data] + AddAll(t.right)
    else []
  }

  function Range<T>(t: Tree<T>, low: real, high: real): seq<T> {
    if t.Leaf? then []
    else if low < t.pos && high <= t.pos then Range(t.left, low, high)
    else if low > t.pos && high >= t.pos then Range(t.right, low, high)
    else RangeLeft(t.left, low, high) + [t.data] + RangeRight(t.right, low, high)
  }

  ghost function Datas<T>(s: seq<Entry<T>>): (r: seq<T>)
    ensures |r| == |s| && forall i :: 0 <= i < |r| ==> r[i] == s[i].data
  {
    seq(|s|, i requires 0 <= i < |s| => s[i].data)
  }

  lemma DatasConcat<T>(a: seq<Entry<T>>, b: seq<Entry<T>>, c: seq<Entry<T>>)
    ensures Datas(a + b + c) == Datas(a) + Datas(b) + Datas(c)
  {
  }

  lemma {:induction false} AddAllIsInOrder<T>(t: Tree<T>)
    ensures AddAll(t) == Datas(InOrder(t))
  {
    if t.Node? {
      AddAllIsInOrder(t.left);
      AddAllIsInOrder(t.right);
      DatasConcat(InOrder(t.left), [Entry(t.pos, t.data)], InOrder(t.right));
      assert Datas([Entry(t.pos, t.data)]) == [t.data];
    }
  }

  ghost predicate Inside<T>(s: seq<Entry<T>>, low: real, high: real) {
    forall i :: 0 <= i < |s| ==> low <= s[i].pos < high
  }

  lemma InsideConcat<T>(a: seq<Entry<T>>, b: seq<Entry<T>>, low: real, high: real)
    ensures Inside(a + b, low, high) <==> Inside(a, low, high) && Inside(b, low, high)
  {
    assert forall i :: 0 <= i < |a| ==> (a + b)[i] == a[i];
    assert forall i :: 0 <= i < |b| ==> (a + b)[|a| + i] == b[i];
  }

  lemma InsideIs<T>(s: seq<Entry<T>>, low: real, high: real)
    ensures Inside(s, low, high) <==> AtLeast(s, low) && Below(s, high)
  {
  }

  lemma AtLeastLess<T>(s: seq<Entry<T>>, p: real, low: real)
    requires AtLeast(s, p) && low <= p
    ensures AtLeast(s, low)
  {
  }

  lemma NothingInside<T>(low: real, high: real)
    ensures Inside<T>([], low, high) && Datas<T>([]) == []
  {
  }

  lemma LeafNode<T>(t: Tree<T>)
    requires IsLeafNode(t)
    ensures InOrder(t) == [Entry(t.pos, t.data)] && Datas(InOrder(t)) == [t.data]
  {
  }

  lemma {:induction false} RangeRightStretch<T>(t: Tree<T>, low: real, high: real) returns (y: seq<Entry<T>>, z: seq<Entry<T>>)
    requires Search(t) && AtLeast(InOrder(t), low)
    ensures InOrder(t) == y + z && RangeRight(t, low, high) == Datas(y) && Inside(y, low, high)
    decreases t
  {
    hide Search, AtLeast, Inside, Below, Above, Datas;
    y, z := [], InOrder(t);
    NothingInside<T>(low, high);
    assert [] + InOrder(t) == InOrder(t);
    if t.Node? {
      SearchParts(t);
      var l, r, m := InOrder(t.left), InOrder(t.right), [Entry(t.pos, t.data)];
      AtLeastConcat(l, m, low);
      AtLeastConcat(l + m, r, low);
      OneBeyond(Entry(t.pos, t.data), low);
      OneBeyond(Entry(t.pos, t.data), high);
      if IsLeafNode(t) {
        LeafNode(t);
        if t.pos < high {
          y, z := m, [];
          InsideIs(m, low, high);
        }
      } else if t.pos < high {
        var y1, z1 := RangeRightStretch(t.right, low, high);
        AddAllIsInOrder(t.left);
        y, z := l + m + y1, z1;
        Four(l, m, y1, z1);
        DatasConcat(l, m, y1);
        OneData(Entry(t.pos, t.data));
        BelowMore(l, t.pos, high);
        BelowConcat(l, m, high);
        InsideIs(l + m, low, high);
        InsideConcat(l + m, y1, low, high);
      }
    }
  }

  lemma OneData<T>(e: Entry<T>)
    ensures Datas([e]) == [e.data]
  {
  }

  lemma {:induction false} RangeLeftStretch<T>(t: Tree<T>, low: real, high: real) returns (x: seq<Entry<T>>, y: seq<Entry<T>>)
    requires Search(t) && Below(InOrder(t), high)
    ensures InOrder(t) == x + y && RangeLeft(t, low, high) == Datas(y) && Inside(y, low, high)
    decreases t
  {
    hide Search, AtLeast, Inside, Below, Above, Datas;
    x, y := InOrder(t), [];
    NothingInside<T>(low, high);
    assert InOrder(t) + [] == InOrder(t);
    if t.Node? {
      SearchParts(t);
      var l, r, m := InOrder(t.left), InOrder(t.right), [Entry(t.pos, t.data)];
      BelowConcat(l, m, high);
      BelowConcat(l + m, r, high);
      OneBeyond(Entry(t.pos, t.data), low);
      OneBeyond(Entry(t.pos, t.data), high);
      if IsLeafNode(t) {
        LeafNode(t);
        if t.pos >= low {
          x, y := [], m;
          InsideIs(m, low, high);
        }
      } else if t.pos >= low {
        var x1, y1 := RangeLeftStretch(t.left, low, high);
        AddAllIsInOrder(t.right);
        x, y := x1, y1 + m + r;
        Four(x1, y1, m, r);
        DatasConcat(y1, m, r);
        OneData(Entry(t.pos, t.data));
        AtLeastLess(r, t.pos, low);
        InsideIs(m, low, high);
        InsideIs(r, low, high);
        InsideConcat(y1, m, low, high);
        InsideConcat(y1 + m, r, low, high);
      }
    }
  }

  /** The range is a contiguous stretch of entries inside the bounds: nothing outside, nothing twice. */
  lemma {:induction false} RangeStretch<T>(t: Tree<T>, low: real, high: real)
      returns (x: seq<Entry<T>>, y: seq<Entry<T>>, z: seq<Entry<T>>)
    requires Search(t) && low < high
    ensures InOrder(t) == x + y + z && Range(t, low, high) == Datas(y) && Inside(y, low, high)
    decreases t
  {
    hide Search, AtLeast, Inside, Below, Above, Datas;
    x, y, z := [], [], InOrder(t);
    NothingInside<T>(low, high);
    assert [] + [] + InOrder(t) == InOrder(t);
    if t.Node? {
      SearchParts(t);
      var l, r, m := InOrder(t.left), InOrder(t.right), [Entry(t.pos, t.data)];
      if low < t.pos && high <= t.pos {
        var x1, y1, z1 := RangeStretch(t.left, low, high);
        x, y, z := x1, y1, z1 + m + r;
        Five(x1, y1, z1, m, r);
      } else if low > t.pos && high >= t.pos {
        var x1, y1, z1 := RangeStretch(t.right, low, high);
        x, y, z := l + m + x1, y1, z1;
        Five(x1, y1, z1, l, m);
      } else {
        BelowMore(l, t.pos, high);
        AtLeastLess(r, t.pos, low);
        var x1, y1 := RangeLeftStretch(t.left, low, high);
        var y2, z2 := RangeRightStretch(t.right, low, high);
        x, y, z := x1, y1 + m + y2, z2;
        Around(x1, y1, m, y2, z2);
        DatasConcat(y1, m, y2);
        OneData(Entry(t.pos, t.data));
        OneBeyond(Entry(t.pos, t.data), low);
        OneBeyond(Entry(t.pos, t.data), high);
        InsideIs(m, low, high);
        InsideConcat(y1, m, low, high);
        InsideConcat(y1 + m, y2, low, high);
      }
    }
  }

  lemma Around<T>(a: seq<T>, b: seq<T>, m: seq<T>, c: seq<T>, d: seq<T>)
    ensures (a + b) + m + (c + d) == a + (b + m + c) + d
  {
  }

  // ----- the entries between two bounds -----

  /** The entries that a range should give. */
  ghost function Within<T>(s: seq<Entry<T>>, low: real, high: real): seq<Entry<T>> {
    if s == [] then []
    else (if low <= s[0].pos < high then [s[0]] else []) + Within(s[1..], low, high)
  }

  lemma {:induction false} WithinConcat<T>(a: seq<Entry<T>>, b: seq<Entry<T>>, low: real, high: real)
    ensures Within(a + b, low, high) == Within(a, low, high) + Within(b, low, high)
  {
    if a == [] {
      assert a + b == b;
    } else {
      assert (a + b)[1..] == a[1..] + b;
      WithinConcat(a[1..], b, low, high);
    }
  }

  lemma WithinOne<T>(e: Entry<T>, low: real, high: real)
    ensures Within([e], low, high) == if low <= e.pos < high then [e] else []
  {
    assert [e][1..] == [];
  }

  lemma {:induction false} WithinAll<T>(s: seq<Entry<T>>, low: real, high: real)
    requires Inside(s, low, high)
    ensures Within(s, low, high) == s
  {
    if s != [] {
      WithinAll(s[1..], low, high);
    }
  }

  /** Nothing at high or above, and nothing below low. */
  ghost predicate Outside<T>(s: seq<Entry<T>>, low: real, high: real) {
    forall i :: 0 <= i < |s| ==> s[i].pos < low || high <= s[i].pos
  }

  lemma {:induction false} WithinNone<T>(s: seq<Entry<T>>, low: real, high: real)
    requires Outside(s, low, high)
    ensures Within(s, low, high) == []
  {
    if s != [] {
      WithinNone(s[1..], low, high);
    }
  }

  lemma {:induction false} WithinSome<T>(s: seq<Entry<T>>, low: real, high: real, k: nat)
    requires k < |s| && low <= s[k].pos < high
    ensures |Within(s, low, high)| > 0
    decreases |s|
  {
    if k > 0 {
      WithinSome(s[1..], low, high, k - 1);
    }
  }

  function Rightmost<T>(t: Tree<T>): Entry<T>
    requires t.Node?
  {
    if t.right.Leaf? then Entry(t.pos, t.data) else Rightmost(t.right)
  }

  lemma {:induction false} RightmostLast<T>(t: Tree<T>)
    requires t.Node?
    ensures |InOrder(t)| > 0 && InOrder(t)[|InOrder(t)| - 1] == Rightmost(t)
  {
    if t.right.Node? {
      RightmostLast(t.right);
    }
  }

  // ----- what a range skips -----

  /** Right of the root, the walk stops at the first node that is too high and skips what is left of it. */
  ghost function SkippedRight<T>(t: Tree<T>, high: real): seq<Entry<T>> {
    if t.Leaf? || IsLeafNode(t) then []
    else if t.pos < high then SkippedRight(t.right, high)
    else InOrder(t.left)
  }

  /** Left of the root, it stops at the first node that is too low and skips what is right of it. */
  ghost function SkippedLeft<T>(t: Tree<T>, low: real): seq<Entry<T>> {
    if t.Leaf? || IsLeafNode(t) then []
    else if t.pos >= low then SkippedLeft(t.left, low)
    else InOrder(t.right)
  }

  /** The node where the bounds part. */
  ghost function Parting<T>(t: Tree<T>, low: real, high: real): Tree<T> {
    if t.Leaf? then t
    else if low < t.pos && high <= t.pos then Parting(t.left, low, high)
    else if low > t.pos && high >= t.pos then Parting(t.right, low, high)
    else t
  }

  /** The range r lacks, of the entries of s between the bounds, those before and those after. */
  ghost predicate Lacks<T>(r: seq<T>, s: seq<Entry<T>>, low: real, high: real, before: seq<Entry<T>>, after: seq<Entry<T>>) {
    Datas(Within(s, low, high)) == Datas(Within(before, low, high)) + r + Datas(Within(after, low, high))
  }

  lemma LacksAfter<T>(a: seq<Entry<T>>, m: Entry<T>, y: seq<T>, r: seq<Entry<T>>, s: seq<Entry<T>>, low: real, high: real, after: seq<Entry<T>>)
    requires Lacks(y, r, low, high, [], after) && Within(s, low, high) == a + [m] + Within(r, low, high)
    ensures Lacks(Datas(a) + [m.data] + y, s, low, high, [], after)
  {
    hide Within, Datas;
    NothingWithin<T>(low, high);
    DatasConcat(a, [m], Within(r, low, high));
    OneData(m);
    Regroup(Datas(a), [m.data], [], y, Datas(Within(after, low, high)));
  }

  lemma LacksBefore<T>(b: seq<Entry<T>>, m: Entry<T>, x: seq<T>, l: seq<Entry<T>>, s: seq<Entry<T>>, low: real, high: real, before: seq<Entry<T>>)
    requires Lacks(x, l, low, high, before, []) && Within(s, low, high) == Within(l, low, high) + [m] + b
    ensures Lacks(x + [m.data] + Datas(b), s, low, high, before, [])
  {
    hide Within, Datas;
    NothingWithin<T>(low, high);
    DatasConcat(Within(l, low, high), [m], b);
    OneData(m);
    Regroup(Datas(Within(before, low, high)), x, [m.data], Datas(b), []);
  }

  lemma LacksBoth<T>(x: seq<T>, l: seq<Entry<T>>, m: Entry<T>, y: seq<T>, r: seq<Entry<T>>, s: seq<Entry<T>>, low: real, high: real,
      before: seq<Entry<T>>, after: seq<Entry<T>>)
    requires Lacks(x, l, low, high, before, []) && Lacks(y, r, low, high, [], after)
    requires Within(s, low, high) == Within(l, low, high) + [m] + Within(r, low, high)
    ensures Lacks(x + [m.data] + y, s, low, high, before, after)
  {
    hide Within, Datas;
    NothingWithin<T>(low, high);
    DatasConcat(Within(l, low, high), [m], Within(r, low, high));
    OneData(m);
    Regroup(Datas(Within(before, low, high)), x, [m.data], y, Datas(Within(after, low, high)));
  }

  lemma Regroup<T>(a: seq<T>, b: seq<T>, c: seq<T>, d: seq<T>, e: seq<T>)
    ensures a + (b + c + d) + e == (a + b + []) + c + ([] + d + e)
    ensures [] + (a + b + d) + e == a + b + ([] + d + e)
  {
  }

  lemma InOrderWithin<T>(t: Tree<T>, low: real, high: real)
    requires t.Node?
    ensures Within(InOrder(t), low, high) ==
      Within(InOrder(t.left), low, high) + (if low <= t.pos < high then [Entry(t.pos, t.data)] else []) + Within(InOrder(t.right), low, high)
  {
    var l, r, e := InOrder(t.left), InOrder(t.right), Entry(t.pos, t.data);
    WithinConcat(l + [e], r, low, high);
    WithinConcat(l, [e], low, high);
    WithinOne(e, low, high);
  }

  lemma NothingWithin<T>(low: real, high: real)
    ensures Within<T>([], low, high) == [] && Datas<T>([]) == []
  {
  }

  lemma {:induction false} RangeRightLacks<T>(t: Tree<T>, low: real, high: real)
    requires Search(t) && AtLeast(InOrder(t), low)
    ensures Lacks(RangeRight(t, low, high), InOrder(t), low, high, [], SkippedRight(t, high))
    decreases t
  {
    hide Within, Search, AtLeast, Inside, Outside, Below, Above, Datas;
    NothingWithin<T>(low, high);
    if t.Node? {
      SearchParts(t);
      InOrderWithin(t, low, high);
      var l, r, m := InOrder(t.left), InOrder(t.right), [Entry(t.pos, t.data)];
      AtLeastConcat(l, m, low);
      AtLeastConcat(l + m, r, low);
      OneBeyond(Entry(t.pos, t.data), low);
      OneData(Entry(t.pos, t.data));
      if IsLeafNode(t) {
      } else if t.pos < high {
        RangeRightLacks(t.right, low, high);
        BelowMore(l, t.pos, high);
        InsideIs(l, low, high);
        WithinAll(l, low, high);
        AddAllIsInOrder(t.left);
        LacksAfter(l, Entry(t.pos, t.data), RangeRight(t.right, low, high), r, InOrder(t), low, high, SkippedRight(t, high));
      } else {
        AtLeastOutside(r, t.pos, low, high);
        WithinNone(r, low, high);
      }
    }
  }

  lemma AtLeastOutside<T>(s: seq<Entry<T>>, p: real, low: real, high: real)
    requires AtLeast(s, p) && high <= p
    ensures Outside(s, low, high)
  {
  }

  lemma BelowOutside<T>(s: seq<Entry<T>>, p: real, low: real, high: real)
    requires Below(s, p) && p <= low
    ensures Outside(s, low, high)
  {
  }

  lemma {:induction false} RangeLeftLacks<T>(t: Tree<T>, low: real, high: real)
    requires Search(t) && Below(InOrder(t), high)
    ensures Lacks(RangeLeft(t, low, high), InOrder(t), low, high, SkippedLeft(t, low), [])
    decreases t
  {
    hide Within, Search, AtLeast, Inside, Outside, Below, Above, Datas;
    NothingWithin<T>(low, high);
    if t.Node? {
      SearchParts(t);
      InOrderWithin(t, low, high);
      var l, r, m := InOrder(t.left), InOrder(t.right), [Entry(t.pos, t.data)];
      BelowConcat(l, m, high);
      BelowConcat(l + m, r, high);
      OneBeyond(Entry(t.pos, t.data), high);
      OneData(Entry(t.pos, t.data));
      if IsLeafNode(t) {
      } else if t.pos >= low {
        RangeLeftLacks(t.left, low, high);
        AtLeastLess(r, t.pos, low);
        InsideIs(r, low, high);
        WithinAll(r, low, high);
        AddAllIsInOrder(t.right);
        LacksBefore(r, Entry(t.pos, t.data), RangeLeft(t.left, low, high), l, InOrder(t), low, high, SkippedLeft(t, low));
      } else {
        BelowOutside(l, t.pos, low, high);
        WithinNone(l, low, high);
      }
    }
  }

  /** A range gives the entries between its bounds in their order, without those that the two walks skip
      on either side: with p the node where the bounds part, what is right of the first node too low on
      the left spine below p, and what is left of the first node too high on the right spine. */
  lemma {:induction false} RangeGives<T>(t: Tree<T>, low: real, high: real)
    requires Search(t) && low < high
    ensures var p := Parting(t, low, high);
      if p.Leaf? then Range(t, low, high) == [] && Within(InOrder(t), low, high) == []
      else Lacks(Range(t, low, high), InOrder(t), low, high, SkippedLeft(p.left, low), SkippedRight(p.right, high))
    decreases t
  {
    hide Within, Search, AtLeast, Inside, Outside, Below, Above, Datas;
    NothingWithin<T>(low, high);
    if t.Node? {
      SearchParts(t);
      InOrderWithin(t, low, high);
      var l, r, m := InOrder(t.left), InOrder(t.right), [Entry(t.pos, t.data)];
      if low < t.pos && high <= t.pos {
        AtLeastOutside(r, t.pos, low, high);
        WithinNone(r, low, high);
        assert Within(InOrder(t), low, high) == Within(l, low, high);
        RangeGives(t.left, low, high);
      } else if low > t.pos && high >= t.pos {
        BelowOutside(l, t.pos, low, high);
        WithinNone(l, low, high);
        assert Within(InOrder(t), low, high) == Within(r, low, high);
        RangeGives(t.right, low, high);
      } else {
        BelowMore(l, t.pos, high);
        AtLeastLess(r, t.pos, low);
        RangeLeftLacks(t.left, low, high);
        RangeRightLacks(t.right, low, high);
        LacksBoth(RangeLeft(t.left, low, high), l, Entry(t.pos, t.data), RangeRight(t.right, low, high), r, InOrder(t),
          low, high, SkippedLeft(t.left, low), SkippedRight(t.right, high));
      }
    }
  }

  lemma {:induction false} NothingLeftOf<T>(t: Tree<T>, low: real, high: real)
    requires Search(t) && Below(InOrder(t), low)
    ensures RangeLeft(t, low, high) == []
  {
    hide Search, Below;
    if t.Node? {
      SearchParts(t);
      BelowConcat(InOrder(t.left), [Entry(t.pos, t.data)], low);
      BelowConcat(InOrder(t.left) + [Entry(t.pos, t.data)], InOrder(t.right), low);
      OneBeyond(Entry(t.pos, t.data), low);
    }
  }

  lemma {:induction false} NothingRightOf<T>(t: Tree<T>, low: real, high: real)
    requires Search(t) && AtLeast(InOrder(t), high)
    ensures RangeRight(t, low, high) == []
  {
    hide Search, AtLeast;
    if t.Node? {
      SearchParts(t);
      AtLeastConcat(InOrder(t.left), [Entry(t.pos, t.data)], high);
      AtLeastConcat(InOrder(t.left) + [Entry(t.pos, t.data)], InOrder(t.right), high);
      OneBeyond(Entry(t.pos, t.data), high);
    }
  }

  /** With bounds that leave no room, a range still gives the node where they part. */
  lemma {:induction false} RangeOfNothing<T>(t: Tree<T>, low: real, high: real)
    requires Search(t) && high <= low
    ensures var p := Parting(t, low, high); Range(t, low, high) == if p.Leaf? then [] else [p.data]
    ensures Parting(t, low, high).Node? ==> high <= Parting(t, low, high).pos <= low
    decreases t
  {
    hide Search, Below, AtLeast, RangeLeft, RangeRight;
    if t.Node? {
      SearchParts(t);
      if low < t.pos && high <= t.pos {
        RangeOfNothing(t.left, low, high);
      } else if low > t.pos && high >= t.pos {
        RangeOfNothing(t.right, low, high);
      } else {
        BelowMore(InOrder(t.left), t.pos, low);
        AtLeastLess(InOrder(t.right), t.pos, high);
        NothingLeftOf(t.left, low, high);
        NothingRightOf(t.right, low, high);
      }
    }
  }

  // ----- when a range is complete -----

  /** Nothing left of the node at which the walk to the right stops may be below high. */
  predicate RightFits<T>(t: Tree<T>, high: real) {
    if t.Leaf? || IsLeafNode(t) then true
    else if t.pos < high then RightFits(t.right, high)
    else t.left.Leaf? || high <= Leftmost(t.left).pos
  }

  predicate LeftFits<T>(t: Tree<T>, low: real) {
    if t.Leaf? || IsLeafNode(t) then true
    else if t.pos >= low then LeftFits(t.left, low)
    else t.right.Leaf? || Rightmost(t.right).pos < low
  }

  predicate RangeFits<T>(t: Tree<T>, low: real, high: real) {
    if t.Leaf? then true
    else if low < t.pos && high <= t.pos then RangeFits(t.left, low, high)
    else if low > t.pos && high >= t.pos then RangeFits(t.right, low, high)
    else LeftFits(t.left, low) && RightFits(t.right, high)
  }

  lemma {:induction false} SkippedRightFits<T>(t: Tree<T>, low: real, high: real)
    requires Search(t) && AtLeast(InOrder(t), low)
    ensures Within(SkippedRight(t, high), low, high) == [] <==> RightFits(t, high)
    decreases t
  {
    hide Within, Search, AtLeast, Below, Above;
    NothingWithin<T>(low, high);
    if t.Node? {
      SearchParts(t);
      var l, r, m := InOrder(t.left), InOrder(t.right), [Entry(t.pos, t.data)];
      AtLeastConcat(l, m, low);
      AtLeastConcat(l + m, r, low);
      if t.pos < high {
        SkippedRightFits(t.right, low, high);
      } else {
        LeftOfStop(t.left, low, high);
      }
    }
  }

  lemma {:induction false} SkippedLeftFits<T>(t: Tree<T>, low: real, high: real)
    requires Search(t) && Below(InOrder(t), high)
    ensures Within(SkippedLeft(t, low), low, high) == [] <==> LeftFits(t, low)
    decreases t
  {
    hide Within, Search, AtLeast, Below, Above;
    NothingWithin<T>(low, high);
    if t.Node? {
      SearchParts(t);
      var l, r, m := InOrder(t.left), InOrder(t.right), [Entry(t.pos, t.data)];
      BelowConcat(l, m, high);
      BelowConcat(l + m, r, high);
      if t.pos >= low {
        SkippedLeftFits(t.left, low, high);
      } else {
        RightOfStop(t.right, low, high);
      }
    }
  }

  /** What the walk to the right skips left of the node it stops at. */
  lemma LeftOfStop<T>(t: Tree<T>, low: real, high: real)
    requires Search(t) && AtLeast(InOrder(t), low)
    ensures Within(InOrder(t), low, high) == [] <==> t.Leaf? || high <= Leftmost(t).pos
  {
    hide Within;
    SearchOrdered(t);
    var s := InOrder(t);
    if t.Node? {
      LeftmostFirst(t);
      assert s[0] == Leftmost(t);
      if high <= s[0].pos {
        assert Outside(s, low, high);
        WithinNone(s, low, high);
      } else {
        WithinSome(s, low, high, 0);
      }
    } else {
      WithinNone(s, low, high);
    }
  }

  lemma RightOfStop<T>(t: Tree<T>, low: real, high: real)
    requires Search(t) && Below(InOrder(t), high)
    ensures Within(InOrder(t), low, high) == [] <==> t.Leaf? || Rightmost(t).pos < low
  {
    hide Within;
    SearchOrdered(t);
    var s := InOrder(t);
    if t.Node? {
      RightmostLast(t);
      if s[|s| - 1].pos < low {
        assert Outside(s, low, high);
        WithinNone(s, low, high);
      } else {
        WithinSome(s, low, high, |s| - 1);
      }
    } else {
      WithinNone(s, low, high);
    }
  }

  lemma {:induction false} PartingFits<T>(t: Tree<T>, low: real, high: real)
    requires Search(t)
    ensures var p := Parting(t, low, high);
      Search(p) && (RangeFits(t, low, high) <==> p.Leaf? || (LeftFits(p.left, low) && RightFits(p.right, high)))
    ensures var p := Parting(t, low, high);
      p.Node? && low < high ==> AtLeast(InOrder(p.right), low) && Below(InOrder(p.left), high)
    decreases t
  {
    hide Search, AtLeast, Below, LeftFits, RightFits;
    if t.Node? {
      SearchParts(t);
      if low < t.pos && high <= t.pos {
        PartingFits(t.left, low, high);
      } else if low > t.pos && high >= t.pos {
        PartingFits(t.right, low, high);
      } else if low < high {
        BelowMore(InOrder(t.left), t.pos, high);
        AtLeastLess(InOrder(t.right), t.pos, low);
      }
    }
  }

  /** A range gives all entries between its bounds if and only if the two walks stop at nodes that
      have nothing in range on their inner side. */
  lemma RangeComplete<T>(t: Tree<T>, low: real, high: real)
    requires Search(t) && low < high
    ensures Range(t, low, high) == Datas(Within(InOrder(t), low, high)) <==> RangeFits(t, low, high)
  {
    hide Within, Range, RangeFits, Search, AtLeast, Below, SkippedLeft, SkippedRight, Parting, LeftFits, RightFits;
    RangeGives(t, low, high);
    PartingFits(t, low, high);
    var p := Parting(t, low, high);
    if p.Node? {
      SearchParts(p);
      SkippedLeftFits(p.left, low, high);
      SkippedRightFits(p.right, low, high);
    }
  }

  /** The smallest case: right of the root, everything left of a node that is too high is skipped. */
  lemma RangeMisses()
    ensures var t: Tree<nat> := Node(1.0, 1, Leaf, Node(5.0, 5, Node(2.0, 2, Leaf, Leaf), Leaf));
      Search(t) && Entry(2.0, 2) in InOrder(t) && Range(t, 1.0, 3.0) == [1]
  {
    var two: Tree<nat> := Node(2.0, 2, Leaf, Leaf);
    var five: Tree<nat> := Node(5.0, 5, two, Leaf);
    var t: Tree<nat> := Node(1.0, 1, Leaf, five);
    assert InOrder(two) == [Entry(2.0, 2)];
    assert InOrder(five) == [Entry(2.0, 2), Entry(5.0, 5)];
    assert InOrder(t) == [Entry(1.0, 1), Entry(2.0, 2), Entry(5.0, 5)];
    assert InOrder(t)[1] == Entry(2.0, 2);
    assert RangeRight(five, 1.0, 3.0) == [];
  }

  // ----- what insertion and deletion keep -----

  lemma InsertKeeps<T>(t: Tree<T>, pos: real, data: T)
    requires Search(t)
    ensures Search(Insert(t, pos, data)) && |InOrder(Insert(t, pos, data))| == |InOrder(t)| + 1
    ensures exists a, b :: Between(InOrder(t), a, b, pos) && InOrder(Insert(t, pos, data)) == a + [Entry(pos, data)] + b
  {
    var a, b := InsertPlace(t, pos, data);
  }

  lemma DeleteKeeps<T>(t: Tree<T>, pos: real)
    requires Search(t)
    ensures Delete(t, pos).Some? <==> Has(InOrder(t), pos)
    ensures Delete(t, pos).Some? ==> (
      Search(Delete(t, pos).value) && |InOrder(Delete(t, pos).value)| == |InOrder(t)| - 1)
  {
    var a, b, data := DeleteExact(t, pos);
  }

  // ----- the stack iterator -----

  lemma NothingLeft<T>(t: Tree<T>)
    requires t.Leaf?
    ensures InOrder(t) == [] && Size(t) == 0 && Rest<T>([]) == [] && StackSize<T>([]) == 0
  {
  }

  lemma LeftSmaller<T>(t: Tree<T>)
    requires t.Node?
    ensures Size(t.left) < Size(t)
  {
  }

  lemma Three<T>(a: seq<T>, b: seq<T>, c: seq<T>)
    ensures a + b + c == a + (b + c)
  {
  }

  lemma YieldNext<T>(a: seq<T>, e: seq<T>, b: seq<T>, c: seq<T>)
    ensures a + [] + (e + b + c) == (a + e) + b + c
  {
  }

  function Size<T>(t: Tree<T>): nat {
    if t.Leaf? then 0 else 1 + Size(t.left) + Size(t.right)
  }

  /** What is still to come from the nodes on the stack, top first. */
  ghost function Rest<T>(stack: seq<Tree<T>>): seq<Entry<T>>
    requires forall i :: 0 <= i < |stack| ==> stack[i].Node?
  {
    if stack == [] then []
    else
      var t := stack[|stack| - 1];
      [Entry(t.pos, t.data)] + InOrder(t.right) + Rest(stack[..|stack| - 1])
  }

  ghost function StackSize<T>(stack: seq<Tree<T>>): nat
    requires forall i :: 0 <= i < |stack| ==> stack[i].Node?
  {
    if stack == [] then 0 else 1 + Size(stack[|stack| - 1].right) + StackSize(stack[..|stack| - 1])
  }

  lemma RestPush<T>(stack: seq<Tree<T>>, t: Tree<T>)
    requires t.Node? && forall i :: 0 <= i < |stack| ==> stack[i].Node?
    ensures InOrder(t) + Rest(stack) == InOrder(t.left) + Rest(stack + [t])
    ensures Size(t.left) + StackSize(stack + [t]) == Size(t) + StackSize(stack)
  {
    assert (stack + [t])[..|stack|] == stack;
    Four(InOrder(t.left), [Entry(t.pos, t.data)], InOrder(t.right), Rest(stack));
  }

  lemma RestPop<T>(stack: seq<Tree<T>>)
    requires stack != [] && forall i :: 0 <= i < |stack| ==> stack[i].Node?
    ensures var t := stack[|stack| - 1];
      Rest(stack) == [Entry(t.pos, t.data)] + InOrder(t.right) + Rest(stack[..|stack| - 1]) &&
      StackSize(stack) == 1 + Size(t.right) + StackSize(stack[..|stack| - 1])
  {
  }
}
