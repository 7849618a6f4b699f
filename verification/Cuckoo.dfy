/** The cuckoo network. */
module CuckooQuorums {
  // Nodes have positions and are grouped into quorums by region.

  import opened Options
  import opened RangeTrees
  import opened RangeNodes
  import opened Regions

  type NodeId = nat
  type Positions = map<NodeId, real>

  /** k_region_size as an exponent, for a network that is not empty. */
  function KRegionExponent(k: real, log: nat): Option<nat> {
    TwoAbove(k / Pow2(log) as real)
  }

  /** gamma times log many k-regions. */
  function QuorumLength(e: nat, gamma: real, log: nat): real {
    Half(e) * (gamma * log as real)
  }

  /** quorum_region_size as an exponent. */
  function QuorumExponent(k: real, gamma: real, log: nat): Option<nat> {
    if log == 0 then Some(0)
    else
      var e := KRegionExponent(k, log);
      if e.None? then None else TwoAbove(QuorumLength(e.value, gamma, log))
  }

  /** The table of sizes has an answer for every logarithm up to log. */
  ghost predicate SizesKnown(k: real, gamma: real, log: nat) {
    forall l: nat :: l <= log ==> QuorumExponent(k, gamma, l).Some? && KRegionExponent(k, l).Some?
  }

  /** The region of a position that a new node at it clears: all of the interval in an empty network, and
      else of the least size that is at least k divided by two to the logarithm. */
  ghost predicate IsKRegion(r: Region, pos: real, k: real, log: nat, count: nat) {
    && InRegion(r, pos)
    && exists e: nat, i: int :: r == Slot(e, i) && if count == 0 then e == 0 else LeastSize(e, k / Pow2(log) as real)
  }

  ghost predicate Unit(pos: real) {
    0.0 <= pos < 1.0
  }

  // ----- the tree and the positions -----

  /** No two entries share a position. */
  ghost predicate Apart(entries: seq<Entry<NodeId>>) {
    forall i, j :: 0 <= i < j < |entries| ==> entries[i].pos < entries[j].pos
  }

  ghost predicate Holds(entries: seq<Entry<NodeId>>, pos: Positions) {
    && Apart(entries)
    && (forall e :: e in entries ==> e.data in pos && pos[e.data] == e.pos && Unit(e.pos))
    && (forall n :: n in pos ==> Entry(pos[n], n) in entries)
  }

  lemma HoldsAdded(entries: seq<Entry<NodeId>>, a: seq<Entry<NodeId>>, b: seq<Entry<NodeId>>, pos: Positions, n: NodeId, p: real)
    requires Holds(entries, pos) && Between(entries, a, b, p) && n !in pos && Unit(p) && !Has(entries, p)
    ensures Holds(a + [Entry(p, n)] + b, pos[n := p])
  {
    var next := a + [Entry(p, n)] + b;
    ApartAdded(entries, a, b, Entry(p, n));
    hide Apart, Has, Between;
    assert entries == a + b;
    assert forall e :: e in next <==> e in entries || e == Entry(p, n);
  }

  lemma ApartAdded(entries: seq<Entry<NodeId>>, a: seq<Entry<NodeId>>, b: seq<Entry<NodeId>>, e: Entry<NodeId>)
    requires Apart(entries) && Between(entries, a, b, e.pos) && !Has(entries, e.pos)
    ensures Apart(a + [e] + b) && entries == a + b
  {
    var s, t := a + [e] + b, a + b;
    forall i, j | 0 <= i < j < |s| ensures s[i].pos < s[j].pos {
      assert i < |a| ==> s[i] == t[i];
      assert i > |a| ==> s[i] == t[i - 1];
      assert j < |a| ==> s[j] == t[j];
      assert j > |a| ==> s[j] == t[j - 1];
    }
  }

  lemma ApartRemoved(a: seq<Entry<NodeId>>, e: Entry<NodeId>, b: seq<Entry<NodeId>>)
    requires Apart(a + [e] + b)
    ensures Apart(a + b) && Below(a, e.pos) && Above(b, e.pos)
  {
    var s, t := a + [e] + b, a + b;
    assert s[|a|] == e;
    assert forall i :: 0 <= i < |a| ==> t[i] == s[i] && s[i] == a[i];
    assert forall i :: |a| <= i < |t| ==> t[i] == s[i + 1];
    forall i | 0 <= i < |b| ensures e.pos < b[i].pos {
      assert s[|a| + 1 + i] == b[i];
    }
  }

  lemma HoldsRemoved(entries: seq<Entry<NodeId>>, a: seq<Entry<NodeId>>, b: seq<Entry<NodeId>>, pos: Positions, n: NodeId)
    requires Holds(entries, pos) && n in pos && entries == a + [Entry(pos[n], n)] + b
    ensures Holds(a + b, pos - {n})
  {
    ApartRemoved(a, Entry(pos[n], n), b);
    var next := a + b;
    assert forall e :: e in entries <==> e in next || e == Entry(pos[n], n);
    forall e | e in next ensures e.data != n && e in entries {
      assert e.pos != pos[n] by {
        if e in a {
          var i :| 0 <= i < |a| && a[i] == e;
        } else {
          var i :| 0 <= i < |b| && b[i] == e;
        }
      }
    }
  }

  lemma HasPosition(entries: seq<Entry<NodeId>>, pos: Positions, n: NodeId)
    requires Holds(entries, pos) && n in pos
    ensures Has(entries, pos[n]) && Unit(pos[n])
  {
    var i :| 0 <= i < |entries| && entries[i] == Entry(pos[n], n);
  }

  // ----- the quorums -----

  /** The quorums are exactly the regions of size Half(e), and each node is in the quorum of its
      position and in no other. */
  ghost predicate Partition(quorums: map<Region, set<NodeId>>, e: nat, pos: Positions) {
    && quorums.Keys == Slots(e, Pow2(e))
    && forall r, n :: r in quorums ==> (n in quorums[r] <==> InQuorum(e, pos, r, n))
  }

  ghost predicate InQuorum(e: nat, pos: Positions, r: Region, n: NodeId) {
    n in pos && RegionOf(e, pos[n]) == r
  }

  /** What the partition means: a node is in the quorum of a region just when its position is in
      the region, and every node is in exactly one quorum. */
  lemma PartitionByPosition(quorums: map<Region, set<NodeId>>, e: nat, pos: Positions, n: NodeId)
    requires Partition(quorums, e, pos) && n in pos && Unit(pos[n])
    ensures exists r :: r in quorums && n in quorums[r]
    ensures forall r :: r in quorums ==> (n in quorums[r] <==> InRegion(r, pos[n]))
  {
    RegionsTile(e, pos[n]);
    hide Slots, InRegion, RegionOf;
    assert InQuorum(e, pos, RegionOf(e, pos[n]), n);
    forall r | r in quorums ensures n in quorums[r] <==> InRegion(r, pos[n]) {
      assert n in quorums[r] <==> InQuorum(e, pos, r, n);
    }
  }

  lemma PartitionRemoved(quorums: map<Region, set<NodeId>>, e: nat, pos: Positions, n: NodeId)
    requires Partition(quorums, e, pos) && n in pos && Unit(pos[n])
    ensures RegionOf(e, pos[n]) in quorums && n in quorums[RegionOf(e, pos[n])]
    ensures Partition(quorums[RegionOf(e, pos[n]) := quorums[RegionOf(e, pos[n])] - {n}], e, pos - {n})
  {
    RegionsTile(e, pos[n]);
    hide Slots, InRegion, RegionOf;
    var r0 := RegionOf(e, pos[n]);
    assert n in quorums[r0] <==> InQuorum(e, pos, r0, n);
    var next := quorums[r0 := quorums[r0] - {n}];
    assert next.Keys == quorums.Keys;
    forall r, m | r in next ensures m in next[r] <==> InQuorum(e, pos - {n}, r, m) {
      assert m in quorums[r] <==> InQuorum(e, pos, r, m);
    }
  }

  ghost predicate LogOf(log: nat, count: nat) {
    log == if count == 0 then 0 else Log2(count)
  }

  class CuckooNetwork {
    const k: real
    const gamma: real
    const nodes: RangeBST<NodeId>
    /** Positions of the nodes in the tree. */
    var pos: Positions
    var quorums: map<Region, set<NodeId>>
    var log: nat

    /** Everything but the size of the network. */
    ghost predicate Placed()
      reads this, nodes, nodes.Repr
    {
      && nodes.Valid() && Holds(nodes.Entries(), pos)
      && QuorumExponent(k, gamma, log).Some? && Partition(quorums, Exponent(), pos)
    }

    ghost function Exponent(): nat
      requires QuorumExponent(k, gamma, log).Some?
      reads this
    {
      QuorumExponent(k, gamma, log).value
    }

    ghost predicate Valid()
      reads this, nodes, nodes.Repr
    {
      Placed() && LogOf(log, nodes.count)
    }

    /** After the last node has been removed: there are no regions any more, whatever the tree holds. */
    ghost predicate Emptied()
      reads this, nodes, nodes.Repr
    {
      nodes.Valid() && Holds(nodes.Entries(), pos) && quorums == map[] && log == 0
    }

    constructor (k: real, gamma: real)
      ensures Valid() && fresh(nodes.Repr) && pos == map[] && nodes.count == 0
      ensures this.k == k && this.gamma == gamma
    {
      this.k, this.gamma := k, gamma;
      nodes := new RangeBST<NodeId>();
      pos, quorums, log := map[], map[], 0;
      new;
      RedoQuorums();
    }

    /** How large the regions are. The logarithm is that of the number of nodes, rounded down, and with a
        positive logarithm a quorum's region has the least size that is at least gamma * log k-regions. */
    lemma NetworkSizes() returns (kr: nat, size: real, e: nat)
      requires Valid() && nodes.count > 0
      ensures Pow2(log) <= nodes.count < 2 * Pow2(log)
      ensures if log == 0 then e == 0
        else LeastSize(kr, k / Pow2(log) as real) && size == gamma * log as real * Half(kr) && LeastSize(e, size)
      ensures quorums.Keys == Slots(e, Pow2(e)) && forall r :: r in quorums ==> r.end - r.start == Half(e)
    {
      hide QuorumExponent, KRegionExponent, Slots, InQuorum, LeastSize, Half, Times, RangeBST.Valid, RangeBST.Entries, Holds;
      Log2Exact(nodes.count);
      kr, size, e := 0, 1.0, Exponent();
      if log > 0 {
        kr, size := ExponentsExact(k, gamma, log);
      } else {
        ZeroLog(k, gamma);
      }
      forall r | r in quorums ensures r.end - r.start == Half(e) {
        SlotSize(e, r);
      }
    }

    /** quorum_region_size; it looks at the number of nodes only when log is positive. */
    method QuorumRegionSize() returns (e: nat)
      requires QuorumExponent(k, gamma, log).Some? && (log > 0 ==> nodes.count > 0)
      ensures e == Exponent()
    {
      hide TwoAbove, QuorumLength, KRegionExponent;
      if log == 0 {
        return 0;
      }
      var kr := 0;
      if nodes.count > 0 {
        kr := KRegionExponent(k, log).value;
      }
      e := TwoAbove(QuorumLength(kr, gamma, log)).value;
    }

    /** k_region. */
    method KRegion(p: real) returns (r: Region)
      requires nodes.count > 0 ==> KRegionExponent(k, log).Some?
      ensures r == RegionOf(if nodes.count > 0 then KRegionExponent(k, log).value else 0, p)
      ensures r.start < r.end && IsKRegion(r, p, k, log, nodes.count)
    {
      hide TwoAbove, Half, Times;
      var e := 0;
      if nodes.count > 0 {
        e := KRegionExponent(k, log).value;
        TwoAboveExact(k / Pow2(log) as real);
      }
      r := RegionOf(e, p);
      TimesLess(Half(e), SlotNumber(e, p), SlotNumber(e, p) + 1);
      OnlyRegion(e, p, SlotNumber(e, p));
    }

    /** Fails when the node's region is not a key. */
    method AddToQuorums(node: NodeId, p: real, ghost before: Positions) returns (ok: bool)
      requires QuorumExponent(k, gamma, log).Some? && (quorums == map[] || Partition(quorums, Exponent(), before))
      requires (log > 0 ==> nodes.count > 0) && node !in before && Unit(p)
      modifies `quorums
      ensures ok <==> old(quorums) != map[]
      ensures ok ==> Partition(quorums, Exponent(), before[node := p])
      ensures !ok ==> quorums == map[]
    {
      hide QuorumExponent, Partition, RegionOf;
      var e := QuorumRegionSize();
      var reg := RegionOf(e, p);
      if quorums != map[] {
        PartitionAgain(quorums, e, before, node, p);
      }
      ok := reg in quorums;
      if ok {
        quorums := quorums[reg := quorums[reg] + {node}];
      }
    }

    /** Fails in the same case. */
    method RemoveFromQuorums(node: NodeId) returns (ok: bool)
      requires QuorumExponent(k, gamma, log).Some? && (quorums == map[] || Partition(quorums, Exponent(), pos))
      requires (log > 0 ==> nodes.count > 0) && node in pos && Unit(pos[node])
      modifies `quorums
      ensures ok <==> old(quorums) != map[]
      ensures ok ==> Partition(quorums, Exponent(), pos - {node})
      ensures !ok ==> quorums == map[]
    {
      hide QuorumExponent, Partition, RegionOf;
      var e := QuorumRegionSize();
      var reg := RegionOf(e, pos[node]);
      if quorums != map[] {
        PartitionRemoved(quorums, e, pos, node);
      }
      ok := reg in quorums;
      if ok {
        quorums := quorums[reg := quorums[reg] - {node}];
      }
    }

    /** Makes the regions of the current size anew and puts every node into its own. */
    method RedoQuorums()
      requires QuorumExponent(k, gamma, log).Some? && (log > 0 ==> nodes.count > 0)
      requires nodes.Valid() && Holds(nodes.Entries(), pos)
      modifies `quorums
      ensures Partition(quorums, Exponent(), pos)
    {
      hide QuorumExponent, Partition, RegionOf, Holds, RangeBST.Valid, RangeBST.Entries;
      var e := QuorumRegionSize();
      quorums := EmptyQuorums(e);
      var order := nodes.Iterate();
      NoneVisited(quorums, e, order, pos);
      for i := 0 to |order|
        invariant Partition(quorums, e, Visited(order, i, pos))
      {
        NextVisited(order, i, pos);
        PartitionAgain(quorums, e, Visited(order, i, pos), order[i].data, pos[order[i].data]);
        var r := RegionOf(e, pos[order[i].data]);
        quorums := quorums[r := quorums[r] + {order[i].data}];
      }
      AllVisited(order, pos);
    }

    static method EmptyQuorums(e: nat) returns (quorums: map<Region, set<NodeId>>)
      ensures quorums.Keys == Slots(e, Pow2(e)) && forall r :: r in quorums ==> quorums[r] == {}
    {
      hide Half, Pow2, Slot, Slots, Times;
      var size, cur := Half(e), 0.0;
      quorums := map[];
      ghost var i: nat := 0;
      SlotStart(e, 0);
      SlotsNext(e, 0);
      while cur < 1.0
        invariant cur == Times(Half(e), i) && i <= Pow2(e)
        invariant quorums.Keys == Slots(e, i) && forall r :: r in quorums ==> quorums[r] == {}
        decreases Pow2(e) - i
      {
        SlotStart(e, i);
        quorums := quorums[Region(cur, cur + size) := {}];
        SlotsNext(e, i);
        cur := cur + size;
        i := i + 1;
      }
      SlotStart(e, i);
    }

    /** Puts the node into the tree. */
    method AddNode(node: NodeId, p: real)
      requires nodes.Valid() && Holds(nodes.Entries(), pos) && node !in pos && Unit(p) && !Has(nodes.Entries(), p)
      modifies `pos, nodes.Repr
      ensures fresh(nodes.Repr - old(nodes.Repr)) && pos == old(pos)[node := p]
      ensures nodes.Valid() && Holds(nodes.Entries(), pos) && nodes.count == old(nodes.count) + 1
      ensures forall x: real :: Has(nodes.Entries(), x) ==> Has(old(nodes.Entries()), x) || x == p
    {
      hide Holds, Unit, Has, Between;
      ghost var entries, before := nodes.Entries(), pos;
      nodes.Add(p, node);
      pos := pos[node := p];
      ghost var a, b :| Between(entries, a, b, p) && nodes.Entries() == a + [Entry(p, node)] + b;
      HoldsAdded(entries, a, b, before, node, p);
      BetweenParts(entries, a, b, p);
      HasAfterAdding(entries, a, b, Entry(p, node));
    }

    /** Takes the node out of the tree. */
    method DropNode(node: NodeId)
      requires nodes.Valid() && Holds(nodes.Entries(), pos) && node in pos
      modifies `pos, nodes.Repr
      ensures fresh(nodes.Repr - old(nodes.Repr)) && pos == old(pos) - {node}
      ensures nodes.Valid() && Holds(nodes.Entries(), pos) && nodes.count == old(nodes.count) - 1
      ensures forall x: real :: Has(nodes.Entries(), x) ==> Has(old(nodes.Entries()), x)
    {
      hide Holds, Has, Below, Above;
      HasPosition(nodes.Entries(), pos, node);
      ghost var a, b, data := DeleteExact(nodes.Tree(), pos[node]);
      ghost var entries, before := nodes.Entries(), pos;
      var ok := nodes.Remove(pos[node]);
      pos := pos - {node};
      DataAt(entries, a, b, before, node, data.value);
      HoldsRemoved(entries, a, b, before, node);
      HasAfterAdding(nodes.Entries(), a, b, Entry(before[node], node));
    }

    /** Fails exactly when the last node has been removed before: then the quorums have no regions, and
        that stays so, though the node is in the tree. */
    method BootstrapJoin(node: NodeId, p: real) returns (ok: bool)
      requires (Valid() || Emptied()) && node !in pos && Unit(p) && !Has(nodes.Entries(), p)
      requires SizesKnown(k, gamma, Log2(nodes.count + 1))
      modifies this, nodes.Repr
      ensures fresh(nodes.Repr - old(nodes.Repr))
      ensures ok <==> !old(Emptied())
      ensures if ok then Valid() else Emptied()
      ensures pos == old(pos)[node := p] && nodes.count == old(nodes.count) + 1
    {
      hide QuorumExponent, Partition, Holds, RangeBST.Valid, RangeBST.Entries, SizesKnown, Unit, Log2;
      NotBoth();
      ghost var before := pos;
      AddNode(node, p);
      ok := AddToQuorums(node, p, before);
      if ok {
        Grow();
      }
    }

    /** A network that can work has at least one region. */
    lemma NotBoth()
      ensures Placed() ==> quorums != map[]
      ensures Valid() ==> !Emptied()
      ensures Valid() || Emptied() ==> QuorumExponent(k, gamma, log).Some? && nodes.Valid() && Holds(nodes.Entries(), pos)
      ensures Valid() || Emptied() ==> (log > 0 ==> nodes.count > 1)
    {
      if Placed() {
        UnitSlot(Exponent());
      }
      if Valid() {
        LogPositive(log, nodes.count);
      }
    }

    lemma SizesNow()
      requires (Valid() || Emptied()) && SizesKnown(k, gamma, Log2(nodes.count + 1))
      ensures KRegionExponent(k, log).Some?
    {
      hide QuorumExponent, KRegionExponent, SizesKnown, Placed, Holds, Log2, RangeBST.Valid, RangeBST.Entries;
      if Valid() {
        LogIsKnown(k, gamma, log, nodes.count);
      } else {
        KnownAtZero(k, gamma, Log2(nodes.count + 1));
      }
    }

    /** After a join: the quorums are made anew when the logarithm of the size has grown. */
    method Grow()
      requires Placed() && nodes.count > 0 && LogOf(log, nodes.count - 1)
      requires SizesKnown(k, gamma, Log2(nodes.count))
      modifies `log, `quorums
      ensures Valid()
    {
      hide QuorumExponent, Partition, Holds, RangeBST.Valid, RangeBST.Entries, Log2;
      LogGrows(nodes.count);
      if Log2(nodes.count) > log {
        log := Log2(nodes.count);
        RedoQuorums();
      }
    }

    /** k_region_nodes: what the tree finds in the k-region of the position. */
    method KRegionNodes(p: real) returns (found: seq<NodeId>)
      requires nodes.Valid() && Holds(nodes.Entries(), pos) && (nodes.count > 0 ==> KRegionExponent(k, log).Some?)
      ensures |found| <= nodes.count && forall n :: n in found ==> n in pos
      ensures exists r: Region :: IsKRegion(r, p, k, log, nodes.count) && found == Range(nodes.Tree(), r.start, r.end)
    {
      hide KRegionExponent, Holds, IsKRegion, Range;
      CountIs(nodes);
      var region := KRegion(p);
      found := nodes.RangeOf(region.start, region.end);
      EvictedAreNodes(nodes.Tree(), region.start, region.end, pos);
    }

    /** The nodes that the tree finds in the k-region of the position move elsewhere; then the node
        joins. It fails exactly when the last node has been removed before, and then nothing moves. */
    method Join(node: NodeId, rand: real, moves: seq<real>) returns (evict: seq<NodeId>, ok: bool)
      requires (Valid() || Emptied()) && node !in pos && SizesKnown(k, gamma, Log2(nodes.count + 1))
      requires NewPositions(nodes.Entries(), rand, moves) && |moves| >= nodes.count
      modifies this, nodes.Repr
      ensures fresh(nodes.Repr - old(nodes.Repr))
      ensures ok <==> !old(Emptied())
      ensures ok ==> Valid() && nodes.count == old(nodes.count) + 1
      ensures ok ==> node in pos && pos[node] == rand && pos.Keys == old(pos.Keys) + {node}
      ensures ok ==> forall n :: n in old(pos) ==> if n in evict then pos[n] in moves else pos[n] == old(pos)[n]
      ensures !ok ==> Emptied() && pos == old(pos) && nodes.Tree() == old(nodes.Tree())
      ensures exists r: Region :: IsKRegion(r, rand, k, old(log), old(nodes.count)) && evict == Range(old(nodes.Tree()), r.start, r.end)
    {
      hide QuorumExponent, KRegionExponent, Partition, Holds, RangeBST.Valid, RangeBST.Tree, RangeBST.Entries;
      hide SizesKnown, Unit, Has, Log2, StillNew, IsKRegion, Range;
      NotBoth();
      SizesNow();
      evict := KRegionNodes(rand);
      ok := Relocate(evict, rand, moves);
      if !ok {
        return;
      }
      NotBoth();
      RandIsNew(nodes.Entries(), rand, moves, |evict|);
      ok := AddAtRandom(node, rand);
      if ok {
        Grow();
      }
    }

    /** The evicted nodes move to new positions, one after the other. Without regions the first one
        fails. */
    method Relocate(evict: seq<NodeId>, ghost rand: real, moves: seq<real>) returns (ok: bool)
      requires (Valid() || Emptied()) && StillNew(nodes.Entries(), rand, moves, 0)
      requires |evict| <= |moves| && forall n :: n in evict ==> n in pos
      modifies this, nodes.Repr
      ensures fresh(nodes.Repr - old(nodes.Repr)) && nodes.count == old(nodes.count) && log == old(log)
      ensures ok <==> !old(Emptied()) || evict == []
      ensures if old(Emptied()) then Emptied() && pos == old(pos) && nodes.Tree() == old(nodes.Tree()) else Valid()
      ensures ok ==> StillNew(nodes.Entries(), rand, moves, |evict|)
      ensures pos.Keys == old(pos.Keys)
      ensures !old(Emptied()) ==> forall n :: n in pos ==> if n in evict then pos[n] in moves else pos[n] == old(pos)[n]
    {
      hide QuorumExponent, KRegionExponent, Partition, Holds, RangeBST.Valid, RangeBST.Tree, RangeBST.Entries;
      hide Unit, Has, StillNew, Log2;
      NotBoth();
      for i := 0 to |evict|
        invariant fresh(nodes.Repr - old(nodes.Repr)) && nodes.count == old(nodes.count) && log == old(log)
        invariant if old(Emptied()) then i == 0 && Emptied() && pos == old(pos) && nodes.Tree() == old(nodes.Tree()) else Valid()
        invariant StillNew(nodes.Entries(), rand, moves, i) && pos.Keys == old(pos.Keys)
        invariant !old(Emptied()) ==> forall n :: n in pos ==> if n in evict[..i] then pos[n] in moves else pos[n] == old(pos)[n]
      {
        TakeNew(nodes.Entries(), rand, moves, i);
        assert evict[i] in evict && evict[..i + 1] == evict[..i] + [evict[i]];
        NotBoth();
        ok := Move(evict[i], moves[i], rand, moves, i);
        if !ok {
          return;
        }
      }
      assert evict[..|evict|] == evict;
      ok := true;
    }

    method AddAtRandom(node: NodeId, rand: real) returns (ok: bool)
      requires (Valid() || Emptied()) && node !in pos && Unit(rand) && !Has(nodes.Entries(), rand)
      modifies this, nodes.Repr
      ensures fresh(nodes.Repr - old(nodes.Repr)) && log == old(log)
      ensures ok <==> !old(Emptied())
      ensures ok ==> Placed() && LogOf(log, old(nodes.count)) && nodes.count == old(nodes.count) + 1 && pos == old(pos)[node := rand]
      ensures !ok ==> Emptied() && pos == old(pos) && nodes.Tree() == old(nodes.Tree()) && nodes.count == old(nodes.count)
    {
      hide QuorumExponent, Partition, Holds, RangeBST.Valid, RangeBST.Tree, RangeBST.Entries, Unit, Has, Log2;
      NotBoth();
      ok := AddToQuorums(node, rand, pos);
      if ok {
        AddNode(node, rand);
      }
    }

    /** One node of the k-region moves to a new position. */
    method Move(evicted: NodeId, p: real, ghost rand: real, ghost moves: seq<real>, ghost i: nat) returns (ok: bool)
      requires (Valid() || Emptied()) && evicted in pos && Unit(p) && !Has(nodes.Entries(), p)
      requires i < |moves| && p == moves[i] && StillNew(nodes.Entries(), rand, moves, i)
      modifies this, nodes.Repr
      ensures fresh(nodes.Repr - old(nodes.Repr)) && nodes.count == old(nodes.count) && log == old(log)
      ensures ok <==> !old(Emptied())
      ensures ok ==> Valid() && pos == old(pos)[evicted := p] && StillNew(nodes.Entries(), rand, moves, i + 1)
      ensures !ok ==> Emptied() && pos == old(pos) && nodes.Tree() == old(nodes.Tree())
    {
      hide QuorumExponent, Partition, Holds, RangeBST.Valid, RangeBST.Tree, RangeBST.Entries, Unit, Has, StillNew, Log2;
      NotBoth();
      HasPosition(nodes.Entries(), pos, evicted);
      CountPositive(nodes.Entries(), pos, evicted, nodes);
      ghost var entries, before := nodes.Entries(), pos;
      ok := RemoveFromQuorums(evicted);
      if !ok {
        return;
      }
      PartitionHasRegions(quorums, Exponent(), pos - {evicted});
      DropNode(evicted);
      ghost var rest := pos;
      AddNode(evicted, p);
      ok := AddToQuorums(evicted, p, rest);
      assert rest[evicted := p] == before[evicted := p];
      StaysNew(entries, nodes.Entries(), rand, moves, i);
    }

    /** Removing the last node leaves no regions at all; after that every removal fails, too. */
    method Remove(node: NodeId) returns (ok: bool)
      requires (Valid() || Emptied()) && node in pos && SizesKnown(k, gamma, log)
      modifies this, nodes.Repr
      ensures fresh(nodes.Repr - old(nodes.Repr))
      ensures ok <==> !old(Emptied())
      ensures ok ==> if old(nodes.count) > 1 then Valid() else Emptied()
      ensures ok ==> pos == old(pos) - {node} && nodes.count == old(nodes.count) - 1
      ensures !ok ==> Emptied() && pos == old(pos) && nodes.Tree() == old(nodes.Tree())
    {
      hide QuorumExponent, Partition, Holds, RangeBST.Valid, RangeBST.Tree, RangeBST.Entries, Log2;
      NotBoth();
      HasPosition(nodes.Entries(), pos, node);
      CountPositive(nodes.Entries(), pos, node, nodes);
      LogGrows(nodes.count);
      ok := RemoveFromQuorums(node);
      if !ok {
        return;
      }
      DropNode(node);
      if nodes.count == 0 {
        quorums := map[];
        ZeroLog(k, gamma);
      } else if Log2(nodes.count) < log {
        log := Log2(nodes.count);
        RedoQuorums();
      }
    }
  }

  lemma ExponentsExact(k: real, gamma: real, log: nat) returns (kr: nat, size: real)
    requires log > 0 && QuorumExponent(k, gamma, log).Some?
    ensures LeastSize(kr, k / Pow2(log) as real)
    ensures size == gamma * log as real * Half(kr) && LeastSize(QuorumExponent(k, gamma, log).value, size)
  {
    hide TwoAbove, Half, QuorumLength, LeastSize;
    kr := KRegionExponent(k, log).value;
    size := QuorumLength(kr, gamma, log);
    TwoAboveExact(k / Pow2(log) as real);
    TwoAboveExact(size);
    LengthIs(kr, gamma, log);
  }

  lemma LengthIs(e: nat, gamma: real, log: nat)
    ensures QuorumLength(e, gamma, log) == gamma * log as real * Half(e)
  {
    hide Half;
    Commuted(gamma * log as real, Half(e));
  }

  lemma Commuted(x: real, y: real)
    ensures x * y == y * x
  {
  }

  lemma SlotSize(e: nat, r: Region)
    requires r in Slots(e, Pow2(e))
    ensures r.end - r.start == Half(e)
  {
    var i :| 0 <= i < Pow2(e) && Slot(e, i) == r;
    SlotStart(e, i);
  }

  lemma ZeroLog(k: real, gamma: real)
    ensures QuorumExponent(k, gamma, 0) == Some(0) && Log2(1) == 0
  {
  }

  lemma UnitSlot(e: nat)
    ensures RegionOf(e, 0.0) in Slots(e, Pow2(e))
  {
    hide *;
    RegionsTile(e, 0.0);
  }

  lemma PartitionHasRegions(quorums: map<Region, set<NodeId>>, e: nat, pos: Positions)
    requires Partition(quorums, e, pos)
    ensures quorums != map[]
  {
    UnitSlot(e);
    hide Slots, RegionOf;
  }

  lemma LogPositive(log: nat, count: nat)
    requires LogOf(log, count)
    ensures log > 0 ==> count > 1
  {
  }

  lemma KnownAtZero(k: real, gamma: real, log: nat)
    requires SizesKnown(k, gamma, log)
    ensures KRegionExponent(k, 0).Some?
  {
    hide QuorumExponent, KRegionExponent;
  }

  lemma LogIsKnown(k: real, gamma: real, log: nat, count: nat)
    requires LogOf(log, count) && SizesKnown(k, gamma, Log2(count + 1))
    ensures KRegionExponent(k, log).Some? && QuorumExponent(k, gamma, log).Some?
    ensures log > 0 ==> count > 1
  {
    hide QuorumExponent, KRegionExponent;
    LogGrows(count + 1);
    assert log <= Log2(count + 1);
  }

  lemma {:induction false} LogGrows(n: nat)
    requires n > 0
    ensures Log2(n - 1) <= Log2(n) && Log2(1) == 0
    decreases n
  {
    if n >= 3 && n % 2 == 0 {
      LogGrows(n / 2);
      assert (n - 1) / 2 == n / 2 - 1;
    }
  }

  lemma CountPositive(entries: seq<Entry<NodeId>>, pos: Positions, n: NodeId, nodes: RangeBST<NodeId>)
    requires nodes.Valid() && entries == nodes.Entries() && Holds(entries, pos) && n in pos
    ensures nodes.count > 0
  {
    assert Entry(pos[n], n) in entries;
  }

  /** Positions that are not in use and differ from each other. */
  ghost predicate NewPositions(entries: seq<Entry<NodeId>>, rand: real, moves: seq<real>) {
    StillNew(entries, rand, moves, 0)
  }

  ghost predicate StillNew(entries: seq<Entry<NodeId>>, rand: real, moves: seq<real>, i: nat) {
    && Unit(rand) && !Has(entries, rand)
    && (forall j :: i <= j < |moves| ==> Unit(moves[j]) && !Has(entries, moves[j]) && moves[j] != rand)
    && (forall j, l :: i <= j < l < |moves| ==> moves[j] != moves[l])
  }

  lemma TakeNew(entries: seq<Entry<NodeId>>, rand: real, moves: seq<real>, i: nat)
    requires StillNew(entries, rand, moves, i) && i < |moves|
    ensures Unit(moves[i]) && !Has(entries, moves[i])
  {
  }

  lemma RandIsNew(entries: seq<Entry<NodeId>>, rand: real, moves: seq<real>, i: nat)
    requires StillNew(entries, rand, moves, i)
    ensures Unit(rand) && !Has(entries, rand)
  {
  }

  lemma CountIs(nodes: RangeBST<NodeId>)
    requires nodes.Valid()
    ensures Search(nodes.Tree()) && nodes.count == |InOrder(nodes.Tree())| == |nodes.Entries()|
  {
  }

  lemma StaysNew(entries: seq<Entry<NodeId>>, after: seq<Entry<NodeId>>, rand: real, moves: seq<real>, i: nat)
    requires StillNew(entries, rand, moves, i) && i < |moves|
    requires forall x: real :: Has(after, x) ==> Has(entries, x) || x == moves[i]
    ensures StillNew(after, rand, moves, i + 1)
  {
    hide Has, Unit;
  }

  lemma BetweenParts(entries: seq<Entry<NodeId>>, a: seq<Entry<NodeId>>, b: seq<Entry<NodeId>>, p: real)
    requires Between(entries, a, b, p)
    ensures entries == a + b
  {
  }

  lemma HasAfterAdding(entries: seq<Entry<NodeId>>, a: seq<Entry<NodeId>>, b: seq<Entry<NodeId>>, e: Entry<NodeId>)
    requires entries == a + b
    ensures forall x: real :: Has(a + [e] + b, x) <==> Has(entries, x) || x == e.pos
  {
    hide Has;
    forall x: real ensures Has(a + [e] + b, x) <==> Has(entries, x) || x == e.pos {
      HasParts(a, [e], b, x);
      HasParts(a, [], b, x);
      HasOne(e, x);
      NoneThere<NodeId>(x);
      assert a + [] + b == a + b;
    }
  }

  /** The entry that is deleted at a node's position is the node's own. */
  lemma DataAt(entries: seq<Entry<NodeId>>, a: seq<Entry<NodeId>>, b: seq<Entry<NodeId>>, pos: Positions, n: NodeId, data: NodeId)
    requires Holds(entries, pos) && n in pos && entries == a + [Entry(pos[n], data)] + b
    ensures data == n
  {
    ApartRemoved(a, Entry(pos[n], data), b);
    var e := Entry(pos[n], n);
    var i :| 0 <= i < |entries| && entries[i] == e;
    forall j | 0 <= j < |entries| && j != |a| ensures entries[j].pos != pos[n] {
      if j < |a| { assert entries[j] == a[j]; } else { assert entries[j] == b[j - |a| - 1]; }
    }
  }

  lemma EvictedAreNodes(t: Tree<NodeId>, low: real, high: real, pos: Positions)
    requires Search(t) && low < high && Holds(InOrder(t), pos)
    ensures forall n :: n in Range(t, low, high) ==> n in pos
    ensures |Range(t, low, high)| <= |InOrder(t)|
  {
    hide Search, Range, Inside;
    var x, y, z := RangeStretch(t, low, high);
    forall n | n in Range(t, low, high) ensures n in pos {
      var i :| 0 <= i < |y| && Datas(y)[i] == n;
      assert y[i] in InOrder(t);
    }
  }

  // ----- making the quorums anew -----

  lemma SlotStart(e: nat, i: nat)
    ensures Slot(e, i) == Region(Times(Half(e), i), Times(Half(e), i) + Half(e))
    ensures Times(Half(e), 0) == 0.0 && Times(Half(e), i + 1) == Times(Half(e), i) + Half(e)
    ensures Times(Half(e), i) < 1.0 <==> i < Pow2(e)
  {
    hide Half, Pow2, Times;
    UnitEnds(e);
    TimesNext(Half(e), i);
    TimesLess(Half(e), i, Pow2(e));
  }

  lemma SlotsNext(e: nat, i: nat)
    ensures Slots(e, i + 1) == Slots(e, i) + {Slot(e, i)} && Slots(e, 0) == {}
  {
    hide Slot;
  }

  /** The positions of the first i nodes of the list. */
  ghost function Visited(order: seq<Entry<NodeId>>, i: nat, pos: Positions): (r: Positions)
    requires i <= |order|
  {
    map n | n in pos && Entry(pos[n], n) in order[..i] :: pos[n]
  }

  lemma NoneVisited(quorums: map<Region, set<NodeId>>, e: nat, order: seq<Entry<NodeId>>, pos: Positions)
    requires quorums.Keys == Slots(e, Pow2(e)) && forall r :: r in quorums ==> quorums[r] == {}
    ensures Partition(quorums, e, Visited(order, 0, pos))
  {
    hide Slots;
  }

  lemma NextVisited(order: seq<Entry<NodeId>>, i: nat, pos: Positions)
    requires i < |order| && Holds(order, pos)
    ensures order[i].data in pos && Unit(pos[order[i].data])
    ensures Visited(order, i + 1, pos) == Visited(order, i, pos)[order[i].data := pos[order[i].data]]
  {
    assert order[i] in order;
    assert order[..i + 1] == order[..i] + [order[i]];
  }

  lemma AllVisited(order: seq<Entry<NodeId>>, pos: Positions)
    requires Holds(order, pos)
    ensures Visited(order, |order|, pos) == pos
  {
    assert order[..|order|] == order;
  }

  /** Adding a node that may already be in its quorum. */
  lemma PartitionAgain(quorums: map<Region, set<NodeId>>, e: nat, pos: Positions, n: NodeId, p: real)
    requires Partition(quorums, e, pos) && (n in pos ==> pos[n] == p) && Unit(p)
    ensures RegionOf(e, p) in quorums
    ensures Partition(quorums[RegionOf(e, p) := quorums[RegionOf(e, p)] + {n}], e, pos[n := p])
  {
    RegionsTile(e, p);
    hide Slots, InRegion, RegionOf;
    var r0 := RegionOf(e, p);
    var next := quorums[r0 := quorums[r0] + {n}];
    assert next.Keys == quorums.Keys;
    forall r, m | r in next ensures m in next[r] <==> InQuorum(e, pos[n := p], r, m) {
      assert m in quorums[r] <==> InQuorum(e, pos, r, m);
    }
  }
}
