/** The permutation gates of Gate.cs, and the part of the network of LPSorting.cs that they serve:
    one wire is inserted into each of several interleaved sorted lists. */
module PermutationGates {
  import opened WireOps
  import opened SortingTheory

  // ----- a table with an inverse is a permutation -----

  ghost predicate InverseTables(p: seq<nat>, q: seq<nat>) {
    && |p| == |q|
    && (forall i :: 0 <= i < |p| ==> p[i] < |p| && q[p[i]] == i)
    && (forall j :: 0 <= j < |p| ==> q[j] < |p| && p[q[j]] == j)
  }

  lemma InvertibleIsBijective(p: seq<nat>, q: seq<nat>)
    requires InverseTables(p, q)
    ensures Bijective(p) && forall j :: 0 <= j < |p| ==> Unpermute(p, j, 0) == q[j]
  {
    forall i, j | 0 <= i < j < |p| ensures p[i] != p[j] {
      assert q[p[i]] == i && q[p[j]] == j;
    }
    forall j | 0 <= j < |p| ensures j in p && Unpermute(p, j, 0) == q[j] {
      assert p[q[j]] == j;
      assert p[0..] == p;
      assert q[p[Unpermute(p, j, 0)]] == q[j];
    }
  }

  // ----- tables read row by row -----

  /** Cell r of row q, when a row has m cells. */
  function Cell(q: int, r: int, m: int): int { q * m + r }

  function Row(i: int, m: int): int
    requires m > 0
  {
    i / m
  }

  function Column(i: int, m: int): int
    requires m > 0
  {
    i % m
  }

  lemma RowOfCell(q: int, r: int, m: int)
    requires 0 <= r < m
    ensures Row(Cell(q, r, m), m) == q && Column(Cell(q, r, m), m) == r
  {
    var n := q * m + r;
    QuotientUnique(q - n / m, r - n % m, m);
  }

  lemma QuotientUnique(d: int, e: int, m: int)
    requires m > 0 && d * m + e == 0 && -m < e < m
    ensures d == 0 && e == 0
  {
  }

  lemma CellInTable(q: int, r: int, m: int, rows: int)
    requires 0 <= q < rows && 0 <= r < m
    ensures 0 <= Cell(q, r, m) < rows * m
  {
    assert (q + 1) * m <= rows * m;
  }

  lemma CellOfRow(i: int, m: int, rows: int)
    requires m > 0 && 0 <= i < rows * m
    ensures 0 <= Row(i, m) < rows && 0 <= Column(i, m) < m && Cell(Row(i, m), Column(i, m), m) == i
  {
    RowBelow(i / m, i % m, m, rows);
  }

  lemma RowBelow(q: int, r: int, m: int, rows: int)
    requires m > 0 && 0 <= r < m && 0 <= q * m + r < rows * m
    ensures 0 <= q < rows
  {
    if q >= rows {
      ProductMore(q, rows, m);
    } else if q < 0 {
      ProductMore(-1, q, m);
    }
  }

  lemma ProductMore(a: int, b: int, m: int)
    requires a >= b && m >= 0
    ensures a * m >= b * m
  {
  }

  lemma PositiveFactor(i: nat, a: nat, b: nat)
    requires i < a * b
    ensures a > 0
  {
  }

  // ----- shuffle and unshuffle -----

  /** CreateShuffleGate: from numGroups consecutive lists to one in which they take turns. */
  function Shuffled(count: nat, numGroups: nat, input: nat): int
    requires 0 < numGroups && count / numGroups > 0
  {
    Cell(Column(input, count / numGroups), Row(input, count / numGroups), numGroups)
  }

  /** CreateUnshuffleGate: wire i goes to list i mod numGroups, at place i / numGroups. */
  function Unshuffled(count: nat, numGroups: nat, input: nat): int
    requires numGroups > 0
  {
    Cell(Column(input, numGroups), Row(input, numGroups), count / numGroups)
  }

  ghost predicate Groups(count: nat, numGroups: nat, size: nat) {
    numGroups > 0 && count == numGroups * size
  }

  lemma GroupSize(count: nat, numGroups: nat, size: nat)
    requires Groups(count, numGroups, size)
    ensures count / numGroups == size && count == size * numGroups
  {
    hide Cell, Row, Column;
    CellOfWhole(count, numGroups, size);
    RowOfCell(size, 0, numGroups);
    RowIsQuotient(count, numGroups);
  }

  lemma PositiveSize(count: nat, numGroups: nat, size: nat)
    requires Groups(count, numGroups, size)
    ensures count > 0 ==> size > 0
  {
  }

  lemma CellOfWhole(count: int, numGroups: int, size: int)
    requires count == numGroups * size
    ensures Cell(size, 0, numGroups) == count == size * numGroups
  {
  }

  lemma RowIsQuotient(i: int, m: int)
    requires m > 0
    ensures Row(i, m) == i / m
  {
  }

  lemma ShuffleRoundTrip(count: nat, numGroups: nat, size: nat, i: nat)
    requires Groups(count, numGroups, size) && i < count
    ensures count / numGroups > 0 && 0 <= Shuffled(count, numGroups, i) < count
    ensures 0 <= Unshuffled(count, numGroups, i) < count
    ensures Unshuffled(count, numGroups, Shuffled(count, numGroups, i)) == i
    ensures Shuffled(count, numGroups, Unshuffled(count, numGroups, i)) == i
  {
    hide Cell, Row, Column;
    PositiveFactor(i, size, numGroups);
    GroupSize(count, numGroups, size);
    Transposed(count, numGroups, size, i);
    Transposed(count, size, numGroups, i);
  }

  /** Reading a table column by column moves cell i to where the transposed table has it. */
  lemma Transposed(count: int, rows: int, m: int, i: int)
    requires rows > 0 && m > 0 && count == rows * m && count == m * rows && 0 <= i < count
    ensures var j := Cell(Column(i, m), Row(i, m), rows); 0 <= j < count && Cell(Column(j, rows), Row(j, rows), m) == i
  {
    hide Cell, Row, Column;
    CellOfRow(i, m, rows);
    CellInTable(Column(i, m), Row(i, m), rows, m);
    RowOfCell(Column(i, m), Row(i, m), rows);
  }

  function ShuffledTo(count: nat, numGroups: nat, size: nat, i: nat): (j: nat)
    requires Groups(count, numGroups, size) && i < count
    ensures count / numGroups > 0 && j == Shuffled(count, numGroups, i)
  {
    ShuffleRoundTrip(count, numGroups, size, i);
    Shuffled(count, numGroups, i)
  }

  function UnshuffledTo(count: nat, numGroups: nat, size: nat, i: nat): (j: nat)
    requires Groups(count, numGroups, size) && i < count
    ensures j == Unshuffled(count, numGroups, i)
  {
    ShuffleRoundTrip(count, numGroups, size, i);
    Unshuffled(count, numGroups, i)
  }

  function ShuffleTable(count: nat, numGroups: nat, size: nat): (p: seq<nat>)
    requires Groups(count, numGroups, size)
    ensures |p| == count && (count > 0 ==> count / numGroups > 0)
    ensures forall i :: 0 <= i < count ==> p[i] == ShuffledTo(count, numGroups, size, i)
  {
    GroupSize(count, numGroups, size);
    PositiveSize(count, numGroups, size);
    seq(count, i requires 0 <= i < count => ShuffledTo(count, numGroups, size, i))
  }

  function UnshuffleTable(count: nat, numGroups: nat, size: nat): (p: seq<nat>)
    requires Groups(count, numGroups, size)
    ensures |p| == count && forall i :: 0 <= i < count ==> p[i] == UnshuffledTo(count, numGroups, size, i)
  {
    seq(count, i requires 0 <= i < count => UnshuffledTo(count, numGroups, size, i))
  }

  /** Shuffling and unshuffling are permutations and undo each other. */
  lemma ShuffleAndUnshuffle(count: nat, numGroups: nat, size: nat)
    requires Groups(count, numGroups, size)
    ensures InverseTables(ShuffleTable(count, numGroups, size), UnshuffleTable(count, numGroups, size))
    ensures Bijective(ShuffleTable(count, numGroups, size)) && Bijective(UnshuffleTable(count, numGroups, size))
  {
    hide Shuffled, Unshuffled, Bijective;
    var p, q := ShuffleTable(count, numGroups, size), UnshuffleTable(count, numGroups, size);
    forall i | 0 <= i < count ensures p[i] < count && q[p[i]] == i && q[i] < count && p[q[i]] == i {
      ShuffleRoundTrip(count, numGroups, size, i);
    }
    InvertibleIsBijective(p, q);
    InvertibleIsBijective(q, p);
  }

  // ----- the inserter -----

  /** CreateMultiGroupInserterGate: numGroups lists of groupSize wires come first, then one wire for
      each list, which the gate puts in front of its list. */
  function Inserted(groupSize: nat, numGroups: nat, input: nat): int {
    if input < groupSize * numGroups then
      PositiveFactor(input, groupSize, numGroups);
      input + Row(input, groupSize) + 1
    else
      Cell(input - groupSize * numGroups, 0, groupSize + 1)
  }

  function InsertedFrom(groupSize: nat, numGroups: nat, output: nat): int {
    var group, place := Row(output, groupSize + 1), Column(output, groupSize + 1);
    if place == 0 then groupSize * numGroups + group else Cell(group, place - 1, groupSize)
  }

  lemma OneLonger(group: int, place: int, groupSize: int)
    ensures Cell(group, place, groupSize) + group + 1 == Cell(group, place + 1, groupSize + 1)
  {
  }

  lemma ProductParts(groupSize: int, numGroups: int)
    ensures numGroups * (groupSize + 1) == groupSize * numGroups + numGroups
    ensures numGroups * groupSize == groupSize * numGroups
  {
  }

  /** The wire for a list, and the members of the list. */
  lemma InsertedPlaces(groupSize: nat, numGroups: nat, group: nat, place: nat)
    requires group < numGroups && place < groupSize
    ensures 0 <= Cell(group, place, groupSize) < groupSize * numGroups
    ensures Inserted(groupSize, numGroups, Cell(group, place, groupSize)) == Cell(group, place + 1, groupSize + 1)
  {
    hide Cell, Row, Column;
    CellInTable(group, place, groupSize, numGroups);
    ProductParts(groupSize, numGroups);
    RowOfCell(group, place, groupSize);
    OneLonger(group, place, groupSize);
  }

  lemma InsertedFronts(groupSize: nat, numGroups: nat, group: nat)
    requires group < numGroups
    ensures groupSize * numGroups >= 0
    ensures Inserted(groupSize, numGroups, groupSize * numGroups + group) == Cell(group, 0, groupSize + 1)
  {
  }

  lemma InsertedBack(groupSize: nat, numGroups: nat, j: nat)
    requires j < numGroups * (groupSize + 1)
    ensures 0 <= InsertedFrom(groupSize, numGroups, j) < numGroups * (groupSize + 1)
    ensures Inserted(groupSize, numGroups, InsertedFrom(groupSize, numGroups, j)) == j
  {
    hide Cell, Row, Column, Inserted;
    CellOfRow(j, groupSize + 1, numGroups);
    ProductParts(groupSize, numGroups);
    var group, place := Row(j, groupSize + 1), Column(j, groupSize + 1);
    if place == 0 {
      InsertedFronts(groupSize, numGroups, group);
    } else {
      InsertedPlaces(groupSize, numGroups, group, place - 1);
    }
  }

  lemma InsertedForth(groupSize: nat, numGroups: nat, i: nat)
    requires i < numGroups * (groupSize + 1)
    ensures 0 <= Inserted(groupSize, numGroups, i) < numGroups * (groupSize + 1)
    ensures InsertedFrom(groupSize, numGroups, Inserted(groupSize, numGroups, i)) == i
  {
    hide Cell, Row, Column, Inserted;
    ProductParts(groupSize, numGroups);
    if i < groupSize * numGroups {
      ForthPlaces(groupSize, numGroups, i);
    } else {
      ForthFronts(groupSize, numGroups, i - groupSize * numGroups);
    }
  }

  lemma ForthPlaces(groupSize: nat, numGroups: nat, i: nat)
    requires i < groupSize * numGroups
    ensures 0 <= Inserted(groupSize, numGroups, i) < numGroups * (groupSize + 1)
    ensures InsertedFrom(groupSize, numGroups, Inserted(groupSize, numGroups, i)) == i
  {
    hide Cell, Row, Column, Inserted;
    PositiveFactor(i, groupSize, numGroups);
    ProductParts(groupSize, numGroups);
    CellOfRow(i, groupSize, numGroups);
    var group, place := Row(i, groupSize), Column(i, groupSize);
    InsertedPlaces(groupSize, numGroups, group, place);
    CellInTable(group, place + 1, groupSize + 1, numGroups);
    RowOfCell(group, place + 1, groupSize + 1);
  }

  lemma ForthFronts(groupSize: nat, numGroups: nat, group: nat)
    requires group < numGroups
    ensures groupSize * numGroups >= 0
    ensures 0 <= Inserted(groupSize, numGroups, groupSize * numGroups + group) < numGroups * (groupSize + 1)
    ensures InsertedFrom(groupSize, numGroups, Inserted(groupSize, numGroups, groupSize * numGroups + group)) ==
      groupSize * numGroups + group
  {
    hide Cell, Row, Column, Inserted;
    InsertedFronts(groupSize, numGroups, group);
    CellInTable(group, 0, groupSize + 1, numGroups);
    RowOfCell(group, 0, groupSize + 1);
  }

  function InserterTable(groupSize: nat, numGroups: nat): (p: seq<nat>)
    ensures |p| == numGroups * (groupSize + 1)
    ensures forall i :: 0 <= i < |p| ==> p[i] == Inserted(groupSize, numGroups, i)
  {
    seq(numGroups * (groupSize + 1), i requires 0 <= i < numGroups * (groupSize + 1) =>
      (InsertedForth(groupSize, numGroups, i); Inserted(groupSize, numGroups, i)))
  }

  ghost function InserterSources(groupSize: nat, numGroups: nat): (q: seq<nat>)
    ensures |q| == numGroups * (groupSize + 1)
    ensures forall j :: 0 <= j < |q| ==> q[j] == InsertedFrom(groupSize, numGroups, j)
  {
    seq(numGroups * (groupSize + 1), j requires 0 <= j < numGroups * (groupSize + 1) =>
      (InsertedBack(groupSize, numGroups, j); InsertedFrom(groupSize, numGroups, j)))
  }

  lemma InserterIsBijective(groupSize: nat, numGroups: nat)
    ensures InverseTables(InserterTable(groupSize, numGroups), InserterSources(groupSize, numGroups))
    ensures Bijective(InserterTable(groupSize, numGroups))
  {
    hide Inserted, InsertedFrom, Bijective;
    var p, q := InserterTable(groupSize, numGroups), InserterSources(groupSize, numGroups);
    forall i | 0 <= i < |p| ensures p[i] < |p| && q[p[i]] == i && q[i] < |p| && p[q[i]] == i {
      InsertedForth(groupSize, numGroups, i);
      InsertedBack(groupSize, numGroups, i);
    }
    InvertibleIsBijective(p, q);
  }

  // ----- inserting one wire into each of several interleaved lists -----

  /** y[j] is x[q[j]] on the wires of q and x elsewhere. */
  ghost predicate Moved(y: seq<int>, x: seq<int>, q: seq<nat>) {
    && |q| <= |y| == |x|
    && (forall j :: 0 <= j < |q| ==> q[j] < |x| && y[j] == x[q[j]])
    && (forall w :: |q| <= w < |x| ==> y[w] == x[w])
  }

  /** A permutation gate with an inverse table, on the first wires. */
  lemma PermutationRun(p: seq<nat>, q: seq<nat>, x: seq<int>)
    requires InverseTables(p, q) && |p| <= |x|
    ensures ValidOp(Op(Permutation(p), Range(0, |p|)), |x|)
    ensures Moved(Apply(Op(Permutation(p), Range(0, |p|)), x), x, q)
  {
    InvertibleIsBijective(p, q);
    var op := Op(Permutation(p), Range(0, |p|));
    var y := Apply(op, x);
    forall j | 0 <= j < |p| ensures y[j] == x[q[j]] {
      ApplyAt(op, x, j);
      assert Gather(x, op.wires)[q[j]] == x[q[j]];
    }
    forall w | |p| <= w < |x| ensures y[w] == x[w] {
      ApplyMiss(op, x, w);
    }
  }

  ghost predicate Lists(size: nat, numGroups: nat) {
    size > 0 && numGroups > 0
  }

  /** The wires of the lists before the new wires come in. */
  function Interleaved(size: nat, numGroups: nat): int { numGroups * (size - 1) }

  lemma InterleavedGroups(size: nat, numGroups: nat)
    requires Lists(size, numGroups)
    ensures Interleaved(size, numGroups) >= 0 && Groups(Interleaved(size, numGroups), numGroups, size - 1)
    ensures numGroups * size == Interleaved(size, numGroups) + numGroups
    ensures (size - 1) * numGroups == Interleaved(size, numGroups)
  {
  }

  /** The two permutation gates: the lists are pulled apart, then each gets its new wire in front. */
  ghost function PlaceOps(size: nat, numGroups: nat): seq<Op>
    requires Lists(size, numGroups)
  {
    InterleavedGroups(size, numGroups);
    var n := Interleaved(size, numGroups);
    [Op(Permutation(UnshuffleTable(n, numGroups, size - 1)), Range(0, n)),
     Op(Permutation(InserterTable(size - 1, numGroups)), Range(0, numGroups * size))]
  }

  lemma RunTwo(first: Op, second: Op, x: seq<int>)
    requires ValidOp(first, |x|) && ValidOp(second, |x|)
    ensures ValidOps([first, second], |x|) && Run([first, second], x) == Apply(second, Apply(first, x))
  {
    hide Apply, ValidOp;
    assert [first, second][..1] == [first];
    RunOne(first, x);
  }

  /** Both gates. */
  lemma PlaceTwo(size: nat, numGroups: nat, x: seq<int>) returns (y: seq<int>)
    requires Lists(size, numGroups) && |x| == numGroups * size
    ensures ValidOps(PlaceOps(size, numGroups), |x|)
    ensures Interleaved(size, numGroups) >= 0 && Groups(Interleaved(size, numGroups), numGroups, size - 1)
    ensures Moved(y, x, ShuffleTable(Interleaved(size, numGroups), numGroups, size - 1))
    ensures Moved(Run(PlaceOps(size, numGroups), x), y, InserterSources(size - 1, numGroups))
  {
    hide Apply, Bijective, ValidOp, Shuffled, Unshuffled, Inserted, InsertedFrom, InverseTables, Moved, Groups, Interleaved;
    InterleavedGroups(size, numGroups);
    var n := Interleaved(size, numGroups);
    ShuffleAndUnshuffle(n, numGroups, size - 1);
    InserterIsBijective(size - 1, numGroups);
    var s, t := UnshuffleTable(n, numGroups, size - 1), InserterTable(size - 1, numGroups);
    ShuffleInverts(n, numGroups, size - 1);
    PermutationRun(s, ShuffleTable(n, numGroups, size - 1), x);
    y := Apply(Op(Permutation(s), Range(0, n)), x);
    PermutationRun(t, InserterSources(size - 1, numGroups), y);
    RunTwo(Op(Permutation(s), Range(0, n)), Op(Permutation(t), Range(0, |x|)), x);
  }

  lemma ShuffleInverts(count: nat, numGroups: nat, size: nat)
    requires Groups(count, numGroups, size)
    ensures InverseTables(UnshuffleTable(count, numGroups, size), ShuffleTable(count, numGroups, size))
  {
    hide Shuffled, Unshuffled;
    ShuffleAndUnshuffle(count, numGroups, size);
  }

  /** Wire `place` of list `group` once the two gates have run: the new wire of the list, or the
      wire the list had at the place before. */
  ghost function Placed(x: seq<int>, size: nat, numGroups: nat, group: nat, place: nat): int
    requires Lists(size, numGroups) && group < numGroups && place < size && |x| == numGroups * size
  {
    InterleavedGroups(size, numGroups);
    if place == 0 then x[Interleaved(size, numGroups) + group]
    else
      CellInTable(place - 1, group, numGroups, size - 1);
      x[Cell(place - 1, group, numGroups)]
  }

  lemma PlaceRun(size: nat, numGroups: nat, x: seq<int>, group: nat, place: nat)
    requires Lists(size, numGroups) && |x| == numGroups * size && group < numGroups && place < size
    ensures ValidOps(PlaceOps(size, numGroups), |x|)
    ensures 0 <= Cell(group, place, size) < |x|
    ensures Run(PlaceOps(size, numGroups), x)[Cell(group, place, size)] == Placed(x, size, numGroups, group, place)
  {
    hide Run, PlaceOps, ValidOps, Cell, Row, Column, Groups, Interleaved, Inserted, Shuffled;
    InterleavedGroups(size, numGroups);
    CellInTable(group, place, size, numGroups);
    var y := PlaceTwo(size, numGroups, x);
    RowOfCell(group, place, size);
    if place > 0 {
      ShuffledCell(size - 1, numGroups, group, place - 1);
      OnlyThose(size, numGroups, group, place);
    }
  }

  lemma OnlyThose(size: nat, numGroups: nat, group: nat, place: nat)
    requires Lists(size, numGroups) && group < numGroups && 0 < place < size
    ensures 0 <= Cell(group, place - 1, size - 1) < Interleaved(size, numGroups)
  {
    CellInTable(group, place - 1, size - 1, numGroups);
  }

  lemma ShuffledCell(size: nat, numGroups: nat, group: nat, place: nat)
    requires size > 0 && group < numGroups && place < size
    ensures Groups(numGroups * size, numGroups, size)
    ensures 0 <= Cell(group, place, size) < numGroups * size
    ensures ShuffleTable(numGroups * size, numGroups, size)[Cell(group, place, size)] == Cell(place, group, numGroups)
  {
    hide Cell, Row, Column;
    GroupSize(numGroups * size, numGroups, size);
    CellInTable(group, place, size, numGroups);
    RowOfCell(group, place, size);
  }

  // ----- the tree insertion on every list -----

  ghost predicate SliceFits(size: nat, group: nat, n: nat) {
    0 <= Cell(group, 0, size) && Cell(group, 0, size) + size <= n
  }

  lemma SlicesFit(size: nat, group: nat, numGroups: nat)
    requires group < numGroups
    ensures SliceFits(size, group, numGroups * size)
    ensures forall place: nat :: place < size ==> Cell(group, place, size) == Cell(group, 0, size) + place
    ensures forall g: nat :: g < group ==> SliceFits(size, g, Cell(group, 0, size))
    ensures Cell(group + 1, 0, size) == Cell(group, 0, size) + size
  {
    ProductMore(numGroups, group + 1, size);
    forall g: nat | g < group ensures SliceFits(size, g, Cell(group, 0, size)) {
      ProductMore(group, g + 1, size);
    }
  }

  ghost function Slice(y: seq<int>, size: nat, group: nat): (r: seq<int>)
    requires SliceFits(size, group, |y|)
    ensures |r| == size
  {
    y[Cell(group, 0, size)..Cell(group, 0, size) + size]
  }

  ghost predicate SortedSlice(z: seq<int>, y: seq<int>) {
    Ascending(z) && multiset(z) == multiset(y)
  }

  /** A tree insertion on each of the first k lists. */
  ghost function InsertOps(size: nat, k: nat): seq<Op>
    requires PowerOfTwo(size)
  {
    if k == 0 then []
    else
      assert Cell(k - 1, 0, size) >= 0;
      InsertOps(size, k - 1) + Rename(InsertionOps(size), Range(Cell(k - 1, 0, size), size))
  }

  lemma InsertOne(size: nat, z: seq<int>, lo: nat)
    requires PowerOfTwo(size) && lo + size <= |z| && Ascending(z[lo..lo + size][1..])
    ensures ValidOps(Rename(InsertionOps(size), Range(lo, size)), |z|)
    ensures var after := Run(Rename(InsertionOps(size), Range(lo, size)), z);
      |after| == |z| && after[..lo] == z[..lo] && after[lo + size..] == z[lo + size..] &&
      SortedSlice(after[lo..lo + size], z[lo..lo + size])
  {
    hide Run, Rename, InsertionOps, ValidOp, Ascending, PowerOfTwo;
    ShiftRun(InsertionOps(size), lo, size, z);
    InsertionSorts(size, z[lo..lo + size]);
    var after := Run(Rename(InsertionOps(size), Range(lo, size)), z);
    assert after[lo..lo + size] == Run(InsertionOps(size), z[lo..lo + size]);
  }

  /** The first k lists are sorted, the others are untouched. */
  ghost predicate FirstSorted(z: seq<int>, y: seq<int>, size: nat, k: nat) {
    && |z| == |y| && 0 <= Cell(k, 0, size) <= |y| && z[Cell(k, 0, size)..] == y[Cell(k, 0, size)..]
    && forall g: nat :: g < k ==> SliceFits(size, g, |y|) && SortedSlice(Slice(z, size, g), Slice(y, size, g))
  }

  ghost predicate TailsAscending(y: seq<int>, size: nat, numGroups: nat) {
    && size > 0 && |y| == numGroups * size
    && forall g: nat :: g < numGroups ==> SliceFits(size, g, |y|) && Ascending(Slice(y, size, g)[1..])
  }

  lemma {:induction false} InsertEach(size: nat, numGroups: nat, y: seq<int>, k: nat)
    requires PowerOfTwo(size) && TailsAscending(y, size, numGroups) && k <= numGroups
    ensures ValidOps(InsertOps(size, k), |y|)
    ensures FirstSorted(Run(InsertOps(size, k), y), y, size, k)
  {
    hide Run, Rename, InsertionOps, ValidOp, PowerOfTwo, SortedSlice, Ascending, Cell, FirstSorted;
    if k == 0 {
      NothingInserted(y, size);
    } else {
      InsertEach(size, numGroups, y, k - 1);
      SlicesFit(size, k - 1, numGroups);
      var z, lo := Run(InsertOps(size, k - 1), y), Cell(k - 1, 0, size);
      SliceUntouched(z, y, size, k - 1);
      InsertOne(size, z, lo);
      RunConcat(InsertOps(size, k - 1), Rename(InsertionOps(size), Range(lo, size)), y);
      OneMoreSorted(Run(InsertOps(size, k), y), z, y, size, k - 1);
    }
  }

  lemma NothingInserted(y: seq<int>, size: nat)
    ensures Run([], y) == y && FirstSorted(y, y, size, 0)
  {
  }

  lemma SliceUntouched(z: seq<int>, y: seq<int>, size: nat, k: nat)
    requires FirstSorted(z, y, size, k) && SliceFits(size, k, |y|)
    ensures |z| == |y| && Slice(z, size, k) == Slice(y, size, k)
  {
    hide Cell, SortedSlice;
    SuffixSlice(z, y, Cell(k, 0, size), size);
  }

  lemma SuffixSlice(s: seq<int>, t: seq<int>, lo: nat, size: nat)
    requires |s| == |t| && lo + size <= |s| && s[lo..] == t[lo..]
    ensures s[lo..lo + size] == t[lo..lo + size]
  {
    forall k | lo <= k < lo + size ensures s[k] == t[k] {
      assert s[k] == s[lo..][k - lo];
      assert t[k] == t[lo..][k - lo];
    }
  }

  lemma PrefixSlice(s: seq<int>, t: seq<int>, lo: nat, a: nat, b: nat)
    requires lo <= |s| && lo <= |t| && s[..lo] == t[..lo] && a <= b <= lo
    ensures s[a..b] == t[a..b]
  {
    forall k | a <= k < b ensures s[k] == t[k] {
      assert s[k] == s[..lo][k];
      assert t[k] == t[..lo][k];
    }
  }

  lemma SuffixLater(s: seq<int>, t: seq<int>, lo: nat, hi: nat)
    requires |s| == |t| && lo <= hi <= |s| && s[lo..] == t[lo..]
    ensures s[hi..] == t[hi..]
  {
    forall k | hi <= k < |s| ensures s[k] == t[k] {
      assert s[k] == s[lo..][k - lo];
      assert t[k] == t[lo..][k - lo];
    }
  }

  lemma OneMoreSorted(after: seq<int>, z: seq<int>, y: seq<int>, size: nat, k: nat)
    requires FirstSorted(z, y, size, k) && SliceFits(size, k, |y|) && |after| == |z|
    requires Cell(k + 1, 0, size) == Cell(k, 0, size) + size
    requires forall g: nat :: g < k ==> SliceFits(size, g, Cell(k, 0, size))
    requires after[..Cell(k, 0, size)] == z[..Cell(k, 0, size)]
    requires after[Cell(k, 0, size) + size..] == z[Cell(k, 0, size) + size..]
    requires SortedSlice(Slice(after, size, k), Slice(y, size, k))
    ensures FirstSorted(after, y, size, k + 1)
  {
    hide Cell, SortedSlice;
    var lo := Cell(k, 0, size);
    forall g: nat | g < k ensures SliceFits(size, g, |y|) && Slice(after, size, g) == Slice(z, size, g) {
      assert SliceFits(size, g, lo);
      PrefixSlice(after, z, lo, Cell(g, 0, size), Cell(g, 0, size) + size);
    }
    SuffixLater(z, y, lo, lo + size);
  }

  // ----- all of it -----

  /** The values of one list: its new wire and every numGroups-th of the interleaved wires. */
  ghost function Listed(x: seq<int>, size: nat, numGroups: nat, group: nat): (r: seq<int>)
    requires Lists(size, numGroups) && group < numGroups && |x| == numGroups * size
    ensures |r| == size
  {
    seq(size, place requires 0 <= place < size => Placed(x, size, numGroups, group, place))
  }

  lemma ListedTail(x: seq<int>, size: nat, numGroups: nat, g: nat)
    requires Lists(size, numGroups) && g < numGroups && |x| == numGroups * size
    requires 0 <= Interleaved(size, numGroups) <= |x| && Ascending(x[..Interleaved(size, numGroups)])
    ensures Ascending(Listed(x, size, numGroups, g)[1..])
  {
    var r := Listed(x, size, numGroups, g)[1..];
    forall i, j | 0 <= i <= j < |r| ensures r[i] <= r[j] {
      ListedAt(x, size, numGroups, g, i);
      ListedAt(x, size, numGroups, g, j);
      ProductMore(j, i, numGroups);
    }
  }

  lemma ListedAt(x: seq<int>, size: nat, numGroups: nat, g: nat, i: nat)
    requires Lists(size, numGroups) && g < numGroups && |x| == numGroups * size && i < size - 1
    requires 0 <= Interleaved(size, numGroups) <= |x|
    ensures 0 <= Cell(i, g, numGroups) < Interleaved(size, numGroups)
    ensures Listed(x, size, numGroups, g)[1..][i] == x[..Interleaved(size, numGroups)][Cell(i, g, numGroups)]
  {
    hide Cell, Interleaved;
    InterleavedGroups(size, numGroups);
    CellInTable(i, g, numGroups, size - 1);
  }

  ghost function InsertionNetwork(size: nat, numGroups: nat): seq<Op>
    requires Lists(size, numGroups) && PowerOfTwo(size)
  {
    PlaceOps(size, numGroups) + InsertOps(size, numGroups)
  }

  ghost predicate ListsSorted(z: seq<int>, x: seq<int>, size: nat, numGroups: nat)
    requires Lists(size, numGroups) && |x| == numGroups * size
  {
    |z| == |x| && forall g: nat :: g < numGroups ==>
      SliceFits(size, g, |z|) && SortedSlice(Slice(z, size, g), Listed(x, size, numGroups, g))
  }

  lemma ListInPlace(x: seq<int>, y: seq<int>, size: nat, numGroups: nat, g: nat)
    requires Lists(size, numGroups) && |x| == numGroups * size && g < numGroups
    requires ValidOps(PlaceOps(size, numGroups), |x|) && y == Run(PlaceOps(size, numGroups), x)
    ensures SliceFits(size, g, |y|) && Slice(y, size, g) == Listed(x, size, numGroups, g)
  {
    hide Run, PlaceOps, ValidOps, Placed, Cell;
    SlicesFit(size, g, numGroups);
    forall place | 0 <= place < size ensures Slice(y, size, g)[place] == Listed(x, size, numGroups, g)[place] {
      PlaceRun(size, numGroups, x, g, place);
    }
  }

  /** When the wires before the new ones are sorted, every list comes out sorted, and it holds its
      new wire and the list it had. */
  lemma EveryListSorted(size: nat, numGroups: nat, x: seq<int>)
    requires Lists(size, numGroups) && PowerOfTwo(size) && |x| == numGroups * size
    requires 0 <= Interleaved(size, numGroups) <= |x| && Ascending(x[..Interleaved(size, numGroups)])
    ensures ValidOps(InsertionNetwork(size, numGroups), |x|)
    ensures ListsSorted(Run(InsertionNetwork(size, numGroups), x), x, size, numGroups)
  {
    hide Run, ValidOp, PlaceOps, InsertOps, Ascending, Listed, PowerOfTwo, Cell, Interleaved, SortedSlice;
    PlaceRun(size, numGroups, x, 0, 0);
    var y := Run(PlaceOps(size, numGroups), x);
    forall g: nat | g < numGroups
      ensures SliceFits(size, g, |y|) && Slice(y, size, g) == Listed(x, size, numGroups, g) && Ascending(Slice(y, size, g)[1..])
    {
      ListInPlace(x, y, size, numGroups, g);
      ListedTail(x, size, numGroups, g);
    }
    InsertEach(size, numGroups, y, numGroups);
    RunConcat(PlaceOps(size, numGroups), InsertOps(size, numGroups), x);
  }

  // ----- and the lists take turns again -----

  ghost function BlockOps(size: nat, numGroups: nat): seq<Op>
    requires Lists(size, numGroups) && PowerOfTwo(size)
  {
    assert Groups(numGroups * size, numGroups, size) by { ProductMore(numGroups, 1, size); }
    InsertionNetwork(size, numGroups) +
      [Op(Permutation(ShuffleTable(numGroups * size, numGroups, size)), Range(0, numGroups * size))]
  }

  /** Every numGroups-th wire, from wire g on. */
  ghost function Turns(y: seq<int>, size: nat, numGroups: nat, g: nat): (r: seq<int>)
    requires g < numGroups && |y| == numGroups * size
    ensures |r| == size
  {
    seq(size, place requires 0 <= place < size => TurnAt(y, size, numGroups, g, place))
  }

  ghost function TurnAt(y: seq<int>, size: nat, numGroups: nat, g: nat, place: nat): int
    requires g < numGroups && |y| == numGroups * size && place < size
  {
    CellInTable(place, g, numGroups, size);
    ProductTurned(size, numGroups);
    y[Cell(place, g, numGroups)]
  }

  lemma ProductTurned(size: int, numGroups: int)
    ensures size * numGroups == numGroups * size
  {
  }

  /** The interleaved lists of x are sorted one by one in y, each with its new wire. */
  ghost predicate TurnsSorted(y: seq<int>, x: seq<int>, size: nat, numGroups: nat)
    requires Lists(size, numGroups) && |x| == numGroups * size
  {
    |y| == |x| && forall g: nat :: g < numGroups ==> SortedSlice(Turns(y, size, numGroups, g), Listed(x, size, numGroups, g))
  }

  lemma EveryTurnSorted(size: nat, numGroups: nat, x: seq<int>)
    requires Lists(size, numGroups) && PowerOfTwo(size) && |x| == numGroups * size
    requires 0 <= Interleaved(size, numGroups) <= |x| && Ascending(x[..Interleaved(size, numGroups)])
    ensures ValidOps(BlockOps(size, numGroups), |x|)
    ensures TurnsSorted(Run(BlockOps(size, numGroups), x), x, size, numGroups)
  {
    hide Run, ValidOp, InsertionNetwork, Ascending, Listed, PowerOfTwo, Interleaved, SortedSlice, Bijective, InverseTables, Apply, Shuffled, Unshuffled, Turns, Moved;
    EveryListSorted(size, numGroups, x);
    var z := Run(InsertionNetwork(size, numGroups), x);
    assert Groups(|x|, numGroups, size) by { ProductMore(numGroups, 1, size); }
    var p := ShuffleTable(|x|, numGroups, size);
    ShuffleAndUnshuffle(|x|, numGroups, size);
    PermutationRun(p, UnshuffleTable(|x|, numGroups, size), z);
    var op := Op(Permutation(p), Range(0, |x|));
    RunOne(op, z);
    RunConcat(InsertionNetwork(size, numGroups), [op], x);
    var y := Apply(op, z);
    forall g: nat | g < numGroups ensures SliceFits(size, g, |z|) && Turns(y, size, numGroups, g) == Slice(z, size, g) {
      SlicesFit(size, g, numGroups);
      TurnIsSlice(y, z, size, numGroups, g);
    }
  }

  lemma TurnIsSlice(y: seq<int>, z: seq<int>, size: nat, numGroups: nat, g: nat)
    requires Lists(size, numGroups) && g < numGroups && |z| == numGroups * size && Groups(|z|, numGroups, size)
    requires SliceFits(size, g, |z|) && Moved(y, z, UnshuffleTable(|z|, numGroups, size))
    ensures |y| == |z| && Turns(y, size, numGroups, g) == Slice(z, size, g)
  {
    hide Cell, Row, Column, Unshuffled;
    SlicesFit(size, g, numGroups);
    forall place | 0 <= place < size ensures Turns(y, size, numGroups, g)[place] == Slice(z, size, g)[place] {
      CellInTable(place, g, numGroups, size);
      ProductTurned(size, numGroups);
      UnshuffledCell(size, numGroups, g, place);
    }
  }

  lemma UnshuffledCell(size: nat, numGroups: nat, group: nat, place: nat)
    requires Groups(numGroups * size, numGroups, size) && group < numGroups && place < size
    requires 0 <= Cell(place, group, numGroups) < numGroups * size
    ensures Unshuffled(numGroups * size, numGroups, Cell(place, group, numGroups)) == Cell(group, place, size)
  {
    hide Cell, Row, Column;
    GroupSize(numGroups * size, numGroups, size);
    RowOfCell(place, group, numGroups);
  }
}
