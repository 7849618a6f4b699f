/** Regions of the unit interval, and how they cover it. */
module Regions {
  import opened Options

  datatype Region = Region(start: real, end: real)

  /** How many powers of a half the table of sizes holds. */
  const TABLE_SIZE: nat := 400

  /** Entry e of the table of sizes. */
  function Half(e: nat): (r: real)
    ensures 0.0 < r <= 1.0
  {
    if e == 0 then 1.0 else Half(e - 1) / 2.0
  }

  function Pow2(e: nat): (n: nat)
    ensures n > 0
  {
    if e == 0 then 1 else 2 * Pow2(e - 1)
  }

  lemma {:induction false} HalfTimesPow(e: nat)
    ensures Half(e) * Pow2(e) as real == 1.0
  {
    if e > 0 {
      HalfTimesPow(e - 1);
      var h, n := Half(e - 1), Pow2(e - 1) as real;
      assert Half(e) * Pow2(e) as real == (h / 2.0) * (2.0 * n);
      assert (h / 2.0) * (2.0 * n) == h * n;
    }
  }

  /** Searches the table from entry r on for the least size that is at least val. */
  function TwoAboveFrom(val: real, r: nat): Option<nat>
    requires r <= TABLE_SIZE && val < 1.0
    decreases TABLE_SIZE - r
  {
    if r == TABLE_SIZE then None
    else if val > Half(r) then (if r > 0 then Some(r - 1) else None)
    else if val == Half(r) then Some(r)
    else TwoAboveFrom(val, r + 1)
  }

  /** two_above, as the exponent of its result; None when the table has no answer. */
  function TwoAbove(val: real): Option<nat> {
    if val >= 1.0 then Some(0) else TwoAboveFrom(val, 0)
  }

  lemma {:induction false} TwoAboveFromExact(val: real, r: nat)
    requires r < TABLE_SIZE && val < 1.0 && val <= Half(r)
    ensures match TwoAboveFrom(val, r) case Some(e) => Half(e + 1) < val <= Half(e) case None => val < Half(TABLE_SIZE - 1)
    decreases TABLE_SIZE - r
  {
    if val < Half(r) {
      if r + 1 < TABLE_SIZE && val <= Half(r + 1) {
        TwoAboveFromExact(val, r + 1);
      }
    }
  }

  /** Half(e) is the least power of a half that is at least val, or 1 when val is at least 1. */
  ghost predicate LeastSize(e: nat, val: real) {
    if val >= 1.0 then e == 0 else Half(e + 1) < val <= Half(e)
  }

  /** two_above gives the least power of a half that is at least val, and at most one. It fails
      exactly below the last entry of the table. */
  lemma TwoAboveExact(val: real)
    ensures match TwoAbove(val) case Some(e) => LeastSize(e, val) case None => val < Half(TABLE_SIZE - 1)
  {
    if val < 1.0 {
      TwoAboveFromExact(val, 0);
    }
  }

  // ----- the regions of one size -----

  function Times(h: real, i: int): real {
    h * i as real
  }

  lemma TimesNext(h: real, i: int)
    ensures Times(h, i + 1) == Times(h, i) + h && Times(h, 0) == 0.0
  {
    var x := i as real;
    assert (i + 1) as real == x + 1.0;
    assert h * (x + 1.0) == h * x + h;
  }

  lemma TimesLess(h: real, i: int, j: int)
    requires h > 0.0
    ensures Times(h, i) < Times(h, j) <==> i < j
  {
    if i < j { MulStrict(h, i as real, j as real); } else { MulOrder(h, j as real, i as real); }
  }

  function Slot(e: nat, i: int): Region {
    Region(Times(Half(e), i), Times(Half(e), i + 1))
  }

  function SlotNumber(e: nat, pos: real): int {
    (pos / Half(e)).Floor
  }

  /** quorum_region. */
  function RegionOf(e: nat, pos: real): Region {
    Slot(e, SlotNumber(e, pos))
  }

  function Slots(e: nat, k: nat): (r: set<Region>)
    ensures forall i :: 0 <= i < k ==> Slot(e, i) in r
    ensures forall x :: x in r ==> exists i :: 0 <= i < k && Slot(e, i) == x
  {
    set i | 0 <= i < k :: Slot(e, i)
  }

  ghost predicate InRegion(r: Region, pos: real) {
    r.start <= pos < r.end
  }

  lemma DivideMore(h: real, x: real, pos: real)
    requires h > 0.0
    ensures x <= pos / h <==> h * x <= pos
  {
    var y := pos / h;
    assert y * h == pos;
    if x <= y { MulOrder(h, x, y); } else { MulOrder(h, y, x); MulStrict(h, y, x); }
  }

  lemma MulOrder(h: real, x: real, y: real)
    requires h > 0.0 && x <= y
    ensures h * x <= h * y
  {
    assert h * (y - x) >= 0.0;
  }

  lemma MulStrict(h: real, x: real, y: real)
    requires h > 0.0 && x < y
    ensures h * x < h * y
  {
    assert h * (y - x) > 0.0;
  }

  lemma TimesAtMost(h: real, i: int, pos: real)
    requires h > 0.0
    ensures i <= (pos / h).Floor <==> Times(h, i) <= pos
  {
    DivideMore(h, i as real, pos);
  }

  /** The region of a position contains it, and it is the only one that does. */
  lemma OnlyRegion(e: nat, pos: real, i: int)
    ensures InRegion(Slot(e, i), pos) <==> i == SlotNumber(e, pos)
  {
    hide Half, Times;
    TimesAtMost(Half(e), i, pos);
    TimesAtMost(Half(e), i + 1, pos);
  }

  lemma UnitEnds(e: nat)
    ensures Times(Half(e), 0) == 0.0 && Times(Half(e), Pow2(e)) == 1.0
  {
    HalfTimesPow(e);
  }

  /** The regions of one size tile the unit interval. */
  lemma RegionsTile(e: nat, pos: real)
    requires 0.0 <= pos < 1.0
    ensures RegionOf(e, pos) in Slots(e, Pow2(e)) && InRegion(RegionOf(e, pos), pos)
    ensures forall r :: r in Slots(e, Pow2(e)) && InRegion(r, pos) ==> r == RegionOf(e, pos)
  {
    hide Half, Slots, InRegion, Times, Slot;
    var i, n := SlotNumber(e, pos), Pow2(e);
    UnitEnds(e);
    TimesAtMost(Half(e), 0, pos);
    TimesAtMost(Half(e), n, pos);
    assert 0 <= i < n;
    OnlyRegion(e, pos, i);
    forall r | r in Slots(e, n) && InRegion(r, pos) ensures r == RegionOf(e, pos) {
      var j :| 0 <= j < n && Slot(e, j) == r;
      OnlyRegion(e, pos, j);
    }
  }

  function Log2(n: nat): nat {
    if n < 2 then 0 else 1 + Log2(n / 2)
  }

  /** The logarithm, rounded down. */
  lemma {:induction false} Log2Exact(n: nat)
    requires n > 0
    ensures Pow2(Log2(n)) <= n < 2 * Pow2(Log2(n))
  {
    if n >= 2 {
      Log2Exact(n / 2);
    }
  }
}
