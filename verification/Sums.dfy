/** Finite sums over the integers, and their congruences. */
module Sums {
  import opened Residues

  /** Entry k of s, and 0 outside of it. */
  ghost function At(s: seq<int>, k: int): int {
    if 0 <= k < |s| then s[k] else 0
  }

  ghost function Sum(f: int -> int, lo: int, hi: int): int
    decreases hi - lo
  {
    if lo >= hi then 0 else f(lo) + Sum(f, lo + 1, hi)
  }

  lemma {:induction false} SumCong(f: int -> int, g: int -> int, lo: int, hi: int, p: int)
    requires p > 0 && forall k :: lo <= k < hi ==> Cong(f(k), g(k), p)
    ensures Cong(Sum(f, lo, hi), Sum(g, lo, hi), p)
    decreases hi - lo
  {
    if lo < hi {
      SumCong(f, g, lo + 1, hi, p);
      CongAdd(f(lo), g(lo), Sum(f, lo + 1, hi), Sum(g, lo + 1, hi), p);
    }
  }

  lemma {:induction false} SumSame(f: int -> int, g: int -> int, lo: int, hi: int)
    requires forall k :: lo <= k < hi ==> f(k) == g(k)
    ensures Sum(f, lo, hi) == Sum(g, lo, hi)
    decreases hi - lo
  {
    if lo < hi {
      SumSame(f, g, lo + 1, hi);
    }
  }

  lemma {:induction false} SumZero(f: int -> int, lo: int, hi: int)
    requires forall k :: lo <= k < hi ==> f(k) == 0
    ensures Sum(f, lo, hi) == 0
    decreases hi - lo
  {
    if lo < hi {
      SumZero(f, lo + 1, hi);
    }
  }

  lemma {:induction false} SumSplit(f: int -> int, lo: int, mid: int, hi: int)
    requires lo <= mid <= hi
    ensures Sum(f, lo, hi) == Sum(f, lo, mid) + Sum(f, mid, hi)
    decreases mid - lo
  {
    if lo < mid {
      SumSplit(f, lo + 1, mid, hi);
    }
  }

  lemma SumLast(f: int -> int, lo: int, hi: int)
    requires lo < hi
    ensures Sum(f, lo, hi) == Sum(f, lo, hi - 1) + f(hi - 1)
  {
    SumSplit(f, lo, hi - 1, hi);
    assert Sum(f, hi, hi) == 0;
  }

  /** Linearity: the sum of f + c * g. */
  lemma {:induction false} SumLinear(f: int -> int, c: int, g: int -> int, h: int -> int, lo: int, hi: int)
    requires forall k :: lo <= k < hi ==> h(k) == f(k) + c * g(k)
    ensures Sum(h, lo, hi) == Sum(f, lo, hi) + c * Sum(g, lo, hi)
    decreases hi - lo
  {
    if lo < hi {
      SumLinear(f, c, g, h, lo + 1, hi);
      Distribute(c, g(lo), Sum(g, lo + 1, hi));
    } else {
      assert c * 0 == 0;
    }
  }

  lemma Distribute(c: int, a: int, b: int)
    ensures c * (a + b) == c * a + c * b
  {
  }

  lemma SumScale(c: int, g: int -> int, h: int -> int, lo: int, hi: int)
    requires forall k :: lo <= k < hi ==> h(k) == c * g(k)
    ensures Sum(h, lo, hi) == c * Sum(g, lo, hi)
  {
    var z := (k: int) => 0;
    SumLinear(z, c, g, h, lo, hi);
    SumZero(z, lo, hi);
  }

  /** A sum with a single term that is not 0. */
  lemma SumSingle(f: int -> int, lo: int, hi: int, i: int)
    requires lo <= i < hi && forall k :: lo <= k < hi && k != i ==> f(k) == 0
    ensures Sum(f, lo, hi) == f(i)
  {
    SumSplit(f, lo, i, hi);
    SumZero(f, lo, i);
    SumZero(f, i + 1, hi);
  }

  /** Exchanging the order of a double sum. */
  lemma {:induction false} SumExchange(f: (int, int) -> int, a: int, b: int, c: int, d: int)
    ensures Sum(i => Sum(j => f(i, j), c, d), a, b) == Sum(j => Sum(i => f(i, j), a, b), c, d)
    decreases b - a
  {
    var rows := i => Sum(j => f(i, j), c, d);
    var cols := j => Sum(i => f(i, j), a, b);
    if a >= b {
      forall j | c <= j < d ensures cols(j) == 0 { }
      SumZero(cols, c, d);
    } else {
      SumExchange(f, a + 1, b, c, d);
      var rest := j => Sum(i => f(i, j), a + 1, b);
      var first := j => f(a, j);
      forall j | c <= j < d
        ensures cols(j) == first(j) + 1 * rest(j)
      {
        var col := i => f(i, j);
        assert cols(j) == Sum(col, a, b) && rest(j) == Sum(col, a + 1, b);
      }
      SumLinear(first, 1, rest, cols, c, d);
      assert rows(a) == Sum(first, c, d);
      assert Sum(rows, a, b) == rows(a) + Sum(rows, a + 1, b);
    }
  }
}
