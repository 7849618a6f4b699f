/** The LU decomposition, step by step. */
module LuTheory {
  // Between two steps, a is the matrix being factored, m the
  // working copy that holds both factors, piv the row order so far.

  import opened Residues
  import opened Sums
  import opened LinearSystems
  import opened MatrixAlgebra

  ghost predicate Permutation(piv: seq<int>, n: int) {
    && |piv| == n
    && (forall i :: 0 <= i < n ==> 0 <= piv[i] < n)
    && (forall i, j :: 0 <= i < j < n ==> piv[i] != piv[j])
  }

  ghost function LTerm(m: Matrix, i: int, c: int): int -> int {
    k => Entry(m)(i, k) * Entry(m)(k, c)
  }

  /** The dot product of the first h entries of row i and column c. */
  ghost function Partial(m: Matrix, i: int, c: int, h: int): int {
    Sum(LTerm(m, i, c), 0, h)
  }

  ghost function Min(a: int, b: int): int { if a < b then a else b }

  /** Entry (i, c) has its dot product subtracted, but is not yet divided by the pivot. */
  ghost predicate Raw(a: Matrix, m: Matrix, piv: seq<int>, i: int, c: int, p: int)
    requires p > 0 && 0 <= i < |piv|
  {
    Cong(Entry(a)(piv[i], c), Partial(m, i, c, Min(i, c)) + Entry(m)(i, c), p)
  }

  /** Entry (i, c) is final: it is the entry of L if i > c, of U otherwise. */
  ghost predicate Done(a: Matrix, m: Matrix, piv: seq<int>, i: int, c: int, p: int)
    requires p > 0 && 0 <= i < |piv|
  {
    if i <= c then Raw(a, m, piv, i, c, p)
    else Cong(Entry(a)(piv[i], c), Partial(m, i, c, c + 1), p)
  }

  ghost predicate ColumnsDone(a: Matrix, m: Matrix, piv: seq<int>, j: int, n: int, p: int)
    requires p > 0 && |piv| == n
  {
    forall i, c :: 0 <= i < n && 0 <= c < j ==> Done(a, m, piv, i, c, p)
  }

  ghost predicate ColumnRaw(a: Matrix, m: Matrix, piv: seq<int>, j: int, n: int, p: int)
    requires p > 0 && |piv| == n
  {
    forall i :: 0 <= i < n ==> Raw(a, m, piv, i, j, p)
  }

  ghost predicate ColumnsPending(a: Matrix, m: Matrix, piv: seq<int>, j: int, n: int)
    requires |piv| == n
  {
    forall i, c :: 0 <= i < n && j <= c < n ==> Entry(m)(i, c) == Entry(a)(piv[i], c)
  }

  lemma PartialFrame(m: Matrix, m': Matrix, i: int, i': int, c: int, h: int)
    requires forall k :: 0 <= k < h ==> Entry(m)(i, k) == Entry(m')(i', k) && Entry(m)(k, c) == Entry(m')(k, c)
    ensures Partial(m, i, c, h) == Partial(m', i', c, h)
  {
    SumSame(LTerm(m, i, c), LTerm(m', i', c), 0, h);
  }

  /** A step that only touches columns from j on keeps the final columns before j. */
  lemma DoneFrame(a: Matrix, m: Matrix, m': Matrix, piv: seq<int>, j: int, n: int, p: int)
    requires p > 0 && |piv| == n && j <= n && ColumnsDone(a, m, piv, j, n, p)
    requires forall i, c :: 0 <= i < n && 0 <= c < j ==> Entry(m')(i, c) == Entry(m)(i, c)
    ensures ColumnsDone(a, m', piv, j, n, p)
  {
    hide Cong, Entry;
    forall i, c | 0 <= i < n && 0 <= c < j ensures Done(a, m', piv, i, c, p) {
      assert Done(a, m, piv, i, c, p);
      PartialFrame(m, m', i, i, c, if i <= c then i else c + 1);
    }
  }

  /** Setting one entry of column j keeps the raw entries above it. */
  lemma RawFrame(a: Matrix, m: Matrix, m': Matrix, piv: seq<int>, i: int, t: int, j: int, n: int, p: int)
    requires p > 0 && |piv| == n && 0 <= t < i < n && 0 <= j < n && Raw(a, m, piv, t, j, p)
    requires forall r, c :: 0 <= r < n && 0 <= c < n && !(r == i && c == j) ==> Entry(m')(r, c) == Entry(m)(r, c)
    ensures Raw(a, m', piv, t, j, p)
  {
    hide Cong, Entry;
    PartialFrame(m, m', t, t, j, Min(t, j));
  }

  /** The new entry is raw when the dot product has been subtracted from the old one. */
  lemma RawSet(a: Matrix, m: Matrix, m': Matrix, piv: seq<int>, i: int, j: int, n: int, s: int, p: int)
    requires p > 0 && |piv| == n && 0 <= i < n && 0 <= j < n
    requires forall r, c :: 0 <= r < n && 0 <= c < n && !(r == i && c == j) ==> Entry(m')(r, c) == Entry(m)(r, c)
    requires Entry(m)(i, j) == Entry(a)(piv[i], j)
    requires Cong(s, Partial(m, i, j, Min(i, j)), p)
    requires Cong(Entry(m')(i, j), Entry(m)(i, j) - s, p)
    ensures Raw(a, m', piv, i, j, p)
  {
    hide Residue, Entry;
    var d := Partial(m, i, j, Min(i, j));
    PartialFrame(m, m', i, i, j, Min(i, j));
    CongAdd(Entry(m)(i, j), Entry(m)(i, j), s, d, p);
    CongAdd(Entry(m')(i, j), Entry(m)(i, j) - d, d, d, p);
  }

  /** The row that comes to place i. */
  ghost function Partner(i: nat, j: nat, q: nat): nat {
    if i == j then q else if i == q then j else i
  }

  lemma ExchangeDone(a: Matrix, m: Matrix, m': Matrix, piv: seq<int>, piv': seq<int>, j: nat, q: nat, i: nat, c: nat, p: int)
    requires p > 0 && |m| == |m'| == |piv| && j <= q < |m| && i < |m| && c < j
    requires m' == m[q := m[j]][j := m[q]] && piv' == piv[q := piv[j]][j := piv[q]]
    requires Done(a, m, piv, Partner(i, j, q), c, p)
    ensures Done(a, m', piv', i, c, p)
  {
    hide Cong;
    PartialFrame(m, m', Partner(i, j, q), i, c, if i <= c then i else c + 1);
  }

  lemma ExchangeRaw(a: Matrix, m: Matrix, m': Matrix, piv: seq<int>, piv': seq<int>, j: nat, q: nat, i: nat, p: int)
    requires p > 0 && |m| == |m'| == |piv| && j <= q < |m| && i < |m|
    requires m' == m[q := m[j]][j := m[q]] && piv' == piv[q := piv[j]][j := piv[q]]
    requires Raw(a, m, piv, Partner(i, j, q), j, p)
    ensures Raw(a, m', piv', i, j, p)
  {
    hide Cong;
    PartialFrame(m, m', Partner(i, j, q), i, j, Min(i, j));
  }

  /** Exchanging rows j and q, both at or below the column just made raw. */
  lemma ExchangeRows(a: Matrix, m: Matrix, m': Matrix, piv: seq<int>, piv': seq<int>, j: nat, q: nat, n: int, p: int)
    requires p > 0 && |m| == |m'| == |piv| == n && j <= q < n
    requires m' == m[q := m[j]][j := m[q]] && piv' == piv[q := piv[j]][j := piv[q]]
    requires ColumnsDone(a, m, piv, j, n, p) && ColumnRaw(a, m, piv, j, n, p) && ColumnsPending(a, m, piv, j + 1, n)
    ensures ColumnsDone(a, m', piv', j, n, p) && ColumnRaw(a, m', piv', j, n, p) && ColumnsPending(a, m', piv', j + 1, n)
  {
    hide Cong, Raw, Done;
    forall i, c | 0 <= i < n && 0 <= c < j ensures Done(a, m', piv', i, c, p) {
      assert Done(a, m, piv, Partner(i, j, q), c, p);
      ExchangeDone(a, m, m', piv, piv', j, q, i, c, p);
    }
    forall i | 0 <= i < n ensures Raw(a, m', piv', i, j, p) {
      assert Raw(a, m, piv, Partner(i, j, q), j, p);
      ExchangeRaw(a, m, m', piv, piv', j, q, i, p);
    }
    forall i, c | 0 <= i < n && j + 1 <= c < n ensures Entry(m')(i, c) == Entry(a)(piv'[i], c) {
      assert Entry(m)(Partner(i, j, q), c) == Entry(a)(piv[Partner(i, j, q)], c);
    }
  }

  lemma ExchangePermutation(piv: seq<int>, piv': seq<int>, j: nat, q: nat, n: int)
    requires Permutation(piv, n) && j <= q < n && piv' == piv[q := piv[j]][j := piv[q]]
    ensures Permutation(piv', n)
  {
    var s := i => if i == j then q else if i == q then j else i;
    forall i, k | 0 <= i < k < n ensures piv'[i] != piv'[k] {
      assert piv'[i] == piv[s(i)] && piv'[k] == piv[s(k)];
    }
  }

  /** Dividing the entries below the diagonal of column j by the pivot makes it final. */
  lemma ScaleColumn(a: Matrix, m: Matrix, m': Matrix, piv: seq<int>, j: nat, n: int, p: int)
    requires p > 0 && |piv| == n && j < n
    requires ColumnsDone(a, m, piv, j, n, p) && ColumnRaw(a, m, piv, j, n, p)
    requires forall r, c :: 0 <= r < n && 0 <= c < n && !(r > j && c == j) ==> Entry(m')(r, c) == Entry(m)(r, c)
    requires forall r :: j < r < n ==> Cong(Entry(m')(r, j) * Entry(m)(j, j), Entry(m)(r, j), p)
    ensures ColumnsDone(a, m', piv, j + 1, n, p)
  {
    hide Residue, Entry;
    DoneFrame(a, m, m', piv, j, n, p);
    forall i | 0 <= i < n ensures Done(a, m', piv, i, j, p) {
      assert Raw(a, m, piv, i, j, p);
      PartialFrame(m, m', i, i, j, Min(i, j));
      if i > j {
        SumLast(LTerm(m', i, j), 0, j + 1);
        CongAdd(Partial(m, i, j, j), Partial(m, i, j, j), Entry(m')(i, j) * Entry(m)(j, j), Entry(m)(i, j), p);
      }
    }
    forall i, c | 0 <= i < n && 0 <= c < j + 1 ensures Done(a, m', piv, i, c, p) { }
  }

  /** P * A = L * U. */
  ghost predicate Factors(a: Matrix, m: Matrix, piv: seq<int>, n: int, p: int)
    requires p > 0 && |piv| == n
  {
    forall i, c :: 0 <= i < n && 0 <= c < n ==>
      Cong(Entry(a)(piv[i], c), MatMul(Lower(m), Upper(m), n)(i, c), p)
  }

  lemma DoneIsFactored(a: Matrix, m: Matrix, piv: seq<int>, n: int, p: int)
    requires p > 0 && |piv| == n && ColumnsDone(a, m, piv, n, n, p)
    ensures Factors(a, m, piv, n, p)
  {
    hide Cong;
    forall i, c | 0 <= i < n && 0 <= c < n
      ensures Cong(Entry(a)(piv[i], c), MatMul(Lower(m), Upper(m), n)(i, c), p)
    {
      assert Done(a, m, piv, i, c, p);
      FactorEntry(m, i, c, n);
    }
  }

  lemma FactorEntry(m: Matrix, i: int, c: int, n: int)
    requires 0 <= i < n && 0 <= c < n
    ensures MatMul(Lower(m), Upper(m), n)(i, c)
      == if i <= c then Partial(m, i, c, i) + Entry(m)(i, c) else Partial(m, i, c, c + 1)
  {
    var f := Row(Lower(m), i, Col(Upper(m), c));
    var h := if i <= c then i else c + 1;
    forall k | 0 <= k < h ensures f(k) == LTerm(m, i, c)(k) { }
    SumSame(f, LTerm(m, i, c), 0, h);
    SumSplit(f, 0, h, n);
    if i <= c {
      assert f(i) == 1 * Entry(m)(i, c);
      forall k | i + 1 <= k < n ensures f(k) == 0 {
        assert 0 * Upper(m)(k, c) == 0;
      }
      SumZero(f, i + 1, n);
    } else {
      forall k | c + 1 <= k < n ensures f(k) == 0 {
        assert Lower(m)(i, k) * 0 == 0;
      }
      SumZero(f, c + 1, n);
    }
  }

  // ----- solving with the factors -----

  /** After t rounds of forward substitution on the right hand sides x0. */
  ghost predicate Forward(m: Matrix, x0: Matrix, x: Matrix, t: int, n: int, p: int)
    requires p > 0
  {
    forall i, c :: 0 <= i < n && 0 <= c < n ==>
      Cong(Entry(x0)(i, c), Sum(Row(Entry(m), i, Col(Entry(x), c)), 0, Min(i, t)) + Entry(x)(i, c), p)
  }

  lemma ForwardStart(m: Matrix, x: Matrix, n: int, p: int)
    requires p > 0
    ensures Forward(m, x, x, 0, n, p)
  {
  }

  lemma ForwardStep(m: Matrix, x0: Matrix, x: Matrix, x': Matrix, k: nat, n: int, p: int)
    requires p > 0 && k < n && Forward(m, x0, x, k, n, p)
    requires forall i, c :: 0 <= i <= k && 0 <= c < n ==> Entry(x')(i, c) == Entry(x)(i, c)
    requires forall i, c :: k < i < n && 0 <= c < n ==>
      Cong(Entry(x')(i, c), Entry(x)(i, c) - Entry(x)(k, c) * Entry(m)(i, k), p)
    ensures Forward(m, x0, x', k + 1, n, p)
  {
    hide Cong, Entry, Sum, Min, Row, Col;
    forall i, c | 0 <= i < n && 0 <= c < n
      ensures Cong(Entry(x0)(i, c), Sum(Row(Entry(m), i, Col(Entry(x'), c)), 0, Min(i, k + 1)) + Entry(x')(i, c), p)
    {
      ForwardEntry(m, x0, x, x', k, i, c, p);
    }
  }

  lemma ForwardEntry(m: Matrix, x0: Matrix, x: Matrix, x': Matrix, k: nat, i: nat, c: nat, p: int)
    requires p > 0
    requires Cong(Entry(x0)(i, c), Sum(Row(Entry(m), i, Col(Entry(x), c)), 0, Min(i, k)) + Entry(x)(i, c), p)
    requires forall l :: 0 <= l <= k ==> Entry(x')(l, c) == Entry(x)(l, c)
    requires i > k ==> Cong(Entry(x')(i, c), Entry(x)(i, c) - Entry(x)(k, c) * Entry(m)(i, k), p)
    ensures Cong(Entry(x0)(i, c), Sum(Row(Entry(m), i, Col(Entry(x'), c)), 0, Min(i, k + 1)) + Entry(x')(i, c), p)
  {
    hide Residue, Entry, Sum;
    var f, f' := Row(Entry(m), i, Col(Entry(x), c)), Row(Entry(m), i, Col(Entry(x'), c));
    SumSame(f, f', 0, Min(i, k));
    if i > k {
      SumLast(f', 0, k + 1);
      assert f'(k) == Entry(m)(i, k) * Entry(x)(k, c);
      SubtractTerm(Entry(x0)(i, c), Sum(f, 0, k), Entry(x)(i, c), Entry(x')(i, c), Entry(x)(k, c), Entry(m)(i, k), p);
    }
  }

  lemma SubtractTerm(b: int, s: int, x: int, x': int, y: int, m: int, p: int)
    requires p > 0 && Cong(b, s + x, p) && Cong(x', x - y * m, p)
    ensures Cong(b, (s + m * y) + x', p) && Cong(b, (m * y + s) + x', p)
  {
    hide Residue;
    SwapFactors(y, m);
    CongAdd(x', x - y * m, m * y, y * m, p);
    CongAdd(s, s, x' + m * y, x, p);
    assert s + (x' + m * y) == (s + m * y) + x' == (m * y + s) + x';
  }

  /** What row i of the result still contributes on the diagonal. */
  ghost function Diagonal(m: Matrix, x: Matrix, i: int, c: int, t: int): int {
    if i >= t then Entry(m)(i, i) * Entry(x)(i, c) else Entry(x)(i, c)
  }

  ghost function Max(a: int, b: int): int { if a > b then a else b }

  /** After rounds n - 1 .. t of back substitution on y. */
  ghost predicate Backward(m: Matrix, y: Matrix, x: Matrix, t: int, n: int, p: int)
    requires p > 0
  {
    forall i, c :: 0 <= i < n && 0 <= c < n ==>
      Cong(Entry(y)(i, c), Sum(Row(Entry(m), i, Col(Entry(x), c)), Max(t, i + 1), n) + Diagonal(m, x, i, c, t), p)
  }

  lemma BackwardStart(m: Matrix, y: Matrix, n: int, p: int)
    requires p > 0
    ensures Backward(m, y, y, n, n, p)
  {
  }

  lemma BackwardStep(m: Matrix, y: Matrix, x: Matrix, x': Matrix, k: nat, n: int, p: int)
    requires p > 0 && k < n && Backward(m, y, x, k + 1, n, p)
    requires forall i, c :: k < i < n && 0 <= c < n ==> Entry(x')(i, c) == Entry(x)(i, c)
    requires forall c :: 0 <= c < n ==> Cong(Entry(m)(k, k) * Entry(x')(k, c), Entry(x)(k, c), p)
    requires forall i, c :: 0 <= i < k && 0 <= c < n ==>
      Cong(Entry(x')(i, c), Entry(x)(i, c) - Entry(x')(k, c) * Entry(m)(i, k), p)
    ensures Backward(m, y, x', k, n, p)
  {
    hide Cong, Entry, Diagonal, Sum, Max, Row, Col;
    forall i, c | 0 <= i < n && 0 <= c < n
      ensures Cong(Entry(y)(i, c), Sum(Row(Entry(m), i, Col(Entry(x'), c)), Max(k, i + 1), n) + Diagonal(m, x', i, c, k), p)
    {
      assert Cong(Entry(y)(i, c), Sum(Row(Entry(m), i, Col(Entry(x), c)), Max(k + 1, i + 1), n) + Diagonal(m, x, i, c, k + 1), p);
      BackwardEntry(m, y, x, x', k, i, c, n, p);
    }
  }

  lemma DiagonalIs(m: Matrix, x: Matrix, i: int, c: int, t: int)
    ensures Diagonal(m, x, i, c, t) == if i >= t then Entry(m)(i, i) * Entry(x)(i, c) else Entry(x)(i, c)
  {
  }

  /** Rows of the result beyond k are not touched. */
  lemma RowFrame(m: Matrix, x: Matrix, x': Matrix, k: nat, i: nat, c: nat, n: int)
    requires forall l :: k < l < n ==> Entry(x')(l, c) == Entry(x)(l, c)
    ensures Sum(Row(Entry(m), i, Col(Entry(x), c)), Max(k + 1, i + 1), n) == Sum(Row(Entry(m), i, Col(Entry(x'), c)), Max(k + 1, i + 1), n)
  {
    hide Entry;
    SumSame(Row(Entry(m), i, Col(Entry(x), c)), Row(Entry(m), i, Col(Entry(x'), c)), Max(k + 1, i + 1), n);
  }

  lemma RowHead(m: Matrix, x': Matrix, k: nat, i: nat, c: nat, n: int)
    requires k < n
    ensures var f' := Row(Entry(m), i, Col(Entry(x'), c));
      Sum(f', k, n) == Entry(m)(i, k) * Entry(x')(k, c) + Sum(f', k + 1, n)
  {
    hide Entry;
  }

  lemma SameTerm(b: int, s: int, t: int, u: int, p: int)
    requires p > 0 && Cong(b, s + u, p) && Cong(t, u, p)
    ensures Cong(b, s + t, p)
  {
    hide Residue;
    CongAdd(s, s, t, u, p);
  }

  lemma BackwardEntry(m: Matrix, y: Matrix, x: Matrix, x': Matrix, k: nat, i: nat, c: nat, n: int, p: int)
    requires p > 0 && k < n && i < n
    requires Cong(Entry(y)(i, c), Sum(Row(Entry(m), i, Col(Entry(x), c)), Max(k + 1, i + 1), n) + Diagonal(m, x, i, c, k + 1), p)
    requires forall l :: k < l < n ==> Entry(x')(l, c) == Entry(x)(l, c)
    requires Cong(Entry(m)(k, k) * Entry(x')(k, c), Entry(x)(k, c), p)
    requires i < k ==> Cong(Entry(x')(i, c), Entry(x)(i, c) - Entry(x')(k, c) * Entry(m)(i, k), p)
    ensures Cong(Entry(y)(i, c), Sum(Row(Entry(m), i, Col(Entry(x'), c)), Max(k, i + 1), n) + Diagonal(m, x', i, c, k), p)
  {
    hide Residue, Entry, Cong, Sum, Row, Col, Diagonal;
    var f, f' := Row(Entry(m), i, Col(Entry(x), c)), Row(Entry(m), i, Col(Entry(x'), c));
    RowFrame(m, x, x', k, i, c, n);
    DiagonalIs(m, x, i, c, k + 1);
    DiagonalIs(m, x', i, c, k);
    if i < k {
      RowHead(m, x', k, i, c, n);
      SubtractTerm(Entry(y)(i, c), Sum(f, k + 1, n), Entry(x)(i, c), Entry(x')(i, c), Entry(x')(k, c), Entry(m)(i, k), p);
    } else if i == k {
      SameTerm(Entry(y)(i, c), Sum(f, k + 1, n), Entry(m)(k, k) * Entry(x')(k, c), Entry(x)(k, c), p);
    }
  }

  /** L * Y = x0, U * X = Y: row by row, L * (U * X) = x0. */
  lemma SolvedSystem(m: Matrix, x0: Matrix, y: Matrix, x: Matrix, n: int, p: int)
    requires p > 0 && Forward(m, x0, y, n, n, p) && Backward(m, y, x, 0, n, p)
    ensures MatCong(MatMul(MatMul(Lower(m), Upper(m), n), Entry(x), n), Entry(x0), n, p)
  {
    hide Cong, Entry;
    forall i, c | 0 <= i < n && 0 <= c < n
      ensures Cong(MatMul(MatMul(Lower(m), Upper(m), n), Entry(x), n)(i, c), Entry(x0)(i, c), p)
    {
      SolvedEntry(m, x0, y, x, i, c, n, p);
    }
  }

  lemma SolvedEntry(m: Matrix, x0: Matrix, y: Matrix, x: Matrix, i: int, c: int, n: int, p: int)
    requires p > 0 && Forward(m, x0, y, n, n, p) && Backward(m, y, x, 0, n, p) && 0 <= i < n && 0 <= c < n
    ensures Cong(MatMul(MatMul(Lower(m), Upper(m), n), Entry(x), n)(i, c), Entry(x0)(i, c), p)
  {
    hide Residue, Entry, Sum, Lower, Upper, Apply;
    var xc, yc := Col(Entry(x), c), Col(Entry(y), c);
    var ux := k => Apply(Upper(m), xc, n, k);
    forall k | 0 <= k < n ensures Cong(ux(k), yc(k), p) {
      BackEntry(m, y, x, k, c, n, p);
    }
    ApplyCong(Lower(m), Lower(m), ux, yc, n, i, p);
    LowerRow(m, y, i, c, n);
    assert Cong(Entry(x0)(i, c), Sum(Row(Entry(m), i, yc), 0, i) + Entry(y)(i, c), p);
    ApplyAssoc(Lower(m), Upper(m), xc, n, i);
  }

  lemma BackEntry(m: Matrix, y: Matrix, x: Matrix, k: int, c: int, n: int, p: int)
    requires p > 0 && Backward(m, y, x, 0, n, p) && 0 <= k < n && 0 <= c < n
    ensures Cong(Apply(Upper(m), Col(Entry(x), c), n, k), Entry(y)(k, c), p)
  {
    hide Residue, Entry, Sum, Upper, Apply;
    UpperRow(m, x, k, c, n);
    assert Cong(Entry(y)(k, c), Sum(Row(Entry(m), k, Col(Entry(x), c)), Max(0, k + 1), n) + Diagonal(m, x, k, c, 0), p);
  }

  lemma UpperRow(m: Matrix, x: Matrix, k: int, c: int, n: int)
    requires 0 <= k < n
    ensures Apply(Upper(m), Col(Entry(x), c), n, k)
      == Sum(Row(Entry(m), k, Col(Entry(x), c)), k + 1, n) + Entry(m)(k, k) * Entry(x)(k, c)
  {
    hide Entry;
    var f, g := Row(Upper(m), k, Col(Entry(x), c)), Row(Entry(m), k, Col(Entry(x), c));
    SumSplit(f, 0, k, n);
    forall l | 0 <= l < k ensures f(l) == 0 {
      assert 0 * Entry(x)(l, c) == 0;
    }
    SumZero(f, 0, k);
    SumSame(f, g, k, n);
  }

  lemma LowerRow(m: Matrix, y: Matrix, i: int, c: int, n: int)
    requires 0 <= i < n
    ensures Apply(Lower(m), Col(Entry(y), c), n, i)
      == Sum(Row(Entry(m), i, Col(Entry(y), c)), 0, i) + Entry(y)(i, c)
  {
    hide Entry;
    var f, g := Row(Lower(m), i, Col(Entry(y), c)), Row(Entry(m), i, Col(Entry(y), c));
    SumSplit(f, 0, i, n);
    SumSame(f, g, 0, i);
    forall l | i + 1 <= l < n ensures f(l) == 0 {
      assert 0 * Entry(y)(l, c) == 0;
    }
    SumZero(f, i + 1, n);
    assert f(i) == 1 * Entry(y)(i, c);
  }

  // ----- the inverse -----

  /** Every row index is reached by a permutation. */
  lemma PermutationReaches(piv: seq<int>, n: nat, r: int) returns (i: int)
    requires Permutation(piv, n) && 0 <= r < n
    ensures 0 <= i < n && piv[i] == r
  {
    if forall k :: 0 <= k < n ==> piv[k] != r {
      var image := Image(piv, n);
      assert image <= Below(n) - {r};
      SubsetSize(image, Below(n) - {r});
      assert false;
    }
    i :| 0 <= i < n && piv[i] == r;
  }

  ghost function Below(n: nat): (s: set<int>)
    ensures |s| == n && forall k :: k in s <==> 0 <= k < n
  {
    if n == 0 then {} else Below(n - 1) + {n - 1}
  }

  lemma {:induction false} Image(piv: seq<int>, k: nat) returns (s: set<int>)
    requires k <= |piv| && forall i, j :: 0 <= i < j < |piv| ==> piv[i] != piv[j]
    ensures |s| == k && forall v :: v in s ==> exists i :: 0 <= i < k && piv[i] == v
  {
    if k == 0 {
      s := {};
    } else {
      var t := Image(piv, k - 1);
      forall v | v in t ensures v != piv[k - 1] {
        var i :| 0 <= i < k - 1 && piv[i] == v;
      }
      s := t + {piv[k - 1]};
      forall v | v in s ensures exists i :: 0 <= i < k && piv[i] == v {
        if v == piv[k - 1] {
          assert piv[k - 1] == v;
        }
      }
    }
  }

  lemma {:induction false} SubsetSize(a: set<int>, b: set<int>)
    requires a <= b
    ensures |a| <= |b|
  {
    assert b == a + (b - a);
  }

  ghost predicate IsIdentity(f: Fn, n: int, p: int)
    requires p > 0
  {
    MatCong(f, Identity(), n, p)
  }

  /** (P A) X = P I gives A X = I. */
  lemma RightInverse(a: Matrix, m: Matrix, piv: seq<int>, x0: Matrix, x: Matrix, n: nat, p: int)
    requires p > 0 && Permutation(piv, n) && Factors(a, m, piv, n, p)
    requires MatCong(MatMul(MatMul(Lower(m), Upper(m), n), Entry(x), n), Entry(x0), n, p)
    requires forall i, c :: 0 <= i < n && 0 <= c < n ==> Entry(x0)(i, c) == Identity()(piv[i], c)
    ensures IsIdentity(MatMul(Entry(a), Entry(x), n), n, p)
  {
    hide Cong, Entry, Identity;
    forall r, c | 0 <= r < n && 0 <= c < n
      ensures Cong(MatMul(Entry(a), Entry(x), n)(r, c), Identity()(r, c), p)
    {
      var i := PermutationReaches(piv, n, r);
      PermutedRow(a, m, piv, x, n, i, c, p);
      assert Cong(MatMul(MatMul(Lower(m), Upper(m), n), Entry(x), n)(i, c), Entry(x0)(i, c), p);
      CongChain(MatMul(Entry(a), Entry(x), n)(r, c), MatMul(MatMul(Lower(m), Upper(m), n), Entry(x), n)(i, c), Entry(x0)(i, c), p);
    }
  }

  lemma CongChain(a: int, b: int, c: int, p: int)
    requires p > 0 && Cong(a, b, p) && Cong(b, c, p)
    ensures Cong(a, c, p)
  {
  }

  lemma PermutedRow(a: Matrix, m: Matrix, piv: seq<int>, x: Matrix, n: nat, i: int, c: int, p: int)
    requires p > 0 && Permutation(piv, n) && Factors(a, m, piv, n, p) && 0 <= i < n && 0 <= c < n
    ensures Cong(MatMul(Entry(a), Entry(x), n)(piv[i], c), MatMul(MatMul(Lower(m), Upper(m), n), Entry(x), n)(i, c), p)
  {
    hide Residue, Entry;
    var g := MatMul(Lower(m), Upper(m), n);
    var z := Col(Entry(x), c);
    forall k | 0 <= k < n ensures Cong(Row(Entry(a), piv[i], z)(k), Row(g, i, z)(k), p) {
      assert Cong(Entry(a)(piv[i], k), g(i, k), p);
      CongMul(Entry(a)(piv[i], k), g(i, k), z(k), z(k), p);
    }
    SumCong(Row(Entry(a), piv[i], z), Row(g, i, z), 0, n, p);
  }

  /** A regular factored matrix is injective. */
  lemma FactoredInjective(a: Matrix, m: Matrix, piv: seq<int>, z: int -> int, n: nat, p: int)
    requires IsPrime(p) && Permutation(piv, n) && Factors(a, m, piv, n, p) && Regular(m, n, p)
    requires forall r :: 0 <= r < n ==> Cong(Apply(Entry(a), z, n, r), 0, p)
    ensures VecZero(z, n, p)
  {
    assert p > 0;
    hide Residue, Entry, IsPrime, Regular;
    var g := MatMul(Lower(m), Upper(m), n);
    var uz := k => Apply(Upper(m), z, n, k);
    forall i | 0 <= i < n ensures Cong(Apply(Lower(m), uz, n, i), 0, p) {
      ApplyAssoc(Lower(m), Upper(m), z, n, i);
      FactoredRow(a, m, piv, z, n, i, p);
      assert Cong(Apply(Entry(a), z, n, piv[i]), 0, p);
    }
    LowerInjective(m, uz, n, n, p);
    forall k | 0 <= k < n ensures Cong(Apply(Upper(m), z, n, k), 0, p) {
      assert Cong(uz(k), 0, p);
    }
    UpperInjective(m, z, n, 0, p);
  }

  lemma FactoredRow(a: Matrix, m: Matrix, piv: seq<int>, z: int -> int, n: nat, i: int, p: int)
    requires p > 0 && Permutation(piv, n) && Factors(a, m, piv, n, p) && 0 <= i < n
    ensures Cong(Apply(Entry(a), z, n, piv[i]), Apply(MatMul(Lower(m), Upper(m), n), z, n, i), p)
  {
    hide Residue, Entry;
    var g := MatMul(Lower(m), Upper(m), n);
    forall k | 0 <= k < n ensures Cong(Row(Entry(a), piv[i], z)(k), Row(g, i, z)(k), p) {
      assert Cong(Entry(a)(piv[i], k), g(i, k), p);
      CongMul(Entry(a)(piv[i], k), g(i, k), z(k), z(k), p);
    }
    SumCong(Row(Entry(a), piv[i], z), Row(g, i, z), 0, n, p);
  }

  /** A right inverse of a regular factored matrix is a left inverse too. */
  lemma LeftInverse(a: Matrix, m: Matrix, piv: seq<int>, x: Matrix, n: nat, p: int)
    requires IsPrime(p) && Permutation(piv, n) && Factors(a, m, piv, n, p) && Regular(m, n, p)
    requires IsIdentity(MatMul(Entry(a), Entry(x), n), n, p)
    ensures IsIdentity(MatMul(Entry(x), Entry(a), n), n, p)
  {
    assert p > 0;
    hide Cong, Entry, IsPrime, Regular, Factors, Permutation;
    forall r, c | 0 <= r < n && 0 <= c < n
      ensures Cong(MatMul(Entry(x), Entry(a), n)(r, c), Identity()(r, c), p)
    {
      LeftInverseColumn(a, m, piv, x, n, r, c, p);
    }
  }

  lemma LeftInverseColumn(a: Matrix, m: Matrix, piv: seq<int>, x: Matrix, n: nat, r: int, c: int, p: int)
    requires IsPrime(p) && Permutation(piv, n) && Factors(a, m, piv, n, p) && Regular(m, n, p)
    requires IsIdentity(MatMul(Entry(a), Entry(x), n), n, p) && 0 <= r < n && 0 <= c < n
    ensures Cong(MatMul(Entry(x), Entry(a), n)(r, c), Identity()(r, c), p)
  {
    assert p > 0;
    hide Residue, Entry, IsPrime, Regular, Factors, Permutation;
    var ac, e := Col(Entry(a), c), Col(Identity(), c);
    var xa := k => Apply(Entry(x), ac, n, k);
    var z := k => xa(k) - e(k);
    forall i | 0 <= i < n ensures Cong(Apply(Entry(a), z, n, i), 0, p) {
      ApplySub(Entry(a), xa, e, z, n, i);
      ApplyAssoc(Entry(a), Entry(x), ac, n, i);
      forall k | 0 <= k < n ensures Cong(MatMul(Entry(a), Entry(x), n)(i, k), Identity()(i, k), p) { }
      ApplyCong(MatMul(Entry(a), Entry(x), n), Identity(), ac, ac, n, i, p);
      ApplyIdentity(ac, n, i);
      ApplyUnit(Entry(a), n, i, c);
      CongAdd(Apply(Entry(a), xa, n, i), Entry(a)(i, c), Apply(Entry(a), e, n, i), Entry(a)(i, c), p);
    }
    FactoredInjective(a, m, piv, z, n, p);
    assert Cong(z(r), 0, p);
    CongAdd(z(r), 0, e(r), e(r), p);
  }

  lemma ApplyUnit(f: Fn, n: int, i: int, c: int)
    requires 0 <= c < n
    ensures Apply(f, Col(Identity(), c), n, i) == f(i, c)
  {
    var r := Row(f, i, Col(Identity(), c));
    forall k | 0 <= k < n && k != c ensures r(k) == 0 {
      assert f(i, k) * 0 == 0;
    }
    SumSingle(r, 0, n, c);
    assert f(i, c) * 1 == f(i, c);
  }

  /** The matrix maps a nonzero vector to 0. */
  ghost predicate Singular(a: Matrix, n: nat, p: int)
    requires p > 0
  {
    exists z: seq<int> :: |z| == n && Kernel(a, z, n, p) && !VecZero(Vec(z), n, p)
  }

  ghost predicate Kernel(a: Matrix, z: seq<int>, n: nat, p: int)
    requires p > 0
  {
    forall r :: 0 <= r < n ==> Cong(Apply(Entry(a), Vec(z), n, r), 0, p)
  }

  /** A zero pivot makes the matrix singular. */
  lemma ZeroPivotIsSingular(a: Matrix, m: Matrix, piv: seq<int>, t: nat, n: nat, p: int)
    requires IsPrime(p) && Permutation(piv, n) && Factors(a, m, piv, n, p) && t < n
    requires Cong(Entry(m)(t, t), 0, p) && forall i :: 0 <= i < t ==> !Cong(Entry(m)(i, i), 0, p)
    ensures Singular(a, n, p)
  {
    assert p >= 2;
    OneNotZero(p);
    hide Residue, IsPrime, Entry;
    var z := UpperKernel(m, n, t, p);
    var v := Vec(z);
    forall r | 0 <= r < n ensures Cong(Apply(Entry(a), v, n, r), 0, p) {
      var i := PermutationReaches(piv, n, r);
      FactoredRow(a, m, piv, v, n, i, p);
      var uz := k => Apply(Upper(m), v, n, k);
      ApplyAssoc(Lower(m), Upper(m), v, n, i);
      forall k | 0 <= k < n ensures Cong(Row(Lower(m), i, uz)(k), 0, p) {
        CongMul(Lower(m)(i, k), Lower(m)(i, k), uz(k), 0, p);
      }
      ZeroTerms(Row(Lower(m), i, uz), 0, n, p);
    }
    assert Kernel(a, z, n, p);
    assert !Cong(v(t), 0, p);
  }

  lemma OneNotZero(p: int)
    requires p >= 2
    ensures !Cong(1, 0, p)
  {
  }
}
