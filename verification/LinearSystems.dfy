/** Linear systems over Z_p as sequences of rows. A row of the augmented matrix of a system
    in n unknowns has n coefficients followed by its right hand side. */
module LinearSystems {
  import opened Residues
  import opened Sums
  import opened NumTheory

  type Matrix = seq<seq<int>>

  ghost predicate Shape(m: Matrix, rows: int, cols: int) {
    |m| == rows && forall i :: 0 <= i < rows ==> |m[i]| == cols
  }

  ghost predicate ReducedMatrix(m: Matrix, p: int) {
    forall i, j :: 0 <= i < |m| && 0 <= j < |m[i]| ==> 0 <= m[i][j] < p
  }

  ghost function Term(row: seq<int>, x: seq<int>): int -> int {
    k => At(row, k) * At(x, k)
  }

  ghost function Lhs(row: seq<int>, x: seq<int>, n: int): int {
    Sum(Term(row, x), 0, n)
  }

  ghost predicate RowHolds(row: seq<int>, x: seq<int>, n: int, p: int)
    requires p > 0
  {
    Cong(Lhs(row, x, n), At(row, n), p)
  }

  ghost predicate Solves(m: Matrix, x: seq<int>, n: int, p: int)
    requires p > 0
  {
    forall i :: 0 <= i < |m| ==> RowHolds(m[i], x, n, p)
  }

  /** Both systems have the same solutions. */
  ghost predicate Equivalent(m: Matrix, m': Matrix, n: int, p: int)
    requires p > 0
  {
    forall x: seq<int> :: Solves(m, x, n, p) <==> Solves(m', x, n, p)
  }

  // ----- row operations -----

  lemma ScaleRowSum(row: seq<int>, row': seq<int>, c: int, x: seq<int>, n: int, p: int)
    requires p > 0 && forall k :: 0 <= k <= n ==> Cong(At(row', k), At(row, k) * c, p)
    ensures Cong(Lhs(row', x, n), c * Lhs(row, x, n), p)
  {
    hide Residue;
    var h := k => c * Term(row, x)(k);
    forall k | 0 <= k < n ensures Cong(Term(row', x)(k), h(k), p) {
      CongMul(At(row', k), At(row, k) * c, At(x, k), At(x, k), p);
      ScaleTerm(At(row, k), c, At(x, k));
      assert Term(row, x)(k) == At(row, k) * At(x, k);
      assert h(k) == c * Term(row, x)(k);
    }
    SumCong(Term(row', x), h, 0, n, p);
    SumScale(c, Term(row, x), h, 0, n);
  }

  lemma ScaleTerm(a: int, c: int, x: int)
    ensures (a * c) * x == c * (a * x)
  {
  }

  lemma RowScaled(row: seq<int>, row': seq<int>, c: int, x: seq<int>, n: int, p: int)
    requires IsPrime(p) && n >= 0 && !Cong(c, 0, p)
    requires forall k :: 0 <= k <= n ==> Cong(At(row', k), At(row, k) * c, p)
    ensures RowHolds(row', x, n, p) <==> RowHolds(row, x, n, p)
  {
    ScaleRowSum(row, row', c, x, n, p);
    ScaledEquality(Lhs(row, x, n), At(row, n), Lhs(row', x, n), At(row', n), c, p);
  }

  lemma ScaledEquality(l: int, b: int, l': int, b': int, c: int, p: int)
    requires IsPrime(p) && !Cong(c, 0, p) && Cong(l', c * l, p) && Cong(b', b * c, p)
    ensures Cong(l', b', p) <==> Cong(l, b, p)
  {
    hide Residue;
    assert b * c == c * b;
    if Cong(l, b, p) {
      CongMul(c, c, l, b, p);
    }
    if Cong(l', b', p) {
      CongAdd(c * l, c * b, c * b, c * b, p);
      assert c * l - c * b == c * (l - b);
      NoZeroDivisors(c, l - b, p);
      CongAdd(l - b, 0, b, b, p);
    }
  }

  lemma RowCombined(row: seq<int>, pivot: seq<int>, row': seq<int>, c: int, x: seq<int>, n: int, p: int)
    requires p > 0 && n >= 0
    requires forall k :: 0 <= k <= n ==> Cong(At(row', k), At(row, k) - At(pivot, k) * c, p)
    requires RowHolds(pivot, x, n, p)
    ensures RowHolds(row', x, n, p) <==> RowHolds(row, x, n, p)
  {
    hide Residue;
    var h := k => Term(row, x)(k) + (-c) * Term(pivot, x)(k);
    forall k | 0 <= k < n ensures Cong(Term(row', x)(k), h(k), p) {
      CombinedTerm(row, pivot, row', c, x, k, p);
    }
    hide Term, Lhs, Sum, RowHolds;
    SumCong(Term(row', x), h, 0, n, p);
    SumLinear(Term(row, x), -c, Term(pivot, x), h, 0, n);
    CombinedEquality(Lhs(row, x, n), At(row, n), Lhs(pivot, x, n), At(pivot, n),
                     Lhs(row', x, n), At(row', n), c, p);
  }

  lemma CombinedTerm(row: seq<int>, pivot: seq<int>, row': seq<int>, c: int, x: seq<int>, k: int, p: int)
    requires p > 0 && Cong(At(row', k), At(row, k) - At(pivot, k) * c, p)
    ensures Cong(Term(row', x)(k), Term(row, x)(k) + (-c) * Term(pivot, x)(k), p)
  {
    hide Residue, Cong;
    CongMul(At(row', k), At(row, k) - At(pivot, k) * c, At(x, k), At(x, k), p);
    CombineTerm(At(row, k), At(pivot, k), c, At(x, k));
  }

  lemma CombineTerm(a: int, s: int, c: int, x: int)
    ensures (a - s * c) * x == a * x + (-c) * (s * x)
  {
  }

  lemma CombinedEquality(l: int, b: int, s: int, t: int, l': int, b': int, c: int, p: int)
    requires p > 0 && Cong(s, t, p)
    requires Cong(l', l + (-c) * s, p) && Cong(b', b - t * c, p)
    ensures Cong(l', b', p) <==> Cong(l, b, p)
  {
    hide Residue;
    CongMul(-c, -c, s, t, p);
    assert b - t * c == b + (-c) * t;
    if Cong(l, b, p) {
      CongAdd(l, b, (-c) * s, (-c) * t, p);
    }
    if Cong(l', b', p) {
      CongAdd(l + (-c) * s, b + (-c) * t, (-c) * s, (-c) * t, p);
    }
  }

  lemma SwapEquivalent(m: Matrix, m': Matrix, i: nat, j: nat, n: int, p: int)
    requires p > 0 && i < |m| && j < |m| && m' == m[i := m[j]][j := m[i]]
    ensures Equivalent(m, m', n, p)
  {
    hide RowHolds;
    forall x: seq<int> ensures Solves(m, x, n, p) <==> Solves(m', x, n, p) {
      if Solves(m, x, n, p) {
        forall k | 0 <= k < |m'| ensures RowHolds(m'[k], x, n, p) {
          assert RowHolds(m[if k == i then j else if k == j then i else k], x, n, p);
        }
      }
      if Solves(m', x, n, p) {
        forall k | 0 <= k < |m| ensures RowHolds(m[k], x, n, p) {
          assert RowHolds(m'[if k == i then j else if k == j then i else k], x, n, p);
        }
      }
    }
  }

  lemma ScaleEquivalent(m: Matrix, i: nat, row': seq<int>, c: int, n: int, p: int)
    requires IsPrime(p) && i < |m| && n >= 0 && !Cong(c, 0, p)
    requires forall k :: 0 <= k <= n ==> Cong(At(row', k), At(m[i], k) * c, p)
    ensures Equivalent(m, m[i := row'], n, p)
  {
    var m' := m[i := row'];
    forall x: seq<int> ensures Solves(m, x, n, p) <==> Solves(m', x, n, p) {
      RowScaled(m[i], row', c, x, n, p);
      SolvesExcept(m, m', i, x, n, p);
    }
  }

  lemma CombineEquivalent(m: Matrix, s: nat, u: nat, row': seq<int>, c: int, n: int, p: int)
    requires p > 0 && s < |m| && u < |m| && s != u && n >= 0
    requires forall k :: 0 <= k <= n ==> Cong(At(row', k), At(m[u], k) - At(m[s], k) * c, p)
    ensures Equivalent(m, m[u := row'], n, p)
  {
    hide RowHolds;
    var m' := m[u := row'];
    forall x: seq<int> ensures Solves(m, x, n, p) <==> Solves(m', x, n, p) {
      assert m'[s] == m[s];
      if RowHolds(m[s], x, n, p) {
        RowCombined(m[u], m[s], row', c, x, n, p);
        SolvesExcept(m, m', u, x, n, p);
      } else {
        assert !Solves(m, x, n, p) && !Solves(m', x, n, p);
      }
    }
  }

  lemma SolvesExcept(m: Matrix, m': Matrix, i: nat, x: seq<int>, n: int, p: int)
    requires p > 0 && i < |m| && |m'| == |m| && forall k :: 0 <= k < |m| && k != i ==> m'[k] == m[k]
    requires RowHolds(m[i], x, n, p) <==> RowHolds(m'[i], x, n, p)
    ensures Solves(m, x, n, p) <==> Solves(m', x, n, p)
  {
    hide RowHolds;
    if Solves(m, x, n, p) {
      forall k | 0 <= k < |m'| ensures RowHolds(m'[k], x, n, p) {
        assert RowHolds(m[k], x, n, p);
      }
    }
    if Solves(m', x, n, p) {
      forall k | 0 <= k < |m| ensures RowHolds(m[k], x, n, p) {
        assert RowHolds(m'[k], x, n, p);
      }
    }
  }

  // ----- echelon form -----

  /** Row k < |pc| starts with zeros and then a 1 in column pc[k]; the later rows are 0 in the
      first j columns. */
  ghost predicate Echelon(m: Matrix, pc: seq<nat>, j: nat) {
    && |pc| <= |m|
    && (forall k :: 0 <= k < |m| ==> j <= |m[k]|)
    && (forall k :: 0 <= k < |pc| ==> k <= pc[k] < j)
    && (forall k, l :: 0 <= k < l < |pc| ==> pc[k] < pc[l])
    && (forall k :: 0 <= k < |pc| ==> m[k][pc[k]] == 1)
    && (forall k, c :: 0 <= k < |pc| && 0 <= c < pc[k] ==> m[k][c] == 0)
    && (forall u, c :: |pc| <= u < |m| && 0 <= c < j ==> m[u][c] == 0)
  }

  ghost predicate ZeroRow(row: seq<int>) {
    forall v :: 0 <= v < |row| ==> row[v] == 0
  }

  ghost function NonzeroRows(m: Matrix, k: nat): nat
    requires k <= |m|
  {
    if k == 0 then 0 else NonzeroRows(m, k - 1) + (if ZeroRow(m[k - 1]) then 0 else 1)
  }

  lemma {:induction false} CountRows(m: Matrix, pc: seq<nat>, j: nat, k: nat)
    requires Echelon(m, pc, j) && |pc| <= k <= |m|
    ensures |pc| <= NonzeroRows(m, k) <= k
    ensures NonzeroRows(m, k) == |pc| ==> forall u :: |pc| <= u < k ==> ZeroRow(m[u])
    ensures NonzeroRows(m, k) > |pc| ==> exists u :: |pc| <= u < k && !ZeroRow(m[u])
  {
    if k == |pc| {
      CountPivots(m, pc, j, k);
    } else {
      CountRows(m, pc, j, k - 1);
    }
  }

  lemma {:induction false} CountPivots(m: Matrix, pc: seq<nat>, j: nat, k: nat)
    requires Echelon(m, pc, j) && k <= |pc|
    ensures NonzeroRows(m, k) == k
  {
    if k > 0 {
      CountPivots(m, pc, j, k - 1);
      assert m[k - 1][pc[k - 1]] == 1;
    }
  }

  /** A nonzero row below the pivots has only its right hand side: nothing solves it. */
  lemma Contradictory(m: Matrix, pc: seq<nat>, n: nat, u: nat, p: int)
    requires p > 0 && Shape(m, |m|, n + 1) && ReducedMatrix(m, p) && Echelon(m, pc, n)
    requires |pc| <= u < |m| && !ZeroRow(m[u])
    ensures forall x: seq<int> :: !Solves(m, x, n, p)
  {
    assert m[u][n] != 0 by {
      if m[u][n] == 0 {
        forall v | 0 <= v < |m[u]| ensures m[u][v] == 0 { }
      }
    }
    forall x: seq<int> ensures !Solves(m, x, n, p) {
      ZeroPrefix(m[u], x, 0, n);
      assert 0 <= m[u][n] < p;
      assert !RowHolds(m[u], x, n, p);
    }
  }

  /** Where a row is 0, its terms vanish whatever x is. */
  lemma ZeroPrefix(row: seq<int>, x: seq<int>, lo: nat, hi: nat)
    requires lo <= hi <= |row| && forall c :: lo <= c < hi ==> row[c] == 0
    ensures Sum(Term(row, x), lo, hi) == 0
  {
    forall c | lo <= c < hi ensures Term(row, x)(c) == 0 {
      assert 0 * At(x, c) == 0;
    }
    SumZero(Term(row, x), lo, hi);
  }
}
