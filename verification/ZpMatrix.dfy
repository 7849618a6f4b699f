/** ZpMatrix.cs: matrices over Z_p, updated in place. The jagged array of the source is an
    array of rows; a row is a sequence, and storing an entry replaces the row. */
module ZpMatrices {
  import opened Residues
  import opened Sums
  import opened NumTheory
  import opened LinearSystems
  import opened MatrixAlgebra
  import opened LuTheory
  import opened Options

  class ZpMatrix {
    const Prime: int
    const RowCount: nat
    const ColCount: nat
    const data: array<seq<int>>

    ghost predicate Valid()
      reads this, data
    {
      && Prime >= 2
      && data.Length == RowCount
      && Shape(data[..], RowCount, ColCount)
      && ReducedMatrix(data[..], Prime)
    }

    constructor (rowNum: nat, colNum: nat, prime: int)
      requires prime >= 2
      ensures Valid() && fresh(data)
      ensures RowCount == rowNum && ColCount == colNum && Prime == prime
      ensures forall i, j :: 0 <= i < rowNum && 0 <= j < colNum ==> data[i][j] == 0
    {
      RowCount, ColCount, Prime := rowNum, colNum, prime;
      data := new seq<int>[rowNum](i => seq(colNum, j => 0));
    }

    /** One entry; the other entries keep their values. */
    method Store(i: nat, j: nat, v: int)
      requires Valid() && i < RowCount && j < ColCount && 0 <= v < Prime
      modifies data
      ensures Valid()
      ensures data[..] == old(data[..])[i := old(data[i])[j := v]]
    {
      data[i] := data[i][j := v];
      assert forall k :: 0 <= k < RowCount && k != i ==> data[k] == old(data[..])[k];
    }

    // ----- construction -----

    static method GetVandermondeMatrix(rowNum: nat, values: seq<int>, prime: int) returns (A: ZpMatrix)
      requires prime >= 2 && rowNum >= 1
      ensures A.Valid() && fresh(A) && fresh(A.data)
      ensures A.RowCount == rowNum && A.ColCount == |values| && A.Prime == prime
      ensures forall i, j :: 0 <= i < rowNum && 0 <= j < |values| ==> A.data[i][j] == Residue(Pow(values[j], i), prime)
    {
      var colNum := |values|;
      A := new ZpMatrix(rowNum, colNum, prime);
      for j := 0 to colNum
        invariant A.Valid()
        invariant forall c :: 0 <= c < j ==> A.data[0][c] == 1
      {
        A.Store(0, j, 1);
      }
      if rowNum == 1 {
        return;
      }
      for j := 0 to colNum
        invariant A.Valid()
        invariant forall c :: 0 <= c < colNum ==> A.data[0][c] == 1
        invariant forall i, c :: 0 <= i < rowNum && 0 <= c < j ==> A.data[i][c] == Residue(Pow(values[c], i), prime)
      {
        A.FillPowers(j, values[j]);
      }
    }

    /** The inner loop of the Vandermonde builder: column j becomes the powers of x. */
    method FillPowers(j: nat, x: int)
      requires Valid() && j < ColCount && RowCount >= 1 && data[0][j] == 1
      modifies data
      ensures Valid()
      ensures forall i, c :: 0 <= i < RowCount && 0 <= c < ColCount && c != j ==> data[i][c] == old(data[i][c])
      ensures forall i :: 0 <= i < RowCount ==> data[i][j] == Residue(Pow(x, i), Prime)
      ensures data[0][j] == 1
    {
      assert Residue(Pow(x, 0), Prime) == 1;
      hide Residue, Pow;
      for i := 1 to RowCount
        invariant Valid()
        invariant forall t, c :: 0 <= t < RowCount && 0 <= c < ColCount && c != j ==> data[t][c] == old(data[t][c])
        invariant forall t :: 0 <= t < i ==> data[t][j] == Residue(Pow(x, t), Prime)
        invariant data[0][j] == 1
      {
        var before := data[i - 1][j];
        if 0 <= x < Prime {
          ProductFits32(0, before, x, Prime);
        }
        assert 0 <= x < Prime <= 46341 ==> Fits32(before * x);
        PowerStep(x, i, before, Prime);
        var v := Modulo(before * x, Prime);
        Store(i, j, v);
      }
    }

    static lemma PowerStep(x: int, i: int, before: int, p: int)
      requires p > 0 && i >= 1 && before == Residue(Pow(x, i - 1), p)
      ensures Residue(before * x, p) == Residue(Pow(x, i), p)
    {
      CongMul(before, Pow(x, i - 1), x, x, p);
      assert Pow(x, i - 1) * x == x * Pow(x, i - 1);
    }

    /** The Vandermonde matrix of the points 1, .., colNum. */
    static method GetIndexVandermondeMatrix(rowNum: nat, colNum: nat, prime: int) returns (A: ZpMatrix)
      requires prime >= 2 && rowNum >= 1 && colNum < prime
      ensures A.Valid() && fresh(A) && fresh(A.data)
      ensures A.RowCount == rowNum && A.ColCount == colNum && A.Prime == prime
      ensures forall i, j :: 0 <= i < rowNum && 0 <= j < colNum ==> A.data[i][j] == Residue(Pow(j + 1, i), prime)
    {
      A := new ZpMatrix(rowNum, colNum, prime);
      for j := 0 to colNum
        invariant A.Valid()
        invariant forall c :: 0 <= c < j ==> A.data[0][c] == 1
      {
        A.Store(0, j, 1);
      }
      if rowNum == 1 {
        return;
      }
      for j := 0 to colNum
        invariant A.Valid()
        invariant forall c :: 0 <= c < colNum ==> A.data[0][c] == 1
        invariant forall c :: 0 <= c < j ==> A.data[1][c] == c + 1
      {
        A.Store(1, j, j + 1);
      }
      for j := 0 to colNum
        invariant A.Valid()
        invariant forall c :: 0 <= c < colNum ==> A.data[0][c] == 1 && A.data[1][c] == c + 1
        invariant forall i, c :: 0 <= i < rowNum && 0 <= c < j ==> A.data[i][c] == Residue(Pow(c + 1, i), prime)
      {
        A.FillHigherPowers(j);
      }
    }

    method FillHigherPowers(j: nat)
      requires Valid() && j < ColCount && RowCount >= 2 && j + 1 < Prime && data[0][j] == 1 && data[1][j] == j + 1
      modifies data
      ensures Valid()
      ensures forall i, c :: 0 <= i < RowCount && 0 <= c < ColCount && c != j ==> data[i][c] == old(data[i][c])
      ensures forall i :: 0 <= i < RowCount ==> data[i][j] == Residue(Pow(j + 1, i), Prime)
      ensures data[0][j] == 1 && data[1][j] == j + 1
    {
      assert Residue(Pow(j + 1, 0), Prime) == 1;
      assert Residue(Pow(j + 1, 1), Prime) == j + 1 by {
        assert Pow(j + 1, 1) == (j + 1) * Pow(j + 1, 0) == j + 1;
      }
      hide Residue, Pow;
      for i := 2 to RowCount
        invariant Valid()
        invariant forall t, c :: 0 <= t < RowCount && 0 <= c < ColCount && c != j ==> data[t][c] == old(data[t][c])
        invariant forall t :: 0 <= t < i ==> data[t][j] == Residue(Pow(j + 1, t), Prime)
        invariant data[0][j] == 1 && data[1][j] == j + 1
      {
        var before := data[i - 1][j];
        ProductFits32(0, before, j + 1, Prime);
        assert Prime <= 46341 ==> Fits32(before * data[1][j]);
        PowerStep(j + 1, i, before, Prime);
        var v := Modulo(before * data[1][j], Prime);
        Store(i, j, v);
      }
    }

    /** A column vector as a matrix. */
    static method FromColumn(vector: seq<int>, prime: int) returns (A: ZpMatrix)
      requires prime >= 2 && forall i :: 0 <= i < |vector| ==> 0 <= vector[i] < prime
      ensures A.Valid() && fresh(A) && fresh(A.data)
      ensures A.RowCount == |vector| && A.ColCount == 1 && A.Prime == prime
      ensures forall i :: 0 <= i < |vector| ==> A.data[i][0] == vector[i]
    {
      A := new ZpMatrix(|vector|, 1, prime);
      for i := 0 to |vector|
        invariant A.Valid()
        invariant forall k :: 0 <= k < i ==> A.data[k][0] == vector[k]
      {
        A.Store(i, 0, vector[i]);
      }
    }

    method Transpose() returns (A: ZpMatrix)
      requires Valid()
      ensures A.Valid() && fresh(A) && fresh(A.data)
      ensures A.RowCount == ColCount && A.ColCount == RowCount && A.Prime == Prime
      ensures forall i, j :: 0 <= i < RowCount && 0 <= j < ColCount ==> A.data[j][i] == data[i][j]
    {
      A := new ZpMatrix(ColCount, RowCount, Prime);
      for i := 0 to RowCount
        invariant A.Valid()
        invariant forall r, c :: 0 <= r < i && 0 <= c < ColCount ==> A.data[c][r] == data[r][c]
      {
        for j := 0 to ColCount
          invariant A.Valid()
          invariant forall r, c :: 0 <= r < i && 0 <= c < ColCount ==> A.data[c][r] == data[r][c]
          invariant forall c :: 0 <= c < j ==> A.data[c][i] == data[i][c]
        {
          A.Store(j, i, data[i][j]);
        }
      }
    }

    method MulRowByScalar(rowNumber: nat, scalar: int)
      requires Valid() && rowNumber < RowCount
      modifies data
      ensures Valid()
      ensures forall k :: 0 <= k < RowCount && k != rowNumber ==> data[k] == old(data[k])
      ensures forall j :: 0 <= j < ColCount ==> data[rowNumber][j] == Residue(old(data[rowNumber][j]) * scalar, Prime)
    {
      for j := 0 to ColCount
        invariant Valid()
        invariant forall k :: 0 <= k < RowCount && k != rowNumber ==> data[k] == old(data[k])
        invariant forall c :: j <= c < ColCount ==> data[rowNumber][c] == old(data[rowNumber][c])
        invariant forall c :: 0 <= c < j ==> data[rowNumber][c] == Residue(old(data[rowNumber][c]) * scalar, Prime)
      {
        if Fits32(scalar) && -Prime < scalar < Prime {
          ProductFits32(0, data[rowNumber][j], if scalar < 0 then -scalar else scalar, Prime);
        }
        var v := Modulo(data[rowNumber][j] * scalar, Prime);
        Store(rowNumber, j, v);
      }
    }

    method MulMatrixByScalarsVector(scalars: seq<int>) returns (B: ZpMatrix)
      requires Valid() && |scalars| == RowCount
      ensures B.Valid() && fresh(B) && fresh(B.data)
      ensures B.RowCount == RowCount && B.ColCount == ColCount && B.Prime == Prime
      ensures forall i, j :: 0 <= i < RowCount && 0 <= j < ColCount ==> B.data[i][j] == Residue(data[i][j] * scalars[i], Prime)
    {
      B := new ZpMatrix(RowCount, ColCount, Prime);
      for i := 0 to RowCount
        invariant B.Valid()
        invariant forall r :: 0 <= r < i ==> B.data[r] == data[r]
      {
        for j := 0 to ColCount
          invariant B.Valid()
          invariant forall r :: 0 <= r < i ==> B.data[r] == data[r]
          invariant forall c :: 0 <= c < j ==> B.data[i][c] == data[i][c]
        {
          var v := Modulo(data[i][j], Prime);
          B.Store(i, j, v);
        }
        assert B.data[i] == data[i];
      }
      for i := 0 to RowCount
        invariant B.Valid()
        invariant forall r :: i <= r < RowCount ==> B.data[r] == data[r]
        invariant forall r, c :: 0 <= r < i && 0 <= c < ColCount ==> B.data[r][c] == Residue(data[r][c] * scalars[r], Prime)
      {
        B.MulRowByScalar(i, scalars[i]);
      }
    }

    static method GetConcatenationMatrix(A: ZpMatrix, B: ZpMatrix) returns (C: ZpMatrix)
      requires A.Valid() && B.Valid() && A.RowCount == B.RowCount && A.Prime == B.Prime
      ensures C.Valid() && fresh(C) && fresh(C.data)
      ensures C.RowCount == A.RowCount && C.ColCount == A.ColCount + B.ColCount && C.Prime == A.Prime
      ensures forall i :: 0 <= i < A.RowCount ==> C.data[i] == A.data[i] + B.data[i]
    {
      C := new ZpMatrix(A.RowCount, A.ColCount + B.ColCount, A.Prime);
      for i := 0 to A.RowCount
        invariant C.Valid()
        invariant forall r :: 0 <= r < i ==> C.data[r][..A.ColCount] == A.data[r]
      {
        C.StoreRow(i, 0, A.data[i]);
      }
      for i := 0 to A.RowCount
        invariant C.Valid()
        invariant forall r :: i <= r < A.RowCount ==> C.data[r][..A.ColCount] == A.data[r]
        invariant forall r :: 0 <= r < i ==> C.data[r] == A.data[r] + B.data[r]
      {
        C.StoreRow(i, A.ColCount, B.data[i]);
      }
    }

    /** Stores the entries of a row in row i, from column first on. */
    method StoreRow(i: nat, first: nat, row: seq<int>)
      requires Valid() && i < RowCount && first + |row| <= ColCount
      requires forall k :: 0 <= k < |row| ==> 0 <= row[k] < Prime
      modifies data
      ensures Valid()
      ensures forall r :: 0 <= r < RowCount && r != i ==> data[r] == old(data[r])
      ensures data[i] == old(data[i])[..first] + row + old(data[i])[first + |row|..]
    {
      ghost var before := data[i];
      hide Replaced;
      ReplacedEnds(before, row, first);
      for j := 0 to |row|
        invariant Valid()
        invariant forall r :: 0 <= r < RowCount && r != i ==> data[r] == old(data[r])
        invariant data[i] == Replaced(before, row, first, j)
      {
        ReplacedNext(before, row, first, j);
        Store(i, first + j, row[j]);
      }
    }

    /** The row with j entries replaced, from column first on. */
    ghost static function Replaced(before: seq<int>, row: seq<int>, first: nat, j: nat): seq<int>
      requires j <= |row| && first + |row| <= |before|
    {
      before[..first] + row[..j] + before[first + j..]
    }

    static lemma ReplacedNext(before: seq<int>, row: seq<int>, first: nat, j: nat)
      requires j < |row| && first + |row| <= |before|
      ensures |Replaced(before, row, first, j)| == |before|
      ensures Replaced(before, row, first, j)[first + j := row[j]] == Replaced(before, row, first, j + 1)
    {
    }

    static lemma ReplacedEnds(before: seq<int>, row: seq<int>, first: nat)
      requires first + |row| <= |before|
      ensures Replaced(before, row, first, 0) == before
      ensures Replaced(before, row, first, |row|) == before[..first] + row + before[first + |row|..]
    {
      assert row[..|row|] == row;
    }

    // ----- Gaussian elimination -----

    method SwapRows(i: nat, j: nat)
      requires Valid() && i < RowCount && j < RowCount
      modifies data
      ensures Valid()
      ensures data[..] == old(data[..])[i := old(data[j])][j := old(data[i])]
    {
      var temp := data[i];
      data[i] := data[j];
      data[j] := temp;
      assert data[..] == old(data[..])[i := old(data[j])][j := old(data[i])];
      assert forall k :: 0 <= k < RowCount ==> data[k] == old(data[..])[if k == i then j else if k == j then i else k];
    }

    /** The pivot search: the largest entry of column j from row i down. */
    method FindPivot(i: nat, j: nat) returns (max: nat)
      requires Valid() && i < RowCount && j < ColCount
      ensures i <= max < RowCount
      ensures forall k :: i <= k < RowCount ==> data[k][j] <= data[max][j]
    {
      max := i;
      for k := i + 1 to RowCount
        invariant i <= max < RowCount
        invariant forall t :: i <= t < k ==> data[t][j] <= data[max][j]
      {
        if data[k][j] > data[max][j] {
          max := k;
        }
      }
    }

    /** Subtracts m times row i from row u, which clears column j of row u. */
    method EliminateRow(u: nat, i: nat, j: nat)
      requires Valid() && u < RowCount && i < RowCount && u != i && j < ColCount && data[i][j] == 1
      modifies data
      ensures Valid()
      ensures data[..] == old(data[..])[u := data[u]]
      ensures data[u][j] == 0
      ensures forall v :: 0 <= v < ColCount ==> Cong(data[u][v], old(data[u][v]) - old(data[i][v] * data[u][j]), Prime)
      ensures forall v :: 0 <= v < ColCount && old(data[i][v]) == 0 ==> data[u][v] == old(data[u][v])
    {
      hide Residue, Combined;
      ghost var row, pivot := data[u], data[i];
      assert 0 <= row[j] < Prime;
      SmallIsResidue(row[j], Prime);
      var m := Modulo(data[u][j], Prime);
      CombinedNone(row, pivot, m, Prime);
      for v := 0 to ColCount
        invariant Valid()
        invariant forall k :: 0 <= k < RowCount && k != u ==> data[k] == old(data[..])[k]
        invariant Combined(row, pivot, data[u], m, v, Prime)
      {
        CombinedNext(row, pivot, data[u], m, v, Prime);
        ProductFits32(data[u][v], data[i][v], m, Prime);
        assert Prime <= 46341 ==> Fits32(data[u][v] - data[i][v] * m);
        var t := Modulo(data[u][v] - data[i][v] * m, Prime);
        Store(u, v, t);
      }
      CombinedAll(row, pivot, data[u], m, j, Prime);
      Store(u, j, 0);
      assert data[..] == old(data[..])[u := data[u]];
    }

    /** The first v entries of the row have lost m times those of the pivot row. */
    ghost static predicate Combined(row: seq<int>, pivot: seq<int>, now: seq<int>, m: int, v: nat, p: int)
      requires p > 0
    {
      && |row| == |pivot| == |now|
      && (forall t :: v <= t < |now| ==> now[t] == row[t])
      && (forall t :: 0 <= t < v && t < |now| ==> now[t] == Residue(row[t] - pivot[t] * m, p))
    }

    static lemma CombinedNone(row: seq<int>, pivot: seq<int>, m: int, p: int)
      requires p > 0 && |row| == |pivot|
      ensures Combined(row, pivot, row, m, 0, p)
    {
    }

    static lemma CombinedNext(row: seq<int>, pivot: seq<int>, now: seq<int>, m: int, v: nat, p: int)
      requires p > 0 && Combined(row, pivot, now, m, v, p) && v < |now|
      ensures v < |pivot| && now[v] == row[v]
      ensures Combined(row, pivot, now[v := Residue(now[v] - pivot[v] * m, p)], m, v + 1, p)
    {
      hide Residue;
    }

    /** The entry of the pivot's column is cleared, and entries above zeros of the pivot row stay. */
    static lemma CombinedAll(row: seq<int>, pivot: seq<int>, now: seq<int>, m: int, j: nat, p: int)
      requires p > 0 && |now| == |row| && Combined(row, pivot, now, m, |row|, p) && j < |row| && m == row[j]
      requires |pivot| == |row| && pivot[j] == 1 && forall v :: 0 <= v < |row| ==> 0 <= row[v] < p
      ensures now[j] == 0
      ensures forall v :: 0 <= v < |row| ==> Cong(now[v], row[v] - pivot[v] * m, p)
      ensures forall v :: 0 <= v < |row| && pivot[v] == 0 ==> now[v] == row[v]
    {
      hide Residue;
      forall v | 0 <= v < |row|
        ensures Cong(now[v], row[v] - pivot[v] * m, p) && (pivot[v] == 0 ==> now[v] == row[v])
      {
        CongResidue(row[v] - pivot[v] * m, p);
        SmallIsResidue(row[v], p);
        if pivot[v] == 0 {
          assert row[v] - pivot[v] * m == row[v];
        }
      }
      assert row[j] - pivot[j] * m == 0;
      SmallIsResidue(0, p);
    }

    /** One column of Gauss: brings a pivot to row i of column j, if there is one, makes it 1
        and clears the column below it. */
    method GaussStep(i: nat, j: nat, invArr: seq<int>, ghost pc: seq<nat>) returns (found: bool)
      requires Valid() && IsPrime(Prime) && |invArr| == Prime
      requires forall k :: 0 <= k < Prime ==> invArr[k] == MultiplicativeInverse(k, Prime)
      requires i < RowCount && j < ColCount - 1 && i == |pc| && i <= j && Echelon(data[..], pc, j)
      modifies data
      ensures Valid()
      ensures Equivalent(old(data[..]), data[..], ColCount - 1, Prime)
      ensures Echelon(data[..], if found then pc + [j] else pc, j + 1)
    {
      hide Equivalent, Echelon, Residue, IsPrime, Cong;
      var n := ColCount - 1;
      var max := FindPivot(i, j);
      found := data[max][j] != 0;
      assert 0 <= data[..][max][j] < Prime;
      if found {
        ghost var m0 := data[..];
        PivotRow(i, j, max, invArr, pc);
        ghost var pivot := data[i];
        for u := i + 1 to RowCount
          invariant Valid()
          invariant Equivalent(m0, data[..], n, Prime)
          invariant data[i] == pivot && Echelon(data[..], pc, j)
          invariant forall k :: i < k < u ==> data[k][j] == 0
        {
          ghost var m3, c := data[..], data[u][j];
          EliminateRow(u, i, j);
          assert data[u] == data[..][u];
          CombineEquivalent(m3, i, u, data[u], c, n, Prime);
          EquivalentTrans(m0, m3, data[..], n, Prime);
          EliminateEchelon(m3, data[..], pc, u, i, j);
        }
        EchelonPivot(data[..], pc, j);
      } else {
        forall u | i <= u < RowCount ensures data[..][u][j] == 0 {
          assert 0 <= data[..][u][j];
        }
        EquivalentRefl(data[..], n, Prime);
        EchelonSkip(data[..], pc, j);
      }
    }

    /** Moves the pivot row to its place and scales it. */
    method PivotRow(i: nat, j: nat, max: nat, invArr: seq<int>, ghost pc: seq<nat>)
      requires Valid() && IsPrime(Prime) && |invArr| == Prime
      requires forall k :: 0 <= k < Prime ==> invArr[k] == MultiplicativeInverse(k, Prime)
      requires i <= max < RowCount && j < ColCount - 1 && i == |pc| && Echelon(data[..], pc, j)
      requires data[max][j] != 0
      modifies data
      ensures Valid()
      ensures Equivalent(old(data[..]), data[..], ColCount - 1, Prime)
      ensures Echelon(data[..], pc, j) && data[i][j] == 1
    {
      hide Equivalent, Echelon, Residue, IsPrime, Cong;
      var n := ColCount - 1;
      ghost var m0 := data[..];
      SwapRows(i, max);
      ghost var m1 := data[..];
      SwapEquivalent(m0, m1, i, max, n, Prime);
      assert 0 <= m1[i][j] < Prime && m1[i] == m0[max] == data[i];
      var toMul := invArr[data[i][j]];
      FieldInverse(data[i][j], Prime);
      MulRowByScalar(i, toMul);
      ghost var m2 := data[..];
      assert m2 == m1[i := m2[i]];
      UnitPivot(m1[i], m2[i], j, toMul, Prime);
      ScaleEquivalent(m1, i, m2[i], toMul, n, Prime);
      EquivalentTrans(m0, m1, m2, n, Prime);
      SwapEchelon(m0, m2, pc, i, max, j);
    }

    static lemma EquivalentRefl(a: Matrix, n: int, p: int)
      requires p > 0
      ensures Equivalent(a, a, n, p)
    {
    }

    static lemma EchelonStart(m: Matrix)
      ensures Echelon(m, [], 0)
    {
    }

    static lemma EchelonFull(m: Matrix, pc: seq<nat>, j: nat, n: nat)
      requires Echelon(m, pc, j) && |pc| == |m| && j <= n && forall k :: 0 <= k < |m| ==> n <= |m[k]|
      ensures Echelon(m, pc, n)
    {
    }

    static lemma EchelonPivot(m: Matrix, pc: seq<nat>, j: nat)
      requires Echelon(m, pc, j) && |pc| < |m| && |pc| <= j && forall k :: 0 <= k < |m| ==> j < |m[k]|
      requires m[|pc|][j] == 1 && forall k :: |pc| < k < |m| ==> m[k][j] == 0
      ensures Echelon(m, pc + [j], j + 1)
    {
    }

    static lemma EchelonSkip(m: Matrix, pc: seq<nat>, j: nat)
      requires Echelon(m, pc, j) && forall k :: 0 <= k < |m| ==> j < |m[k]|
      requires forall k :: |pc| <= k < |m| ==> m[k][j] == 0
      ensures Echelon(m, pc, j + 1)
    {
    }

    static lemma UnitPivot(row: seq<int>, row': seq<int>, j: nat, c: int, p: int)
      requires p >= 2 && j < |row| == |row'| && Cong(row[j] * c, 1, p)
      requires forall k :: 0 <= k < |row| ==> row'[k] == Residue(row[k] * c, p)
      ensures row'[j] == 1 && !Cong(c, 0, p)
      ensures forall k :: 0 <= k < |row| ==> Cong(row'[k], row[k] * c, p)
      ensures forall k :: 0 <= k < |row| && row[k] == 0 ==> row'[k] == 0
    {
      if Cong(c, 0, p) {
        CongMul(row[j], row[j], c, 0, p);
        assert false;
      }
      forall k | 0 <= k < |row| && row[k] == 0 ensures row'[k] == 0 {
        assert row[k] * c == 0;
      }
    }

    static lemma EquivalentTrans(a: Matrix, b: Matrix, c: Matrix, n: int, p: int)
      requires p > 0 && Equivalent(a, b, n, p) && Equivalent(b, c, n, p)
      ensures Equivalent(a, c, n, p)
    {
      hide Solves;
      forall x: seq<int> ensures Solves(a, x, n, p) <==> Solves(c, x, n, p) {
        assert Solves(a, x, n, p) <==> Solves(b, x, n, p);
      }
    }

    /** Exchanging and scaling rows below the pivots keeps the echelon form. */
    static lemma SwapEchelon(m: Matrix, m': Matrix, pc: seq<nat>, i: nat, max: nat, j: nat)
      requires Echelon(m, pc, j) && |pc| == i <= max < |m| == |m'| && |m'[i]| == |m[max]|
      requires forall k :: 0 <= k < |m| && k != i && k != max ==> m'[k] == m[k]
      requires max != i ==> m'[max] == m[i]
      requires forall c :: 0 <= c < |m[max]| && m[max][c] == 0 ==> m'[i][c] == 0
      ensures Echelon(m', pc, j)
    {
    }

    static lemma EliminateEchelon(m: Matrix, m': Matrix, pc: seq<nat>, u: nat, i: nat, j: nat)
      requires Echelon(m, pc, j) && |pc| == i < u < |m| == |m'| && m' == m[u := m'[u]] && |m'[u]| == |m[u]| == |m[i]|
      requires forall v :: 0 <= v < |m[u]| && m[i][v] == 0 ==> m'[u][v] == m[u][v]
      ensures Echelon(m', pc, j)
    {
    }

    method Gauss() returns (num: nat, ghost pc: seq<nat>)
      requires Valid() && IsPrime(Prime) && ColCount >= 1
      modifies data
      ensures Valid()
      ensures Equivalent(old(data[..]), data[..], ColCount - 1, Prime)
      ensures Echelon(data[..], pc, ColCount - 1)
      ensures num == NonzeroRows(data[..], RowCount)
    {
      hide Equivalent, Echelon, Residue, IsPrime, Cong;
      var invArr := GetFieldInverse(Prime);
      var i, j := 0, 0;
      pc := [];
      EchelonStart(data[..]);
      EquivalentRefl(data[..], ColCount - 1, Prime);
      while i < RowCount && j < ColCount - 1
        invariant Valid() && 0 <= i <= RowCount && i <= j <= ColCount - 1
        invariant i == |pc| && Echelon(data[..], pc, j)
        invariant Equivalent(old(data[..]), data[..], ColCount - 1, Prime)
      {
        ghost var m := data[..];
        var found := GaussStep(i, j, invArr, pc);
        EquivalentTrans(old(data[..]), m, data[..], ColCount - 1, Prime);
        if found {
          pc := pc + [j];
          i := i + 1;
        }
        j := j + 1;
      }
      if j < ColCount - 1 {
        EchelonFull(data[..], pc, j, ColCount - 1);
      }
      num := CountNonzeroRows();
    }

    /** The number of rows that are not all zero. */
    method CountNonzeroRows() returns (num: nat)
      requires Valid()
      ensures num == NonzeroRows(data[..], RowCount)
    {
      num := 0;
      for k := 0 to RowCount
        invariant num == NonzeroRows(data[..], k) <= k
      {
        var zero := true;
        for v := 0 to ColCount
          invariant zero && forall t :: 0 <= t < v ==> data[k][t] == 0
        {
          if data[k][v] != 0 {
            zero := false;
            num := num + 1;
            break;
          }
        }
        assert zero <==> ZeroRow(data[..][k]);
      }
    }

    // ----- LU decomposition -----

    /** A copy, as the private copy constructor makes it. */
    method Copy() returns (A: ZpMatrix)
      requires Valid()
      ensures A.Valid() && fresh(A) && fresh(A.data)
      ensures A.RowCount == RowCount && A.ColCount == ColCount && A.Prime == Prime
      ensures A.data[..] == data[..]
    {
      A := new ZpMatrix(RowCount, ColCount, Prime);
      for i := 0 to RowCount
        invariant A.Valid()
        invariant forall r :: 0 <= r < i ==> A.data[r] == data[r]
      {
        for j := 0 to ColCount
          invariant A.Valid()
          invariant forall r :: 0 <= r < i ==> A.data[r] == data[r]
          invariant forall c :: 0 <= c < j ==> A.data[i][c] == data[i][c]
        {
          var v := Modulo(data[i][j], Prime);
          A.Store(i, j, v);
        }
        assert A.data[i] == data[i];
      }
      assert A.data[..] == data[..];
    }

    /** The dot product of the loop over k: row i with the copied column. */
    method DotProduct(i: nat, j: nat, LUcolj: array<int>, kmax: nat) returns (s: int)
      requires Valid() && i < RowCount && j < ColCount && RowCount == ColCount && LUcolj.Length == RowCount
      requires kmax <= RowCount
      requires forall t :: 0 <= t < RowCount ==> LUcolj[t] == data[t][j]
      ensures 0 <= s < Prime && Cong(s, Partial(data[..], i, j, kmax), Prime)
    {
      ghost var m := data[..];
      s := 0;
      assert Partial(m, i, j, 0) == 0;
      for k := 0 to kmax
        invariant 0 <= s < Prime && Cong(s, Partial(m, i, j, k), Prime)
      {
        hide Residue, Partial, Cong;
        ProductFits32(s, data[i][k], LUcolj[k], Prime);
        assert Prime <= 46341 ==> Fits32(s + data[i][k] * LUcolj[k]);
        DotStep(m, i, j, k, s, data[i][k], LUcolj[k], Prime);
        s := Modulo(s + data[i][k] * LUcolj[k], Prime);
      }
    }

    static lemma DotStep(m: Matrix, i: nat, j: nat, k: nat, s: int, x: int, y: int, p: int)
      requires p > 0 && i < |m| && k < |m| && k < |m[i]| && j < |m[k]| && m[i][k] == x && m[k][j] == y
      requires Cong(s, Partial(m, i, j, k), p)
      ensures Cong(Residue(s + x * y, p), Partial(m, i, j, k + 1), p)
    {
      hide Residue;
      SumLast(LTerm(m, i, j), 0, k + 1);
      var v := x * y;
      assert Entry(m)(i, k) == x && Entry(m)(k, j) == y;
      CongAdd(s, Partial(m, i, j, k), v, v, p);
      CongResidue(s + v, p);
    }

    /** Applies the previous transformations to column j. */
    method TransformColumn(j: nat, ghost a: Matrix, ghost piv: seq<int>)
      requires Valid() && RowCount == ColCount && j < ColCount && |piv| == RowCount
      requires ColumnsDone(a, data[..], piv, j, RowCount, Prime) && ColumnsPending(a, data[..], piv, j, RowCount)
      modifies data
      ensures Valid()
      ensures ColumnsDone(a, data[..], piv, j, RowCount, Prime) && ColumnRaw(a, data[..], piv, j, RowCount, Prime)
      ensures ColumnsPending(a, data[..], piv, j + 1, RowCount)
    {
      var n := RowCount;
      ghost var m0 := data[..];
      var LUcolj := Column(j);
      hide Residue, Raw, Done, ColumnsDone, ColumnsPending, Cong, IsColumn, Rewritten, RawTo;
      NothingRewritten(a, m0, piv, j, n, Prime);
      for i := 0 to n
        invariant Valid() && IsColumn(LUcolj[..], data[..], j) && Rewritten(m0, data[..], j, i)
        invariant RawTo(a, data[..], piv, i, j, Prime)
      {
        TransformOne(i, j, LUcolj, a, m0, piv);
      }
      AllRewritten(a, m0, data[..], piv, j, n, Prime);
    }

    method Column(j: nat) returns (col: array<int>)
      requires Valid() && j < ColCount
      ensures fresh(col) && IsColumn(col[..], data[..], j)
    {
      col := new int[RowCount];
      for i := 0 to RowCount
        invariant forall t :: 0 <= t < i ==> col[t] == data[t][j]
      {
        col[i] := data[i][j];
      }
    }

    ghost static predicate IsColumn(col: seq<int>, m: Matrix, j: nat) {
      |col| == |m| && forall t :: 0 <= t < |m| ==> j < |m[t]| && col[t] == m[t][j]
    }

    /** Only the first i entries of column j have been written. */
    ghost static predicate Rewritten(m0: Matrix, m: Matrix, j: nat, i: nat) {
      && |m| == |m0|
      && (forall r :: 0 <= r < |m| ==> |m[r]| == |m0[r]| > j)
      && (forall r, c :: 0 <= r < |m| && 0 <= c < |m[r]| && (c != j || r >= i) ==> m[r][c] == m0[r][c])
    }

    ghost static predicate RawTo(a: Matrix, m: Matrix, piv: seq<int>, i: nat, j: nat, p: int)
      requires p > 0
    {
      i <= |piv| && forall t :: 0 <= t < i ==> Raw(a, m, piv, t, j, p)
    }

    static lemma NothingRewritten(a: Matrix, m: Matrix, piv: seq<int>, j: nat, n: nat, p: int)
      requires p > 0 && Shape(m, n, n) && j < n
      ensures Rewritten(m, m, j, 0) && RawTo(a, m, piv, 0, j, p)
    {
    }

    static lemma AllRewritten(a: Matrix, m0: Matrix, m: Matrix, piv: seq<int>, j: nat, n: nat, p: int)
      requires p > 0 && Shape(m0, n, n) && Shape(m, n, n) && |piv| == n && j < n
      requires Rewritten(m0, m, j, n) && RawTo(a, m, piv, n, j, p)
      requires ColumnsDone(a, m0, piv, j, n, p) && ColumnsPending(a, m0, piv, j, n)
      ensures ColumnsDone(a, m, piv, j, n, p) && ColumnRaw(a, m, piv, j, n, p) && ColumnsPending(a, m, piv, j + 1, n)
    {
      hide Raw, ColumnsDone, Cong;
      forall r, c | 0 <= r < n && 0 <= c < n && c != j ensures Entry(m)(r, c) == Entry(m0)(r, c) { }
      DoneFrame(a, m0, m, piv, j, n, p);
    }

    method TransformOne(i: nat, j: nat, LUcolj: array<int>, ghost a: Matrix, ghost m0: Matrix, ghost piv: seq<int>)
      requires Valid() && RowCount == ColCount == |piv| && i < RowCount && j < ColCount && Shape(m0, RowCount, RowCount)
      requires IsColumn(LUcolj[..], data[..], j) && Rewritten(m0, data[..], j, i) && RawTo(a, data[..], piv, i, j, Prime)
      requires ColumnsPending(a, m0, piv, j, RowCount)
      modifies data, LUcolj
      ensures Valid()
      ensures IsColumn(LUcolj[..], data[..], j) && Rewritten(m0, data[..], j, i + 1) && RawTo(a, data[..], piv, i + 1, j, Prime)
    {
      hide Residue, Raw, ColumnsPending, Cong, Partial, Rewritten, RawTo;
      ghost var m := data[..];
      var kmax := if i < j then i else j;
      RewrittenAt(m0, m, j, i);
      var s := DotProduct(i, j, LUcolj, kmax);
      ProductFits32(LUcolj[i], 1, s, Prime);
      var v := Modulo(LUcolj[i] - s, Prime);
      LUcolj[i] := v;
      Store(i, j, v);
      RewrittenNext(m0, m, j, i, v);
      TransformEntry(a, m, data[..], m0, piv, i, j, RowCount, s, v, Prime);
    }

    static lemma RewrittenAt(m0: Matrix, m: Matrix, j: nat, i: nat)
      requires Rewritten(m0, m, j, i) && i < |m|
      ensures |m[i]| == |m0[i]| > j && m[i][j] == m0[i][j]
    {
    }

    static lemma RewrittenNext(m0: Matrix, m: Matrix, j: nat, i: nat, v: int)
      requires Rewritten(m0, m, j, i) && i < |m| && j < |m[i]|
      ensures Rewritten(m0, m[i := m[i][j := v]], j, i + 1)
    {
    }

    static lemma TransformEntry(a: Matrix, m: Matrix, m': Matrix, m0: Matrix, piv: seq<int>, i: nat, j: nat, n: int, s: int, v: int, p: int)
      requires p > 0 && |piv| == n && i < n && j < n && Shape(m, n, n) && Shape(m0, n, n)
      requires m' == m[i := m[i][j := v]] && m[i][j] == m0[i][j] && ColumnsPending(a, m0, piv, j, n)
      requires Cong(s, Partial(m, i, j, if i < j then i else j), p) && v == Residue(m[i][j] - s, p)
      requires RawTo(a, m, piv, i, j, p)
      ensures RawTo(a, m', piv, i + 1, j, p)
    {
      hide Residue, Raw, Partial;
      CongResidue(m[i][j] - s, p);
      assert Entry(m0)(i, j) == Entry(a)(piv[i], j);
      assert Entry(m)(i, j) == m[i][j] == Entry(m0)(i, j);
      EntriesExcept(m, m', i, j, v, n);
      RawSet(a, m, m', piv, i, j, n, s, p);
      forall t | 0 <= t < i ensures Raw(a, m', piv, t, j, p) {
        RawFrame(a, m, m', piv, i, t, j, n, p);
      }
    }

    static lemma EntriesExcept(m: Matrix, m': Matrix, i: nat, j: nat, v: int, n: nat)
      requires Shape(m, n, n) && i < n && j < n && m' == m[i := m[i][j := v]]
      ensures Entry(m')(i, j) == v
      ensures forall r, c :: 0 <= r < n && 0 <= c < n && !(r == i && c == j) ==> Entry(m')(r, c) == Entry(m)(r, c)
    {
    }

    /** Exchanges two rows entry by entry. */
    method ExchangeRowEntries(p: nat, j: nat)
      requires Valid() && RowCount == ColCount && p < RowCount && j < RowCount && p != j
      modifies data
      ensures Valid()
      ensures data[..] == old(data[..])[p := old(data[j])][j := old(data[p])]
    {
      ghost var m := data[..];
      for k := 0 to RowCount
        invariant Valid()
        invariant forall r :: 0 <= r < RowCount && r != p && r != j ==> data[r] == m[r]
        invariant forall c :: 0 <= c < k ==> data[p][c] == m[j][c] && data[j][c] == m[p][c]
        invariant forall c :: k <= c < RowCount ==> data[p][c] == m[p][c] && data[j][c] == m[j][c]
      {
        var t := data[p][k];
        Store(p, k, data[j][k]);
        Store(j, k, t);
      }
      assert data[p] == m[j] && data[j] == m[p];
      assert data[..] == m[p := m[j]][j := m[p]];
    }

    /** Computes the multipliers of column j. */
    method ScaleMultipliers(j: nat, ghost a: Matrix, ghost piv: seq<int>)
      requires Valid() && IsPrime(Prime) && RowCount == ColCount && j < RowCount && |piv| == RowCount
      requires ColumnsDone(a, data[..], piv, j, RowCount, Prime) && ColumnRaw(a, data[..], piv, j, RowCount, Prime)
      requires ColumnsPending(a, data[..], piv, j + 1, RowCount)
      requires forall k :: j <= k < RowCount ==> data[k][j] <= data[j][j]
      modifies data
      ensures Valid()
      ensures ColumnsDone(a, data[..], piv, j + 1, RowCount, Prime) && ColumnsPending(a, data[..], piv, j + 1, RowCount)
    {
      var n := RowCount;
      ghost var m := data[..];
      hide Residue, ColumnsDone, ColumnRaw, ColumnsPending, Cong, IsPrime, Divided;
      NothingDivided(m, j, n, Prime);
      if data[j][j] != 0 {
        for i := j + 1 to n
          invariant Valid() && Divided(m, data[..], j, i, n, Prime)
        {
          DividedAt(m, data[..], j, i, n, Prime);
          ghost var now := data[..];
          StoreMultiplier(i, j);
          DividedNext(m, now, data[..], j, i, n, Prime);
        }
      } else {
        ZerosDivided(m, j, n, Prime);
      }
      AllDivided(a, m, data[..], piv, j, n, Prime);
    }

    /** The entries of column j below row j and above row i have been divided by the one of row j. */
    ghost static predicate Divided(m: Matrix, m': Matrix, j: nat, i: nat, n: nat, p: int)
      requires p > 0 && Shape(m, n, n) && j < n
    {
      && Shape(m', n, n)
      && (forall r, c :: 0 <= r < n && 0 <= c < n && !(j < r < i && c == j) ==> m'[r][c] == m[r][c])
      && (forall r :: j < r < i && r < n ==> Cong(m'[r][j] * m[j][j], m[r][j], p))
    }

    static lemma NothingDivided(m: Matrix, j: nat, n: nat, p: int)
      requires p > 0 && Shape(m, n, n) && j < n
      ensures Divided(m, m, j, j + 1, n, p)
    {
    }

    static lemma DividedAt(m: Matrix, now: Matrix, j: nat, i: nat, n: nat, p: int)
      requires p > 0 && Shape(m, n, n) && j < i < n && Divided(m, now, j, i, n, p)
      ensures Shape(now, n, n) && now[j][j] == m[j][j] && now[i][j] == m[i][j]
    {
    }

    static lemma DividedNext(m: Matrix, now: Matrix, next: Matrix, j: nat, i: nat, n: nat, p: int)
      requires p > 0 && Shape(m, n, n) && j < i < n && Divided(m, now, j, i, n, p)
      requires Shape(now, n, n) && Shape(next, n, n)
      requires forall r, c :: 0 <= r < n && 0 <= c < n && !(r == i && c == j) ==> next[r][c] == now[r][c]
      requires Cong(next[i][j] * now[j][j], now[i][j], p)
      ensures Divided(m, next, j, i + 1, n, p)
    {
      hide Cong;
    }

    /** With the greatest entry 0, all of them are. */
    static lemma ZerosDivided(m: Matrix, j: nat, n: nat, p: int)
      requires p > 0 && Shape(m, n, n) && j < n && m[j][j] == 0
      requires forall k :: j <= k < n ==> 0 <= m[k][j] <= m[j][j]
      ensures Divided(m, m, j, n, n, p)
    {
      forall r | j < r < n ensures Cong(m[r][j] * m[j][j], m[r][j], p) {
        CongReflexive(0, p);
      }
    }

    static lemma AllDivided(a: Matrix, m: Matrix, m': Matrix, piv: seq<int>, j: nat, n: nat, p: int)
      requires p > 0 && Shape(m, n, n) && j < n && |piv| == n && Divided(m, m', j, n, n, p)
      requires ColumnsDone(a, m, piv, j, n, p) && ColumnRaw(a, m, piv, j, n, p) && ColumnsPending(a, m, piv, j + 1, n)
      ensures ColumnsDone(a, m', piv, j + 1, n, p) && ColumnsPending(a, m', piv, j + 1, n)
    {
      hide Residue, ColumnsDone, ColumnRaw, Cong;
      ScaleColumn(a, m, m', piv, j, n, p);
    }

    /** Divides the entry of row i in column j by the one of row j. */
    method StoreMultiplier(i: nat, j: nat)
      requires Valid() && IsPrime(Prime) && i < RowCount && j < RowCount && i != j && j < ColCount && data[j][j] != 0
      modifies data
      ensures Valid()
      ensures forall r, c :: 0 <= r < RowCount && 0 <= c < ColCount && !(r == i && c == j) ==> data[r][c] == old(data[r][c])
      ensures Cong(data[i][j] * old(data[j][j]), old(data[i][j]), Prime)
    {
      hide Residue, Cong, IsPrime;
      ghost var d := data[j][j];
      assert 0 <= d < Prime;
      var w := Modulo(data[j][j], Prime);
      SmallIsResidue(d, Prime);
      var inv := MultiplicativeInverse(w, Prime);
      FieldInverse(d, Prime);
      ProductFits32(0, data[i][j], inv, Prime);
      assert Prime <= 46341 ==> Fits32(data[i][j] * inv);
      var v := Modulo(data[i][j] * inv, Prime);
      Multiplier(data[i][j], inv, v, d, Prime);
      Store(i, j, v);
    }

    static lemma SmallIsResidue(n: int, p: int)
      requires 0 <= n < p
      ensures Residue(n, p) == n
    {
    }

    static lemma CongReflexive(n: int, p: int)
      requires p > 0
      ensures Cong(n, n, p)
    {
    }

    static lemma Multiplier(x: int, inv: int, v: int, d: int, p: int)
      requires p > 0 && Cong(d * inv, 1, p) && v == Residue(x * inv, p)
      ensures Cong(v * d, x, p)
    {
      hide Residue;
      CongResidue(x * inv, p);
      CongMul(v, x * inv, d, d, p);
      CongMul(d * inv, 1, x, x, p);
      Regroup(x, inv, d);
      assert (x * inv) * d == (d * inv) * x;
    }

    /** Crout/Doolittle elimination: the copy returned holds L below its diagonal and U on and
        above it, and pivot the row order. */
    method GetLUDecomposition(pivot: array<int>) returns (LU: ZpMatrix)
      requires Valid() && IsPrime(Prime) && RowCount == ColCount && pivot.Length == RowCount
      modifies pivot
      ensures LU.Valid() && fresh(LU) && fresh(LU.data)
      ensures LU.RowCount == RowCount && LU.ColCount == ColCount && LU.Prime == Prime
      ensures Permutation(pivot[..], RowCount)
      ensures Factors(data[..], LU.data[..], pivot[..], RowCount, Prime)
    {
      var n := RowCount;
      ghost var a := data[..];
      LU := Copy();
      IdentityPivot(pivot);
      hide Residue, IsPrime, ColumnsDone, ColumnRaw, ColumnsPending, Factors;
      NothingDone(a, pivot[..], n, Prime);
      for j := 0 to n
        invariant LU.Valid() && Permutation(pivot[..], n) && data[..] == a
        invariant ColumnsDone(a, LU.data[..], pivot[..], j, n, Prime)
        invariant ColumnsPending(a, LU.data[..], pivot[..], j, n)
      {
        LU.TransformColumn(j, a, pivot[..]);
        LU.ExchangePivot(j, pivot, a);
        LU.ScaleMultipliers(j, a, pivot[..]);
      }
      DoneIsFactored(a, LU.data[..], pivot[..], n, Prime);
    }

    static method IdentityPivot(pivot: array<int>)
      modifies pivot
      ensures CountsUp(pivot[..])
    {
      for i := 0 to pivot.Length
        invariant forall k :: 0 <= k < i ==> pivot[k] == k
      {
        pivot[i] := i;
      }
    }

    ghost static predicate CountsUp(piv: seq<int>) {
      forall k :: 0 <= k < |piv| ==> piv[k] == k
    }

    static lemma NothingDone(a: Matrix, piv: seq<int>, n: int, p: int)
      requires p > 0 && |piv| == n && CountsUp(piv)
      ensures Permutation(piv, n) && ColumnsDone(a, a, piv, 0, n, p) && ColumnsPending(a, a, piv, 0, n)
    {
      hide Residue;
    }

    /** Brings the row with the greatest entry of column j to row j, and notes it in pivot. */
    method ExchangePivot(j: nat, pivot: array<int>, ghost a: Matrix)
      requires Valid() && RowCount == ColCount && j < RowCount && pivot.Length == RowCount && Permutation(pivot[..], RowCount)
      requires ColumnsDone(a, data[..], pivot[..], j, RowCount, Prime) && ColumnRaw(a, data[..], pivot[..], j, RowCount, Prime)
      requires ColumnsPending(a, data[..], pivot[..], j + 1, RowCount)
      modifies data, pivot
      ensures Valid() && Permutation(pivot[..], RowCount)
      ensures ColumnsDone(a, data[..], pivot[..], j, RowCount, Prime) && ColumnRaw(a, data[..], pivot[..], j, RowCount, Prime)
      ensures ColumnsPending(a, data[..], pivot[..], j + 1, RowCount)
      ensures forall k :: j <= k < RowCount ==> data[k][j] <= data[j][j]
    {
      hide ColumnsDone, ColumnRaw, ColumnsPending, Permutation;
      var p := FindPivot(j, j);
      ghost var m, piv := data[..], pivot[..];
      if p != j {
        ExchangeRowEntries(p, j);
        var r := pivot[p];
        pivot[p] := pivot[j];
        pivot[j] := r;
        assert pivot[..] == piv[p := piv[j]][j := piv[p]];
        ExchangeRows(a, m, data[..], piv, pivot[..], j, p, RowCount, Prime);
        ExchangePermutation(piv, pivot[..], j, p, RowCount);
        GreatestFirst(m, data[..], j, p);
      }
    }

    static lemma GreatestFirst(m: Matrix, m': Matrix, j: nat, p: nat)
      requires j <= p < |m| && m' == m[p := m[j]][j := m[p]]
      requires |m[p]| > j && forall k :: j <= k < |m| ==> |m[k]| > j && m[k][j] <= m[p][j]
      ensures forall k :: j <= k < |m| ==> |m'[k]| > j && m'[k][j] <= m[p][j]
      ensures m'[j] == m[p]
    {
      forall k | j <= k < |m| ensures |m'[k]| > j && m'[k][j] <= m[p][j] {
        assert m'[k] == m[if k == j then p else if k == p then j else k];
      }
    }

    // ----- inversion -----

    static method GetIdentityMatrix(matrixSize: nat, prime: int) returns (I: ZpMatrix)
      requires prime >= 2
      ensures I.Valid() && fresh(I) && fresh(I.data)
      ensures I.RowCount == matrixSize && I.ColCount == matrixSize && I.Prime == prime
      ensures forall i, j :: 0 <= i < matrixSize && 0 <= j < matrixSize ==> I.data[i][j] == Identity()(i, j)
    {
      I := new ZpMatrix(matrixSize, matrixSize, prime);
      for i := 0 to matrixSize
        invariant I.Valid()
        invariant forall r, c :: 0 <= r < matrixSize && 0 <= c < matrixSize ==>
          I.data[r][c] == if r < i then Identity()(r, c) else 0
      {
        I.Store(i, i, 1);
      }
    }

    /** The rows r[0], r[1], .. of this matrix. */
    method GetSubMatrix(r: seq<int>) returns (X: ZpMatrix)
      requires Valid() && forall i :: 0 <= i < |r| ==> 0 <= r[i] < RowCount
      ensures X.Valid() && fresh(X) && fresh(X.data)
      ensures X.RowCount == |r| && X.ColCount == ColCount && X.Prime == Prime
      ensures forall i, j :: 0 <= i < |r| && 0 <= j < ColCount ==> X.data[i][j] == data[r[i]][j]
    {
      X := new ZpMatrix(|r|, ColCount, Prime);
      for i := 0 to |r|
        invariant X.Valid()
        invariant forall t, c :: 0 <= t < i && 0 <= c < ColCount ==> X.data[t][c] == data[r[t]][c]
      {
        for j := 0 to ColCount
          invariant X.Valid()
          invariant forall t, c :: 0 <= t < i && 0 <= c < ColCount ==> X.data[t][c] == data[r[t]][c]
          invariant forall c :: 0 <= c < j ==> X.data[i][c] == data[r[i]][c]
        {
          X.Store(i, j, data[r[i]][j]);
        }
      }
    }

    /** Row i minus m times row k. */
    method SubtractRow(i: nat, k: nat, m: int)
      requires Valid() && i < RowCount && k < RowCount && i != k && 0 <= m < Prime
      modifies data
      ensures Valid()
      ensures forall r :: 0 <= r < RowCount && r != i ==> data[r] == old(data[r])
      ensures forall c :: 0 <= c < ColCount ==> Cong(data[i][c], old(data[i][c]) - old(data[k][c]) * m, Prime)
    {
      hide Residue;
      for j := 0 to ColCount
        invariant Valid()
        invariant forall r :: 0 <= r < RowCount && r != i ==> data[r] == old(data[r])
        invariant forall c :: j <= c < ColCount ==> data[i][c] == old(data[i][c])
        invariant forall c :: 0 <= c < j ==> Cong(data[i][c], old(data[i][c]) - old(data[k][c]) * m, Prime)
      {
        ProductFits32(data[i][j], data[k][j], m, Prime);
        assert Prime <= 46341 ==> Fits32(data[i][j] - data[k][j] * m);
        CongResidue(data[i][j] - data[k][j] * m, Prime);
        var v := Modulo(data[i][j] - data[k][j] * m, Prime);
        Store(i, j, v);
      }
    }

    /** Subtracts from rows first to last their multiples of row k. */
    method ClearRows(LU: ZpMatrix, k: nat, first: nat, last: nat)
      requires Valid() && LU.Valid() && LU.data != data && LU.Prime == Prime
      requires RowCount == ColCount == LU.RowCount == LU.ColCount
      requires k < RowCount && first <= last <= RowCount && !(first <= k < last)
      modifies data
      ensures Valid()
      ensures forall r :: 0 <= r < RowCount && !(first <= r < last) ==> data[r] == old(data[r])
      ensures forall r, c :: first <= r < last && 0 <= c < RowCount ==>
        Cong(data[r][c], old(data[r][c]) - old(data[k][c]) * LU.data[r][k], Prime)
    {
      hide Cong;
      for i := first to last
        invariant Valid()
        invariant forall r :: 0 <= r < RowCount && !(first <= r < i) ==> data[r] == old(data[r])
        invariant forall r, c :: first <= r < i && 0 <= c < RowCount ==>
          Cong(data[r][c], old(data[r][c]) - old(data[k][c]) * LU.data[r][k], Prime)
      {
        assert 0 <= LU.data[i][k] < Prime;
        SubtractRow(i, k, LU.data[i][k]);
      }
    }

    /** Solves L * Y = X, in place, with the factor L stored in LU. */
    method ForwardSubstitute(LU: ZpMatrix)
      requires Valid() && LU.Valid() && LU.data != data && LU.Prime == Prime
      requires RowCount == ColCount == LU.RowCount == LU.ColCount
      modifies data
      ensures Valid()
      ensures Forward(LU.data[..], old(data[..]), data[..], RowCount, RowCount, Prime)
    {
      hide Cong, Forward;
      var n := RowCount;
      ghost var m, x0 := LU.data[..], data[..];
      ForwardStart(m, x0, n, Prime);
      for k := 0 to n
        invariant Valid() && LU.data[..] == m
        invariant Forward(m, x0, data[..], k, n, Prime)
      {
        ghost var x := data[..];
        ClearRows(LU, k, k + 1, n);
        ForwardStep(m, x0, x, data[..], k, n, Prime);
      }
    }

    /** Solves U * X = Y, in place, with the regular factor U stored in LU. */
    method BackSubstitute(LU: ZpMatrix, fieldInv: seq<int>)
      requires Valid() && LU.Valid() && LU.data != data && LU.Prime == Prime && IsPrime(Prime)
      requires RowCount == ColCount == LU.RowCount == LU.ColCount
      requires |fieldInv| == Prime && forall k :: 0 <= k < Prime ==> fieldInv[k] == MultiplicativeInverse(k, Prime)
      requires forall i :: 0 <= i < RowCount ==> LU.data[i][i] != 0
      modifies data
      ensures Valid()
      ensures Backward(LU.data[..], old(data[..]), data[..], 0, RowCount, Prime)
    {
      hide Cong, Backward, IsPrime, Residue;
      var n: int := RowCount;
      ghost var m, y := LU.data[..], data[..];
      BackwardStart(m, y, n, Prime);
      var k := n - 1;
      while k >= 0
        invariant -1 <= k < n && Valid() && LU.data[..] == m
        invariant Backward(m, y, data[..], k + 1, n, Prime)
      {
        ghost var x := data[..];
        assert LU.data[k] == m[k] && 0 < m[k][k] < Prime;
        ScaleByInverse(k, m[k][k], fieldInv[LU.data[k][k]]);
        ClearRows(LU, k, 0, k);
        BackwardStep(m, y, x, data[..], k, n, Prime);
        k := k - 1;
      }
    }

    method ScaleByInverse(k: nat, ghost d: int, inv: int)
      requires Valid() && IsPrime(Prime) && k < RowCount && 0 < d < Prime && inv == MultiplicativeInverse(d, Prime)
      modifies data
      ensures Valid()
      ensures forall r :: 0 <= r < RowCount && r != k ==> data[r] == old(data[r])
      ensures forall c :: 0 <= c < ColCount ==> Cong(d * data[k][c], old(data[k][c]), Prime)
    {
      hide IsPrime, Residue;
      FieldInverse(d, Prime);
      for j := 0 to ColCount
        invariant Valid()
        invariant forall r :: 0 <= r < RowCount && r != k ==> data[r] == old(data[r])
        invariant forall c :: j <= c < ColCount ==> data[k][c] == old(data[k][c])
        invariant forall c :: 0 <= c < j ==> Cong(d * data[k][c], old(data[k][c]), Prime)
      {
        ProductFits32(0, data[k][j], inv, Prime);
        assert Prime <= 46341 ==> Fits32(data[k][j] * inv);
        var v := Modulo(data[k][j] * inv, Prime);
        Multiplier(data[k][j], inv, v, d, Prime);
        SwapFactors(v, d);
        Store(k, j, v);
      }
    }

    /** The private property of the same name; this is a factored matrix. */
    method Nonsingular() returns (ok: bool, ghost zero: nat)
      requires Valid() && RowCount == ColCount
      ensures ok ==> forall i :: 0 <= i < RowCount ==> data[i][i] != 0
      ensures !ok ==> zero < RowCount && data[zero][zero] == 0 && forall i :: 0 <= i < zero ==> data[i][i] != 0
    {
      zero := 0;
      for i := 0 to RowCount
        invariant forall r :: 0 <= r < i ==> data[r][r] != 0
      {
        if data[i][i] == 0 {
          zero := i;
          return false, zero;
        }
      }
      ok := true;
    }

    /** Solves LU * X = B(piv, :) for this factored matrix; None where the source throws because
        the matrix is singular. */
    method SolveInv(B: ZpMatrix, piv: seq<int>, fieldInv: seq<int>) returns (r: Option<ZpMatrix>, ghost zero: nat, ghost x0: Matrix)
      requires Valid() && B.Valid() && IsPrime(Prime) && B.Prime == Prime
      requires RowCount == ColCount == B.RowCount == B.ColCount && Permutation(piv, RowCount)
      requires |fieldInv| == Prime && forall k :: 0 <= k < Prime ==> fieldInv[k] == MultiplicativeInverse(k, Prime)
      ensures r.None? ==> zero < RowCount && data[zero][zero] == 0 && forall i :: 0 <= i < zero ==> data[i][i] != 0
      ensures r.Some? ==> forall i :: 0 <= i < RowCount ==> data[i][i] != 0
      ensures r.Some? ==> var X := r.value; X.Valid() && fresh(X) && fresh(X.data)
      ensures r.Some? ==> var X := r.value; X.RowCount == X.ColCount == RowCount && X.Prime == Prime
      ensures r.Some? ==> SolvesFactored(data[..], B.data[..], piv, x0, r.value.data[..], RowCount, Prime)
    {
      hide IsPrime, Forward, Backward, Permutation, MatCong;
      var ok;
      ok, zero := Nonsingular();
      if !ok {
        return None, zero, [];
      }
      PermutationRange(piv, RowCount);
      var X := B.GetSubMatrix(piv);
      ghost var m, b := data[..], B.data[..];
      x0 := X.data[..];
      X.ForwardSubstitute(this);
      ghost var y := X.data[..];
      X.BackSubstitute(this, fieldInv);
      assert data[..] == m;
      SolvedSystem(m, x0, y, X.data[..], RowCount, Prime);
      assert forall i, c :: 0 <= i < RowCount && 0 <= c < RowCount ==> Entry(x0)(i, c) == Entry(b)(piv[i], c);
      assert SolvesFactored(m, b, piv, x0, X.data[..], RowCount, Prime);
      r := Some(X);
    }

    static lemma PermutationRange(piv: seq<int>, n: int)
      requires Permutation(piv, n)
      ensures |piv| == n && forall i :: 0 <= i < n ==> 0 <= piv[i] < n
    {
    }

    static ghost predicate SolvesFactored(m: Matrix, b: Matrix, piv: seq<int>, x0: Matrix, x: Matrix, n: nat, p: int)
      requires p > 0 && |piv| == n
    {
      && MatCong(MatMul(MatMul(Lower(m), Upper(m), n), Entry(x), n), Entry(x0), n, p)
      && forall i, c :: 0 <= i < n && 0 <= c < n ==> Entry(x0)(i, c) == Entry(b)(piv[i], c)
    }

    /** The inverse, on both sides; None, where the source throws, only for a singular matrix. */
    method Inverse() returns (r: Option<ZpMatrix>)
      requires Valid() && IsPrime(Prime) && RowCount == ColCount
      ensures r.Some? ==> r.value.Valid() && fresh(r.value) && fresh(r.value.data)
      ensures r.Some? ==> r.value.RowCount == RowCount && r.value.ColCount == RowCount && r.value.Prime == Prime
      ensures r.Some? ==> IsIdentity(MatMul(Entry(data[..]), Entry(r.value.data[..]), RowCount), RowCount, Prime)
      ensures r.Some? ==> IsIdentity(MatMul(Entry(r.value.data[..]), Entry(data[..]), RowCount), RowCount, Prime)
      ensures r.None? ==> Singular(data[..], RowCount, Prime)
    {
      hide IsPrime, Permutation, Factors, MatCong, IsIdentity, Singular;
      var n := RowCount;
      ghost var a := data[..];
      var piv := new int[n];
      var fieldInv := GetFieldInverse(Prime);
      var lu := GetLUDecomposition(piv);
      var I := GetIdentityMatrix(n, Prime);
      ghost var m, order, id := lu.data[..], piv[..], I.data[..];
      PermutationRange(order, n);
      var x;
      ghost var zero, x0;
      x, zero, x0 := lu.SolveInv(I, piv[..], fieldInv);
      assert data[..] == a && lu.data[..] == m;
      assert forall i :: 0 <= i < n ==> m[i] == lu.data[i] && 0 <= m[i][i] < Prime;
      if x.None? {
        SmallNonzero(m, zero, n, Prime);
        ZeroPivotIsSingular(a, m, order, zero, n, Prime);
        return None;
      }
      ghost var xs := x.value.data[..];
      assert forall i, c :: 0 <= i < n && 0 <= c < n ==> Entry(id)(i, c) == Identity()(i, c);
      RightInverse(a, m, order, x0, xs, n, Prime);
      SmallRegular(m, n, Prime);
      LeftInverse(a, m, order, xs, n, Prime);
      r := x;
    }

    static lemma SmallNonzero(m: Matrix, zero: nat, n: nat, p: int)
      requires p > 0 && Shape(m, n, n) && zero < n && m[zero][zero] == 0
      requires forall i :: 0 <= i < zero ==> 0 < m[i][i] < p
      ensures Cong(Entry(m)(zero, zero), 0, p) && forall i :: 0 <= i < zero ==> !Cong(Entry(m)(i, i), 0, p)
    {
    }

    static lemma SmallRegular(m: Matrix, n: nat, p: int)
      requires p > 0 && Shape(m, n, n) && forall i :: 0 <= i < n ==> 0 < m[i][i] < p
      ensures Regular(m, n, p)
    {
    }
  }
}
