/** Solving A x = b. */
module LinearSolver {
  // linearSolve of WelchBerlekampDecoder.cs, over Z_p.

  import opened Options
  import opened Residues
  import opened Sums
  import opened NumTheory
  import opened LinearSystems
  import opened ZpMatrices
  import opened PolynomialCode

  /** x solves a * x = b, for b a column. */
  ghost predicate SolvesSystem(a: Matrix, b: Matrix, x: seq<int>, n: int, p: int)
    requires p > 0 && |a| == |b| && forall i :: 0 <= i < |b| ==> |b[i]| == 1
  {
    forall i :: 0 <= i < |a| ==> Cong(Lhs(a[i], x, n), b[i][0], p)
  }

  /** The equation of a row whose coefficients before lo are 0. */
  ghost predicate TailHolds(row: seq<int>, x: seq<int>, lo: nat, n: nat, p: int)
    requires p > 0
  {
    Cong(Sum(Term(row, x), lo, n), At(row, n), p)
  }

  lemma TailIsRow(row: seq<int>, x: seq<int>, lo: nat, n: nat, p: int)
    requires p > 0 && lo <= n <= |row| && forall c :: 0 <= c < lo ==> row[c] == 0
    requires TailHolds(row, x, lo, n, p)
    ensures RowHolds(row, x, n, p)
  {
    SumSplit(Term(row, x), 0, lo, n);
    ZeroPrefix(row, x, 0, lo);
  }

  /** A tail only looks at the unknowns it covers. */
  lemma TailFrame(row: seq<int>, x: seq<int>, y: seq<int>, lo: nat, n: nat, p: int)
    requires p > 0 && |x| == |y| == n && forall c :: lo <= c < n ==> x[c] == y[c]
    requires TailHolds(row, x, lo, n, p)
    ensures TailHolds(row, y, lo, n, p)
  {
    SumSame(Term(row, x), Term(row, y), lo, n);
  }

  /** The pivot unknown is set so that its row holds; the unknowns up to the next known one are 0. */
  lemma PivotTail(row: seq<int>, x: seq<int>, col: nat, first: nat, n: nat, temp: int, p: int)
    requires p > 0 && col < first <= n == |x| && |row| == n + 1
    requires row[col] == 1 && x[col] == temp && forall c :: col < c < first ==> x[c] == 0
    requires Cong(temp, row[n] - Sum(Term(row, x), first, n), p)
    ensures TailHolds(row, x, col, n, p)
  {
    var f := Term(row, x);
    SumSplit(f, col + 1, first, n);
    forall c | col + 1 <= c < first ensures f(c) == 0 {
      assert row[c] * 0 == 0;
    }
    SumZero(f, col + 1, first);
    var s := Sum(f, first, n);
    assert Sum(f, col, n) == temp + s;
    CongAdd(temp, row[n] - s, s, s, p);
  }

  /** Removes the known unknowns, those from first on, from the equation of a row. */
  method RemoveKnown(row: seq<int>, solution: array<int>, first: nat, prime: int) returns (temp: int)
    requires prime >= 2 && |row| == solution.Length + 1 && first <= solution.Length
    requires Reduced(row, prime) && Reduced(solution[first..], prime)
    ensures 0 <= temp < prime
    ensures Cong(temp, row[solution.Length] - Sum(Term(row, solution[..]), first, solution.Length), prime)
  {
    hide Residue;
    var n := solution.Length;
    ghost var f := Term(row, solution[..]);
    temp := row[n];
    assert Sum(f, n, n) == 0;
    var col := n - 1;
    while col >= first
      invariant first - 1 <= col < n
      invariant 0 <= temp < prime
      invariant Cong(temp, row[n] - Sum(f, col + 1, n), prime)
    {
      assert solution[col] == solution[first..][col - first];
      ProductFits32(temp, row[col], solution[col], prime);
      assert prime <= 46341 ==> Fits32(temp - row[col] * solution[col]);
      var v := row[col] * solution[col];
      assert v == f(col);
      assert Sum(f, col, n) == v + Sum(f, col + 1, n);
      CongAdd(temp, row[n] - Sum(f, col + 1, n), v, v, prime);
      CongResidue(temp - v, prime);
      temp := Modulo(temp - v, prime);
      col := col - 1;
    }
  }

  /** What holds while rows row + 1 .. |pc| - 1 of an echelon system have been processed. */
  ghost predicate Solved(m: Matrix, pc: seq<nat>, row: int, first: nat, x: seq<int>, p: int)
    requires p > 0
  {
    && Echelon(m, pc, |x|) && Shape(m, |m|, |x| + 1) && ReducedMatrix(m, p)
    && -1 <= row < |pc|
    && first == (if row + 1 < |pc| then pc[row + 1] else |x|)
    && (forall c :: first <= c < |x| ==> 0 <= x[c] < p)
    && (forall k :: row < k < |pc| ==> TailHolds(m[k], x, pc[k], |x|, p))
    && FreeAreZero(pc, x, first)
  }

  /** The unknowns from first on that no row determines are 0. */
  ghost predicate FreeAreZero(pc: seq<nat>, x: seq<int>, first: nat) {
    forall c :: first <= c < |x| && c !in pc ==> x[c] == 0
  }

  lemma SolvedStart(m: Matrix, pc: seq<nat>, x: seq<int>, p: int)
    requires p > 0 && Echelon(m, pc, |x|) && Shape(m, |m|, |x| + 1) && ReducedMatrix(m, p)
    ensures Solved(m, pc, |pc| - 1, |x|, x, p)
  {
  }

  lemma SolvedStep(m: Matrix, pc: seq<nat>, row: nat, first: nat, x: seq<int>, y: seq<int>, temp: int, p: int)
    requires p > 0 && Solved(m, pc, row, first, x, p) && |y| == |x| && 0 <= temp < p
    requires Cong(temp, m[row][|x|] - Sum(Term(m[row], x), first, |x|), p)
    requires forall c :: first <= c < |x| ==> y[c] == x[c]
    requires forall c :: pc[row] < c < first ==> y[c] == 0
    requires y[pc[row]] == temp
    ensures pc[row] < first && Solved(m, pc, row - 1, pc[row], y, p)
  {
    hide Cong, Residue, Sum, ReducedMatrix;
    var col, n := pc[row], |x|;
    SumSame(Term(m[row], x), Term(m[row], y), first, n);
    PivotTail(m[row], y, col, first, n, temp, p);
    forall k | row < k < |pc| ensures TailHolds(m[k], y, pc[k], n, p) {
      TailFrame(m[k], x, y, pc[k], n, p);
    }
  }

  lemma SolvedEnd(m: Matrix, pc: seq<nat>, first: nat, x: seq<int>, y: seq<int>, p: int)
    requires p > 0 && Solved(m, pc, -1, first, x, p) && |y| == |x|
    requires forall c :: first <= c < |x| ==> y[c] == x[c]
    requires forall c :: 0 <= c < first ==> y[c] == 0
    requires forall u :: |pc| <= u < |m| ==> ZeroRow(m[u])
    ensures Solves(m, y, |x|, p) && Reduced(y, p) && FreeAreZero(pc, y, 0)
  {
    var n := |x|;
    forall k | 0 <= k < |m| ensures RowHolds(m[k], y, n, p) {
      if k < |pc| {
        assert TailHolds(m[k], x, pc[k], n, p);
        assert first <= pc[k];
        TailFrame(m[k], x, y, pc[k], n, p);
        TailIsRow(m[k], y, pc[k], n, p);
      } else {
        ZeroPrefix(m[k], y, 0, n);
      }
    }
  }

  lemma SolvedFacts(m: Matrix, pc: seq<nat>, row: nat, first: nat, x: seq<int>, p: int)
    requires p > 0 && Solved(m, pc, row, first, x, p)
    ensures first <= |x| && row <= pc[row] < first && m[row][pc[row]] == 1
    ensures forall c :: row <= c < pc[row] ==> m[row][c] == 0
    ensures Reduced(x[first..], p)
  {
  }

  lemma RowFacts(m: Matrix, pc: seq<nat>, row: nat, p: int)
    requires Shape(m, |m|, |m| + 1) && ReducedMatrix(m, p) && Echelon(m, pc, |m|) && row < |m|
    ensures |m[row]| == |m| + 1 && Reduced(m[row], p)
    ensures row >= |pc| ==> forall c :: 0 <= c < |m| ==> m[row][c] == 0
  {
  }

  /** Sets the unknown of column col from the reduced right hand side, and the unknowns between it
      and the next known one to 0. */
  method Determine(entry: int, temp: int, col: nat, first: nat, invArray: seq<int>, solution: array<int>, prime: int)
    requires prime >= 2 && |invArray| == prime && invArray[1] == 1 && entry == 1
    requires 0 <= temp < prime && col < first <= solution.Length
    modifies solution
    ensures solution[col] == temp
    ensures forall c :: 0 <= c < col || first <= c < solution.Length ==> solution[c] == old(solution[c])
    ensures forall c :: col < c < first ==> solution[c] == 0
  {
    for j := col + 1 to first
      invariant forall c :: 0 <= c <= col || first <= c < solution.Length ==> solution[c] == old(solution[c])
      invariant forall c :: col < c < j ==> solution[c] == 0
    {
      solution[j] := 0;
    }
    var w := Modulo(entry, prime);
    assert prime <= 46341 ==> Fits32(temp * invArray[w]);
    solution[col] := temp * invArray[w];
  }

  /** Either the nonzero rows are the pivot rows, or the system has no solution and its last
      counted row has no coefficient. */
  lemma RankDecides(m: Matrix, pc: seq<nat>, rank: nat, p: int)
    requires p > 0 && Shape(m, |m|, |m| + 1) && ReducedMatrix(m, p) && Echelon(m, pc, |m|)
    requires rank == NonzeroRows(m, |m|)
    ensures |pc| <= rank <= |m|
    ensures rank == |pc| ==> forall u :: |pc| <= u < |m| ==> ZeroRow(m[u])
    ensures rank > |pc| ==> forall x: seq<int> :: !Solves(m, x, |m|, p)
  {
    hide Solves;
    CountRows(m, pc, |m|, |m|);
    if rank > |pc| {
      var u :| |pc| <= u < |m| && !ZeroRow(m[u]);
      Contradictory(m, pc, |m|, u, p);
    }
  }

  /** One row of the loop: determines the unknown of its first coefficient, or finds that it has none
      before the known unknowns, which only happens in a system without solutions. */
  method SolveRow(m: Matrix, row: nat, first: nat, ghost pc: seq<nat>, invArray: seq<int>, solution: array<int>, prime: int)
    returns (found: bool, col: nat)
    requires prime >= 2 && |invArray| == prime && invArray[1] == 1
    requires |m| == solution.Length && row < |m| && first <= |m|
    requires Shape(m, |m|, |m| + 1) && ReducedMatrix(m, prime) && Echelon(m, pc, |m|)
    requires row < |pc| ==> Solved(m, pc, row, first, solution[..], prime)
    requires row >= |pc| ==> first == |m|
    modifies solution
    ensures found ==> row < |pc| && col < first && Solved(m, pc, row - 1, col, solution[..], prime)
    ensures !found ==> row >= |pc|
  {
    hide TailHolds, Cong, Residue, Solved, Term, Echelon, Shape, ReducedMatrix;
    ghost var before := solution[..];
    if row < |pc| {
      SolvedFacts(m, pc, row, first, before, prime);
    }
    RowFacts(m, pc, row, prime);
    assert solution[first..] == before[first..];
    var temp := RemoveKnown(m[row], solution, first, prime);
    if row < first {
      col := HasCoefficient(m[row], row, first);
    } else {
      col := first;
    }
    if col >= first {
      return false, col;
    }
    Determine(m[row][col], temp, col, first, invArray, solution, prime);
    SolvedStep(m, pc, row, first, before, solution[..], temp, prime);
    found := true;
  }

  /** The unknowns before the first determined one are 0. */
  method ZeroBefore(solution: array<int>, first: nat)
    requires first <= solution.Length
    modifies solution
    ensures forall c :: first <= c < solution.Length ==> solution[c] == old(solution[c])
    ensures forall c :: 0 <= c < first ==> solution[c] == 0
  {
    for col := 0 to first
      invariant forall c :: first <= c < solution.Length ==> solution[c] == old(solution[c])
      invariant forall c :: 0 <= c < col ==> solution[c] == 0
    {
      solution[col] := 0;
    }
  }

  /** Row by row from the last pivot: the loop of linearSolve on an echelon system. */
  method BackSubstitute(m: Matrix, rank: nat, ghost pc: seq<nat>, invArray: seq<int>, solution: array<int>, prime: int)
    returns (ok: bool)
    requires IsPrime(prime) && |invArray| == prime
    requires forall k :: 0 <= k < prime ==> invArray[k] == MultiplicativeInverse(k, prime)
    requires |m| == solution.Length && Shape(m, |m|, |m| + 1) && ReducedMatrix(m, prime) && Echelon(m, pc, |m|)
    requires rank == NonzeroRows(m, |m|)
    modifies solution
    ensures ok ==> Reduced(solution[..], prime) && Solves(m, solution[..], |m|, prime) && FreeAreZero(pc, solution[..], 0)
    ensures !ok ==> forall x: seq<int> :: !Solves(m, x, |m|, prime)
  {
    var n := solution.Length;
    InverseOfOne(prime);
    assert prime >= 2 && invArray[1] == 1;
    hide IsPrime, Solves, NonzeroRows, Solved, ZeroRow, Echelon, Shape, ReducedMatrix, MultiplicativeInverse, FreeAreZero;
    RankDecides(m, pc, rank, prime);
    SolvedStart(m, pc, solution[..], prime);
    var firstDeterminedValue := n;
    var row := rank - 1;
    while row >= 0
      invariant -1 <= row < rank && 0 <= firstDeterminedValue <= n
      invariant row < |pc| ==> rank == |pc| && Solved(m, pc, row, firstDeterminedValue, solution[..], prime)
      invariant row >= |pc| ==> firstDeterminedValue == n
    {
      var found, col := SolveRow(m, row, firstDeterminedValue, pc, invArray, solution, prime);
      if !found {
        // The last nonzero row has no coefficient: there is no solution.
        return false;
      }
      firstDeterminedValue := col;
      row := row - 1;
    }
    ghost var before := solution[..];
    ZeroBefore(solution, firstDeterminedValue);
    SolvedEnd(m, pc, firstDeterminedValue, before, solution[..], prime);
    ok := true;
  }

  /** The first column from lo on, but before hi, where the row is not 0; hi if there is none. */
  method HasCoefficient(row: seq<int>, lo: nat, hi: nat) returns (col: nat)
    requires lo <= hi <= |row|
    ensures lo <= col <= hi && (col < hi ==> row[col] != 0)
    ensures forall c :: lo <= c < col ==> row[c] == 0
  {
    col := lo;
    while col < hi
      invariant lo <= col <= hi
      invariant forall c :: lo <= c < col ==> row[c] == 0
    {
      if row[col] != 0 {
        break;
      }
      col := col + 1;
    }
  }

  /** Sound and complete: a solution if there is one, null otherwise. */
  method LinearSolve(A: ZpMatrix, B: ZpMatrix, prime: int) returns (r: Option<seq<int>>)
    requires A.Valid() && B.Valid() && A.RowCount == A.ColCount == B.RowCount && B.ColCount == 1
    requires A.Prime == prime && B.Prime == prime && IsPrime(prime)
    ensures r.Some? ==> |r.value| == A.RowCount && Reduced(r.value, prime)
    ensures r.Some? ==> SolvesSystem(A.data[..], B.data[..], r.value, A.RowCount, prime)
    ensures r.None? ==> forall x: seq<int> :: !SolvesSystem(A.data[..], B.data[..], x, A.RowCount, prime)
  {
    hide IsPrime, Echelon, Solves, Equivalent, SolvesSystem, Residue;
    ghost var a, b := A.data[..], B.data[..];
    var invArray := GetFieldInverse(prime);
    var C := ZpMatrix.GetConcatenationMatrix(A, B);
    var n := C.RowCount;
    var solution := new int[n](i => 0);
    ghost var aug := C.data[..];
    AugmentedRows(a, b, aug, n, prime);
    ghost var pc;
    var rank;
    rank, pc := C.Gauss();
    SameSolutions(aug, C.data[..], n, prime);
    var ok := BackSubstitute(C.data[..], rank, pc, invArray, solution, prime);
    if !ok {
      return None;
    }
    var resultVec := FieldElements(solution, prime);
    r := Some(resultVec);
  }

  /** The entries as field elements: they are reduced already. */
  method FieldElements(solution: array<int>, prime: int) returns (r: seq<int>)
    requires prime >= 2 && Reduced(solution[..], prime)
    ensures r == solution[..]
  {
    hide Residue;
    var resultVec := new int[solution.Length](i => 0);
    ghost var x := solution[..];
    for i := 0 to solution.Length
      invariant solution[..] == x
      invariant forall k :: 0 <= k < i ==> resultVec[k] == x[k]
    {
      assert 0 <= x[i] < prime;
      SmallResidue(x[i], prime);
      resultVec[i] := Modulo(solution[i], prime);
    }
    assert resultVec[..] == x;
    r := resultVec[..];
  }

  lemma SmallResidue(n: int, p: int)
    requires 0 <= n < p
    ensures Residue(n, p) == n
  {
  }

  lemma SameSolutions(a: Matrix, b: Matrix, n: int, p: int)
    requires p > 0 && Equivalent(a, b, n, p)
    ensures forall x: seq<int> :: Solves(a, x, n, p) <==> Solves(b, x, n, p)
  {
  }

  lemma AugmentedRows(a: Matrix, b: Matrix, aug: Matrix, n: nat, p: int)
    requires p > 0 && |a| == |b| == |aug| == n && Shape(a, n, n) && Shape(b, n, 1)
    requires forall i :: 0 <= i < n ==> aug[i] == a[i] + b[i]
    ensures forall x: seq<int> :: Solves(aug, x, n, p) <==> SolvesSystem(a, b, x, n, p)
  {
    forall x: seq<int> ensures Solves(aug, x, n, p) <==> SolvesSystem(a, b, x, n, p) {
      forall i | 0 <= i < n ensures RowHolds(aug[i], x, n, p) <==> Cong(Lhs(a[i], x, n), b[i][0], p) {
        SumSame(Term(aug[i], x), Term(a[i], x), 0, n);
      }
    }
  }
}
