/** The decoder. */
module WelchBerlekampDecoder {
  import opened Options
  import opened Residues
  import opened Sums
  import opened NumTheory
  import opened Polynomials
  import opened PolynomialCode
  import opened LinearSystems
  import opened LinearSolver
  import opened ZpMatrices
  import opened Decoding

  /** A transposed Vandermonde matrix: row i holds the first k powers of X[i]. */
  method PowerRows(X: seq<int>, k: nat, prime: int) returns (A: ZpMatrix)
    requires prime >= 2 && k >= 1
    ensures A.Valid() && fresh(A) && fresh(A.data) && A.RowCount == |X| && A.ColCount == k && A.Prime == prime
    ensures forall i, j :: 0 <= i < |X| && 0 <= j < k ==> A.data[i][j] == Residue(Pow(X[i], j), prime)
  {
    hide Residue, Pow;
    var v := ZpMatrix.GetVandermondeMatrix(k, X, prime);
    A := v.Transpose();
    forall i, j | 0 <= i < |X| && 0 <= j < k ensures A.data[i][j] == Residue(Pow(X[i], j), prime) {
      assert A.data[i][j] == v.data[j][i];
    }
  }

  /** The rows [1, x, .., x^(n-e-1), -y, -y x, .., -y x^(e-1)]. */
  method GetWelchBerlekampMatrix(X: seq<int>, Y: seq<int>, n: nat, e: nat, prime: int) returns (A: ZpMatrix)
    requires prime >= 2 && Reduced(X, prime) && Reduced(Y, prime)
    requires n == |X| == |Y| && 1 <= e < n
    ensures A.Valid() && fresh(A) && fresh(A.data) && A.RowCount == n && A.ColCount == n && A.Prime == prime
    ensures forall i :: 0 <= i < n ==> KeyRow(A.data[i], X[i], Y[i], n, e, prime)
  {
    hide Residue, Pow, KeyRow, Reduced;
    var NVanderMonde := PowerRows(X, n - e, prime);
    var EVanderMonde0 := PowerRows(X, e, prime);
    ghost var nr, er := NVanderMonde.data[..], EVanderMonde0.data[..];
    var scalarVector := new int[|Y|];
    for i := 0 to |Y|
      invariant EVanderMonde0.Valid() && NVanderMonde.Valid()
      invariant NVanderMonde.data[..] == nr && EVanderMonde0.data[..] == er
      invariant forall k :: 0 <= k < i ==> scalarVector[k] == -Y[k]
    {
      scalarVector[i] := -Y[i];
    }
    var EVanderMonde := EVanderMonde0.MulMatrixByScalarsVector(scalarVector[..]);
    A := ZpMatrix.GetConcatenationMatrix(NVanderMonde, EVanderMonde);
    forall i | 0 <= i < n ensures KeyRow(A.data[i], X[i], Y[i], n, e, prime) {
      assert NVanderMonde.data[i] == nr[i] && EVanderMonde0.data[i] == er[i];
      assert |nr[i]| == n - e && |EVanderMonde.data[i]| == e;
      RowIsKey(A.data[i], nr[i], er[i], EVanderMonde.data[i], X[i], Y[i], n, e, prime);
    }
  }

  lemma RowIsKey(row: seq<int>, nr: seq<int>, er: seq<int>, sr: seq<int>, x: int, y: int, n: nat, e: nat, p: int)
    requires p > 0 && e <= n && |nr| == n - e && |er| == |sr| == e && row == nr + sr
    requires forall j :: 0 <= j < n - e ==> nr[j] == Residue(Pow(x, j), p)
    requires forall j :: 0 <= j < e ==> er[j] == Residue(Pow(x, j), p)
    requires forall j :: 0 <= j < e ==> sr[j] == Residue(er[j] * (-y), p)
    ensures KeyRow(row, x, y, n, e, p)
  {
    hide Residue, Pow, Cong;
    forall j | 0 <= j < n - e ensures Cong(row[j], Pow(x, j), p) {
      CongResidue(Pow(x, j), p);
    }
    forall j | 0 <= j < e ensures Cong(row[n - e + j], (-y) * Pow(x, j), p) {
      assert row[n - e + j] == sr[j];
      ScaledPower(Pow(x, j), er[j], -y, sr[j], p);
    }
  }

  lemma ScaledPower(w: int, r: int, s: int, t: int, p: int)
    requires p > 0 && r == Residue(w, p) && t == Residue(r * s, p)
    ensures Cong(t, s * w, p)
  {
    hide Residue;
    CongResidue(w, p);
    CongMul(r, w, s, s, p);
    CongResidue(r * s, p);
    assert w * s == s * w;
  }

  method GetWelchBerlekampConstraintVector(X: seq<int>, Y: seq<int>, n: nat, e: nat, prime: int) returns (b: seq<int>)
    requires prime >= 2 && Reduced(X, prime) && Reduced(Y, prime) && n == |X| == |Y|
    ensures |b| == n && Reduced(b, prime)
    ensures forall i :: 0 <= i < n ==> Cong(b[i], Pow(X[i], e) * Y[i], prime)
  {
    var bVector := new int[n];
    hide Residue;
    for i := 0 to n
      invariant forall k :: 0 <= k < i ==> 0 <= bVector[k] < prime
      invariant forall k :: 0 <= k < i ==> Cong(bVector[k], Pow(X[k], e) * Y[k], prime)
    {
      var w := ModPow(X[i], e, prime);
      ProductFits32(0, w, Y[i], prime);
      assert prime <= 46341 ==> Fits32(w * Y[i]);
      CongResidue(Pow(X[i], e), prime);
      CongMul(w, Pow(X[i], e), Y[i], Y[i], prime);
      CongResidue(w * Y[i], prime);
      bVector[i] := Modulo(w * Y[i], prime);
    }
    b := bVector[..];
  }

  /** The coefficients of N and of the monic E in one solution vector. */
  method SplitSolution(v: seq<int>, n: nat, e: nat, prime: int) returns (nCoeffs: seq<int>, eCoeffs: seq<int>)
    requires prime >= 2 && Reduced(v, prime) && |v| == n && 1 <= e <= n
    ensures nCoeffs == v[..n - e] && eCoeffs == v[n - e..] + [1]
    ensures Reduced(nCoeffs, prime) && Reduced(eCoeffs, prime)
  {
    hide Residue;
    var N := new int[n - e];
    var E := new int[e + 1];
    for i := 0 to n - e
      invariant N[..i] == v[..i]
    {
      N[i] := Modulo(v[i], prime);
      SmallResidue(v[i], prime);
    }
    assert N[..] == v[..n - e];
    for i := n - e to n
      invariant N[..] == v[..n - e]
      invariant E[..i - (n - e)] == v[n - e..i]
    {
      E[i - (n - e)] := Modulo(v[i], prime);
      SmallResidue(v[i], prime);
    }
    E[e] := Modulo(1, prime);
    SmallResidue(1, prime);
    nCoeffs, eCoeffs := N[..], E[..];
    assert eCoeffs == v[n - e..] + [1];
  }

  /** A polynomial whose word is within e of Y, if there is one; null otherwise. */
  method InterpolatePolynomial(X: seq<int>, Y: seq<int>, e: int, prime: int) returns (r: Option<seq<int>>)
    requires IsPrime(prime) && Reduced(X, prime) && Reduced(Y, prime) && |X| == |Y| && e != 0
    ensures e < 0 || |X| < 2 * e ==> r == None
    ensures Distinct(X, prime) && r.Some? ==> Decodes(r.value, Codeword(r.value, X, prime), X, Y, e, prime)
    ensures r.Some? ==> r.value != [] && Reduced(r.value, prime)
    ensures Distinct(X, prime) && e > 0 ==> forall P, c :: Decodes(P, c, X, Y, e, prime) ==>
      r.Some? && c == Codeword(r.value, X, prime)
  {
    var n := |X|;
    if e < 0 || n < 2 * e {
      return None;
    }
    assert prime >= 2;
    hide IsPrime, Residue, KeyRow, Decodes, SolvesSystem, Same, Distinct, IsZero;
    var A := GetWelchBerlekampMatrix(X, Y, n, e, prime);
    var b := GetWelchBerlekampConstraintVector(X, Y, n, e, prime);
    var B := ZpMatrix.FromColumn(b, prime);
    ghost var ma, mb := A.data[..], B.data[..];
    assert KeySystem(ma, mb, X, Y, e, prime);
    var NE := LinearSolve(A, B, prime);
    assert A.data[..] == ma && B.data[..] == mb && A.RowCount == |X|;
    if NE.None? {
      NothingClose(ma, mb, X, Y, e, prime);
      return None;
    }
    var v := NE.value;
    SystemIsKey(ma, mb, v, X, Y, e, prime);
    var nCoeffs, eCoeffs := SplitSolution(v, n, e, prime);
    var nPoly := Init(nCoeffs);
    var ePoly := Init(eCoeffs);
    assert |eCoeffs| == e + 1 && eCoeffs[e] == 1;
    assert ePoly == eCoeffs;
    r := DivideWithRemainder(nPoly, ePoly, prime);
    TrimSame(nCoeffs, nPoly, prime);
    DivisionDecides(r, nCoeffs, nPoly, eCoeffs, X, Y, e, prime);
  }

  lemma NothingClose(a: Matrix, b: Matrix, X: seq<int>, Y: seq<int>, e: nat, p: int)
    requires p > 0 && |X| == |Y| && Reduced(Y, p) && KeySystem(a, b, X, Y, e, p)
    requires forall x: seq<int> :: !SolvesSystem(a, b, x, |X|, p)
    ensures forall P, c :: !Decodes(P, c, X, Y, e, p)
  {
    hide KeyRow, SolvesSystem, Decodes, Residue;
    forall P, c ensures !Decodes(P, c, X, Y, e, p) {
      if Decodes(P, c, X, Y, e, p) {
        var v := CloseWordSolves(P, c, a, b, X, Y, e, p);
        assert false;
      }
    }
  }

  /** What the division of a solution's N by its E says about the words within e of Y. */
  lemma DivisionDecides(r: Option<seq<int>>, N: seq<int>, nPoly: seq<int>, E: seq<int>, X: seq<int>, Y: seq<int>, e: nat, p: int)
    requires IsPrime(p) && |X| == |Y| && Reduced(Y, p) && |N| == |X| - e && |E| == e + 1 && E[e] == 1
    requires KeyHolds(N, E, X, Y, p) && Same(nPoly, N, p) && |nPoly| <= |N|
    requires r.Some? ==> r.value != [] && Trimmed(r.value) && Reduced(r.value, p) && |r.value| <= |nPoly| - |E| + 1
    requires r.Some? ==> Same(nPoly, Times(r.value, E), p)
    requires nPoly != [] && r.None? ==> NoQuotient(nPoly, E, p)
    ensures Distinct(X, p) && r.Some? ==> Decodes(r.value, Codeword(r.value, X, p), X, Y, e, p)
    ensures Distinct(X, p) ==> forall P, c :: Decodes(P, c, X, Y, e, p) ==> r.Some? && c == Codeword(r.value, X, p)
  {
    assert p >= 2;
    hide Residue, IsPrime, KeyHolds;
    if Distinct(X, p) {
      if r.Some? {
        SameTrans(N, nPoly, Times(r.value, E), p);
        QuotientIsClose(r.value, N, E, X, Y, e, p);
        TopIsNotZero(r.value, p);
      }
      forall P, c | Decodes(P, c, X, Y, e, p)
        ensures r.Some? && c == Codeword(r.value, X, p)
      {
        SolutionDecides(r, N, nPoly, P, c, E, X, Y, e, p);
      }
    }
  }

  lemma SolutionDecides(r: Option<seq<int>>, N: seq<int>, nPoly: seq<int>, P: seq<int>, c: seq<int>, E: seq<int>, X: seq<int>, Y: seq<int>, e: nat, p: int)
    requires IsPrime(p) && |X| == |Y| && Reduced(Y, p) && |N| == |X| - e && |E| == e + 1 && E[e] == 1
    requires KeyHolds(N, E, X, Y, p) && Same(nPoly, N, p)
    requires r.Some? ==> Same(nPoly, Times(r.value, E), p)
    requires nPoly != [] && r.None? ==> NoQuotient(nPoly, E, p)
    requires Distinct(X, p) && Decodes(P, c, X, Y, e, p)
    ensures r.Some? && c == Codeword(r.value, X, p)
  {
    assert p >= 2;
    hide Residue, IsPrime, KeyHolds, Same, Decodes, NoQuotient;
    KeyProduct(P, c, N, E, X, Y, e, p);
    SameTrans(nPoly, N, Times(P, E), p);
    MonicProductNonzero(P, E, e, p);
    assert !IsZero(P, p) by { DecodesNonzero(P, c, X, Y, e, p); }
    if nPoly == [] {
      EmptyProduct(nPoly, P, E, p);
      assert false;
    }
    if r.None? {
      QuotientExists(nPoly, E, P, p);
      assert false;
    }
    SameTrans(N, nPoly, Times(r.value, E), p);
    DecodingUnique(P, c, r.value, N, E, X, Y, e, p);
  }

  lemma DecodesNonzero(P: seq<int>, c: seq<int>, X: seq<int>, Y: seq<int>, e: nat, p: int)
    requires p > 0 && |X| == |Y| && Decodes(P, c, X, Y, e, p)
    ensures !IsZero(P, p)
  {
  }

  lemma EmptyProduct(a: seq<int>, P: seq<int>, E: seq<int>, p: int)
    requires p > 0 && a == [] && Same(a, Times(P, E), p)
    ensures IsZero(Times(P, E), p)
  {
    hide Residue;
    forall k: nat ensures Cong(At(Times(P, E), k), 0, p) {
      assert Cong(At(a, k), At(Times(P, E), k), p);
    }
  }

  lemma QuotientExists(a: seq<int>, d: seq<int>, q: seq<int>, p: int)
    requires p > 0 && Same(a, Times(q, d), p)
    ensures !NoQuotient(a, d, p)
  {
    assert Quotient(a, d, q, p);
  }

  lemma MonicProductNonzero(P: seq<int>, E: seq<int>, e: nat, p: int)
    requires IsPrime(p) && |E| == e + 1 && E[e] == 1
    ensures IsZero(Times(P, E), p) ==> IsZero(P, p)
  {
    hide Residue, IsPrime;
    assert p >= 2 by { PrimeAtLeastTwo(p); }
    OneIsNotZero(p);
    if IsZero(Times(P, E), p) {
      forall k: nat ensures Cong(At(Times(P, E), k) + At([], k), 0, p) {
        assert Cong(At(Times(P, E), k), 0, p);
      }
      DivisionOfZero(P, E, [], p);
    }
  }

  lemma PrimeAtLeastTwo(p: int)
    requires IsPrime(p)
    ensures p >= 2
  {
  }

  lemma SameTrans(a: seq<int>, b: seq<int>, c: seq<int>, p: int)
    requires p > 0 && (Same(a, b, p) || Same(b, a, p)) && Same(b, c, p)
    ensures Same(a, c, p)
  {
    hide Residue;
    forall k: nat ensures Cong(At(a, k), At(c, k), p) {
      assert Cong(At(b, k), At(c, k), p);
    }
  }

  /** Unique decoding. The answer is the word of a nonzero polynomial of degree at most n - 2e - 1
      within e of Y; it is returned whenever there is one, and null otherwise. */
  method Decode(X: seq<int>, Y: seq<int>, e: int, prime: int) returns (r: Option<seq<int>>)
    requires IsPrime(prime) && Reduced(X, prime) && Reduced(Y, prime) && |X| == |Y| && e != 0
    ensures e < 0 || |X| < 2 * e ==> r == None
    ensures Distinct(X, prime) && e > 0 ==>
      forall c :: r == Some(c) <==> exists P :: Decodes(P, c, X, Y, e, prime)
  {
    var pPolynomial := InterpolatePolynomial(X, Y, e, prime);
    if pPolynomial.None? {
      return None;
    }
    var fixedCodeWord := [];
    for i := 0 to |X|
      invariant |fixedCodeWord| == i
      invariant forall k :: 0 <= k < i ==> fixedCodeWord[k] == Residue(Eval(pPolynomial.value, X[k]), prime)
    {
      var s := Sample(pPolynomial.value, X[i], prime);
      fixedCodeWord := fixedCodeWord + [s.value];
    }
    assert fixedCodeWord == Codeword(pPolynomial.value, X, prime);
    r := Some(fixedCodeWord);
  }
}
