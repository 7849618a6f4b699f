/** Unique decoding. */
module Decoding {
  // The received word Y is compared with the words
  // (P(X[0]), ..., P(X[n-1])) of the nonzero polynomials of degree at most n - 2e - 1.

  import opened Residues
  import opened Sums
  import opened NumTheory
  import opened Polynomials
  import opened PolynomialCode
  import opened LinearSystems
  import opened LinearSolver

  ghost function Codeword(P: seq<int>, X: seq<int>, p: int): (c: seq<int>)
    requires p > 0
    ensures |c| == |X|
  {
    seq(|X|, i requires 0 <= i < |X| => Residue(Eval(P, X[i]), p))
  }

  /** The number of places before k in which two words differ. */
  ghost function Distance(c: seq<int>, d: seq<int>, k: nat): (r: nat)
    requires k <= |c| == |d|
    ensures r <= k
  {
    if k == 0 then 0 else Distance(c, d, k - 1) + (if c[k - 1] == d[k - 1] then 0 else 1)
  }

  /** c is the word of a nonzero polynomial of degree at most n - 2e - 1, and within e of Y. */
  ghost predicate Decodes(P: seq<int>, c: seq<int>, X: seq<int>, Y: seq<int>, e: int, p: int)
    requires p > 0 && |X| == |Y|
  {
    |P| <= |X| - 2 * e && !IsZero(P, p) && c == Codeword(P, X, p) && Distance(c, Y, |X|) <= e
  }

  /** The points before k where c and d agree (same) or differ (not same). */
  ghost function Points(X: seq<int>, c: seq<int>, d: seq<int>, same: bool, k: nat): seq<int>
    requires k <= |X| == |c| == |d|
  {
    if k == 0 then []
    else Points(X, c, d, same, k - 1) + (if (c[k - 1] == d[k - 1]) == same then [X[k - 1]] else [])
  }

  lemma {:induction false} PointsCount(X: seq<int>, c: seq<int>, d: seq<int>, k: nat)
    requires k <= |X| == |c| == |d|
    ensures |Points(X, c, d, false, k)| == Distance(c, d, k)
    ensures |Points(X, c, d, true, k)| == k - Distance(c, d, k)
  {
    if k > 0 {
      PointsCount(X, c, d, k - 1);
    }
  }

  lemma {:induction false} PointIndex(X: seq<int>, c: seq<int>, d: seq<int>, same: bool, k: nat, j: nat) returns (i: nat)
    requires k <= |X| == |c| == |d| && j < |Points(X, c, d, same, k)|
    ensures i < k && Points(X, c, d, same, k)[j] == X[i] && (c[i] == d[i]) == same
  {
    if j < |Points(X, c, d, same, k - 1)| {
      i := PointIndex(X, c, d, same, k - 1, j);
    } else {
      i := k - 1;
    }
  }

  lemma {:induction false} PointsDistinct(X: seq<int>, c: seq<int>, d: seq<int>, same: bool, k: nat, p: int)
    requires p > 0 && k <= |X| == |c| == |d| && Distinct(X, p)
    ensures Distinct(Points(X, c, d, same, k), p)
  {
    if k > 0 {
      PointsDistinct(X, c, d, same, k - 1, p);
      var before, xs := Points(X, c, d, same, k - 1), Points(X, c, d, same, k);
      forall i, j | 0 <= i < j < |xs| ensures !Cong(xs[i], xs[j], p) {
        if j == |before| {
          var t := PointIndex(X, c, d, same, k - 1, i);
          assert xs[i] == X[t] && xs[j] == X[k - 1];
        }
      }
    }
  }

  lemma {:induction false} WrongPointListed(X: seq<int>, c: seq<int>, d: seq<int>, k: nat, i: nat)
    requires i < k <= |X| == |c| == |d| && c[i] != d[i]
    ensures X[i] in Points(X, c, d, false, k)
  {
    if i < k - 1 {
      WrongPointListed(X, c, d, k - 1, i);
    }
  }

  // ----- the linear system -----

  /** Row i of the system: powers of x, then powers of x times -y. */
  ghost predicate KeyRow(row: seq<int>, x: int, y: int, n: nat, e: nat, p: int)
    requires p > 0
  {
    && |row| == n && e <= n
    && (forall j :: 0 <= j < n - e ==> Cong(row[j], Pow(x, j), p))
    && (forall j :: 0 <= j < e ==> Cong(row[n - e + j], (-y) * Pow(x, j), p))
  }

  lemma {:induction false} DotPowers(row: seq<int>, v: seq<int>, lo: nat, m: nat, c: int, x: int, p: int)
    requires p > 0 && lo + m <= |row| && lo + m <= |v|
    requires forall j :: 0 <= j < m ==> Cong(row[lo + j], c * Pow(x, j), p)
    ensures Cong(Sum(Term(row, v), lo, lo + m), c * Eval(v[lo..lo + m], x), p)
  {
    hide Residue, Pow;
    if m == 0 {
      assert c * Eval([], x) == c * 0 == 0;
      assert v[lo..lo] == [];
    } else {
      DotPowers(row, v, lo, m - 1, c, x, p);
      DotPowersStep(row, v, lo, m, c, x, p);
    }
  }

  lemma DotPowersStep(row: seq<int>, v: seq<int>, lo: nat, m: nat, c: int, x: int, p: int)
    requires p > 0 && m > 0 && lo + m <= |row| && lo + m <= |v|
    requires Cong(row[lo + m - 1], c * Pow(x, m - 1), p)
    requires Cong(Sum(Term(row, v), lo, lo + m - 1), c * Eval(v[lo..lo + m - 1], x), p)
    ensures Cong(Sum(Term(row, v), lo, lo + m), c * Eval(v[lo..lo + m], x), p)
  {
    hide Residue, Pow, Eval, Sum;
    var k := lo + m - 1;
    SumLast(Term(row, v), lo, lo + m);
    var a := v[lo..k];
    assert v[lo..lo + m] == a + [v[k]];
    EvalAppend(a, v[k], x);
    CongMul(row[k], c * Pow(x, m - 1), v[k], v[k], p);
    CongAdd(Sum(Term(row, v), lo, k), c * Eval(a, x), row[k] * v[k], (c * Pow(x, m - 1)) * v[k], p);
    PowerTerm(c, Eval(a, x), Pow(x, m - 1), v[k]);
  }

  lemma PowerTerm(c: int, e: int, w: int, v: int)
    ensures c * e + (c * w) * v == c * (e + v * w)
  {
  }

  /** The row's equation says N(x) = y * E(x), for E monic of degree e. */
  lemma KeyEquation(row: seq<int>, b: int, v: seq<int>, x: int, y: int, n: nat, e: nat, p: int)
    requires p > 0 && KeyRow(row, x, y, n, e, p) && |v| == n && Cong(b, Pow(x, e) * y, p)
    ensures Cong(Lhs(row, v, n), b, p) <==> Cong(Eval(v[..n - e], x), y * Eval(v[n - e..] + [1], x), p)
  {
    hide Residue, Pow, Eval, Lhs, Sum, Term;
    KeyHalves(row, v, x, y, n, e, p);
    EvalAppend(v[n - e..], 1, x);
    assert |v[n - e..]| == e;
    MoveTerm(Sum(Term(row, v), 0, n - e), Sum(Term(row, v), n - e, n), Eval(v[..n - e], x),
             Eval(v[n - e..], x), Pow(x, e), y, b, p);
  }

  lemma KeyHalves(row: seq<int>, v: seq<int>, x: int, y: int, n: nat, e: nat, p: int)
    requires p > 0 && KeyRow(row, x, y, n, e, p) && |v| == n
    ensures Lhs(row, v, n) == Sum(Term(row, v), 0, n - e) + Sum(Term(row, v), n - e, n)
    ensures Cong(Sum(Term(row, v), 0, n - e), 1 * Eval(v[..n - e], x), p)
    ensures Cong(Sum(Term(row, v), n - e, n), (-y) * Eval(v[n - e..], x), p)
  {
    hide Residue, Pow, Eval, Sum, Term;
    forall j | 0 <= j < n - e ensures Cong(row[0 + j], 1 * Pow(x, j), p) { }
    DotPowers(row, v, 0, n - e, 1, x, p);
    DotPowers(row, v, n - e, e, -y, x, p);
    SumSplit(Term(row, v), 0, n - e, n);
    assert v[0..n - e] == v[..n - e] && v[n - e..n] == v[n - e..] && n - e + e == n;
  }

  lemma MoveTerm(s: int, t: int, nx: int, ex: int, w: int, y: int, b: int, p: int)
    requires p > 0 && Cong(s, 1 * nx, p) && Cong(t, (-y) * ex, p) && Cong(b, w * y, p)
    ensures Cong(s + t, b, p) <==> Cong(nx, y * (ex + 1 * w), p)
  {
    hide Residue;
    assert y * (ex + 1 * w) == y * ex + w * y && (-y) * ex == -(y * ex);
    CongAdd(s, nx, t, -(y * ex), p);
    if Cong(s + t, b, p) {
      CongAdd(nx - y * ex, w * y, y * ex, y * ex, p);
    }
    if Cong(nx, y * ex + w * y, p) {
      CongAdd(nx, y * ex + w * y, y * ex, y * ex, p);
    }
  }

  /** N(x) = y * E(x) at every point. */
  ghost predicate KeyHolds(N: seq<int>, E: seq<int>, X: seq<int>, Y: seq<int>, p: int)
    requires p > 0 && |X| == |Y|
  {
    forall i :: 0 <= i < |X| ==> Cong(Eval(N, X[i]), Y[i] * Eval(E, X[i]), p)
  }

  ghost predicate KeySystem(a: Matrix, b: Matrix, X: seq<int>, Y: seq<int>, e: nat, p: int)
    requires p > 0 && |X| == |Y|
  {
    && e <= |X| && Shape(a, |X|, |X|) && Shape(b, |X|, 1)
    && (forall i :: 0 <= i < |X| ==> KeyRow(a[i], X[i], Y[i], |X|, e, p))
    && (forall i :: 0 <= i < |X| ==> Cong(b[i][0], Pow(X[i], e) * Y[i], p))
  }

  lemma SystemIsKey(a: Matrix, b: Matrix, v: seq<int>, X: seq<int>, Y: seq<int>, e: nat, p: int)
    requires p > 0 && |X| == |Y| == |v| && KeySystem(a, b, X, Y, e, p)
    ensures SolvesSystem(a, b, v, |X|, p) <==> KeyHolds(v[..|X| - e], v[|X| - e..] + [1], X, Y, p)
  {
    var n := |X|;
    hide KeyRow, Residue;
    forall i | 0 <= i < n
      ensures Cong(Lhs(a[i], v, n), b[i][0], p) <==> Cong(Eval(v[..n - e], X[i]), Y[i] * Eval(v[n - e..] + [1], X[i]), p)
    {
      KeyEquation(a[i], b[i][0], v, X[i], Y[i], n, e, p);
    }
  }

  // ----- completeness: a close word gives a solution -----

  ghost function Padded(a: seq<int>, n: nat): (r: seq<int>)
    requires |a| <= n
    ensures |r| == n && a <= r
  {
    a + seq(n - |a|, i => 0)
  }

  lemma PaddedSame(a: seq<int>, n: nat, x: int, p: int)
    requires p > 0 && |a| <= n
    ensures Cong(Eval(Padded(a, n), x), Eval(a, x), p)
  {
    forall k: nat ensures At(Padded(a, n), k) == At(a, k) { }
    EvalSame(Padded(a, n), a, x, p);
  }

  /** The error locator of a word within e of Y and its product with P solve the system. */
  lemma CloseWordSolves(P: seq<int>, c: seq<int>, a: Matrix, b: Matrix, X: seq<int>, Y: seq<int>, e: nat, p: int) returns (v: seq<int>)
    requires p > 0 && |X| == |Y| && Reduced(Y, p) && e <= |X| && Decodes(P, c, X, Y, e, p)
    requires KeySystem(a, b, X, Y, e, p)
    ensures |v| == |X| && SolvesSystem(a, b, v, |X|, p)
  {
    hide Residue, KeyRow, SolvesSystem;
    var n := |X|;
    var roots := Points(X, c, Y, false, n);
    PointsCount(X, c, Y, n);
    var all := Padded(roots, e);
    var L := Locator(all);
    LocatorMonic(all);
    NonzeroNonempty(P, p);
    TimesLength(P, L);
    var N := Padded(Times(P, L), n - e);
    v := N + L[..e];
    assert v[..n - e] == N && v[n - e..] + [1] == L;
    forall i | 0 <= i < n ensures Cong(Eval(N, X[i]), Y[i] * Eval(L, X[i]), p) {
      var x := X[i];
      PaddedSame(Times(P, L), n - e, x, p);
      EvalTimes(P, L, x);
      if c[i] == Y[i] {
        CongResidue(Eval(P, x), p);
        CongMul(Eval(P, x), Y[i], Eval(L, x), Eval(L, x), p);
      } else {
        WrongPointListed(X, c, Y, n, i);
        LocatorRoots(all, x);
        assert Eval(P, x) * 0 == 0 && Y[i] * 0 == 0;
      }
    }
    SystemIsKey(a, b, v, X, Y, e, p);
  }

  lemma NonzeroNonempty(P: seq<int>, p: int)
    requires p > 0 && !IsZero(P, p)
    ensures P != []
  {
    forall k: nat ensures At([], k) == 0 { }
    assert IsZero([], p);
  }

  /** Whatever solution is found, N = P * E as polynomials. */
  lemma KeyProduct(P: seq<int>, c: seq<int>, N: seq<int>, E: seq<int>, X: seq<int>, Y: seq<int>, e: nat, p: int)
    requires IsPrime(p) && Distinct(X, p) && |X| == |Y| && Reduced(Y, p) && Decodes(P, c, X, Y, e, p)
    requires |N| <= |X| - e && |E| == e + 1 && KeyHolds(N, E, X, Y, p)
    ensures Same(N, Times(P, E), p)
  {
    hide Residue, IsPrime;
    var n := |X|;
    NonzeroNonempty(P, p);
    TimesLength(P, E);
    var M := Scaled(-1, Times(P, E));
    var T := Plus(N, M);
    var good := Points(X, c, Y, true, n);
    PointsCount(X, c, Y, n);
    PointsDistinct(X, c, Y, true, n, p);
    forall j | 0 <= j < |good| ensures Cong(Eval(T, good[j]), 0, p) {
      var i := PointIndex(X, c, Y, true, n, j);
      KeyVanishes(P, N, E, X[i], Y[i], p);
    }
    RootCount(T, good, p);
    forall k: nat ensures Cong(At(N, k), At(Times(P, E), k), p) {
      NegatedCoefficient(Times(P, E), k);
      assert Cong(At(T, k), 0, p) && At(T, k) == At(N, k) + At(M, k);
      CongAdd(At(T, k), 0, At(Times(P, E), k), At(Times(P, E), k), p);
    }
  }

  lemma KeyVanishes(P: seq<int>, N: seq<int>, E: seq<int>, x: int, y: int, p: int)
    requires p > 0 && Cong(Eval(N, x), y * Eval(E, x), p) && y == Residue(Eval(P, x), p)
    ensures Cong(Eval(Plus(N, Scaled(-1, Times(P, E))), x), 0, p)
  {
    hide Residue;
    EvalPlus(N, Scaled(-1, Times(P, E)), x);
    EvalScaled(-1, Times(P, E), x);
    EvalTimes(P, E, x);
    CongResidue(Eval(P, x), p);
    CongMul(Eval(P, x), y, Eval(E, x), Eval(E, x), p);
    var t := Eval(P, x) * Eval(E, x);
    CongAdd(Eval(N, x), y * Eval(E, x), t, y * Eval(E, x), p);
  }

  // ----- soundness: a quotient is a close word -----

  /** If N = Q * E solves the system, the word of Q differs from Y only at roots of E. */
  lemma QuotientIsClose(Q: seq<int>, N: seq<int>, E: seq<int>, X: seq<int>, Y: seq<int>, e: nat, p: int)
    requires IsPrime(p) && Distinct(X, p) && |X| == |Y| && Reduced(Y, p)
    requires |E| == e + 1 && E[e] == 1 && KeyHolds(N, E, X, Y, p) && Same(N, Times(Q, E), p)
    ensures Distance(Codeword(Q, X, p), Y, |X|) <= e
  {
    hide Residue;
    var n := |X|;
    var c := Codeword(Q, X, p);
    var wrong := Points(X, c, Y, false, n);
    PointsCount(X, c, Y, n);
    PointsDistinct(X, c, Y, false, n, p);
    MonicNotZero(E, e, p);
    if |wrong| > e {
      forall j | 0 <= j < |wrong| ensures Cong(Eval(E, wrong[j]), 0, p) {
        var i := PointIndex(X, c, Y, false, n, j);
        RootAtError(Q, N, E, X[i], Y[i], p);
      }
      RootCount(E, wrong, p);
      assert false;
    }
  }

  lemma MonicNotZero(E: seq<int>, e: nat, p: int)
    requires p >= 2 && |E| == e + 1 && E[e] == 1
    ensures !IsZero(E, p)
  {
    OneIsNotZero(p);
    assert !Cong(At(E, e), 0, p);
  }

  lemma OneIsNotZero(p: int)
    requires p >= 2
    ensures !Cong(1, 0, p)
  {
  }

  lemma RootAtError(Q: seq<int>, N: seq<int>, E: seq<int>, x: int, y: int, p: int)
    requires IsPrime(p) && Cong(Eval(N, x), y * Eval(E, x), p) && Same(N, Times(Q, E), p)
    requires 0 <= y < p && y != Residue(Eval(Q, x), p)
    ensures Cong(Eval(E, x), 0, p)
  {
    EvalSame(N, Times(Q, E), x, p);
    EvalTimes(Q, E, x);
    CommonFactor(Eval(Q, x), y, Eval(E, x), p);
  }

  lemma CommonFactor(q: int, y: int, u: int, p: int)
    requires IsPrime(p) && Cong(q * u, y * u, p) && !Cong(q, y, p)
    ensures Cong(u, 0, p)
  {
    hide Residue, IsPrime;
    CongAdd(q * u, y * u, y * u, y * u, p);
    assert (q - y) * u == q * u - y * u;
    NoZeroDivisors(q - y, u, p);
    if Cong(q - y, 0, p) {
      CongAdd(q - y, 0, y, y, p);
      assert false;
    }
  }

  /** Equal polynomials have equal words. */
  lemma SameCodeword(P: seq<int>, Q: seq<int>, X: seq<int>, p: int)
    requires p > 0 && Same(P, Q, p)
    ensures Codeword(P, X, p) == Codeword(Q, X, p)
  {
    hide Residue;
    forall i | 0 <= i < |X| ensures Codeword(P, X, p)[i] == Codeword(Q, X, p)[i] {
      EvalSame(P, Q, X[i], p);
    }
  }

  lemma ProductsAgree(N: seq<int>, A: seq<int>, B: seq<int>, p: int)
    requires p > 0 && Same(N, A, p) && Same(N, B, p)
    ensures forall k: nat :: Cong(At(A, k) + At([], k), At(B, k), p)
  {
    hide Residue;
    forall k: nat ensures Cong(At(A, k) + At([], k), At(B, k), p) {
      assert Cong(At(N, k), At(A, k), p) && Cong(At(N, k), At(B, k), p);
    }
  }

  /** At most one word can be decoded. */
  lemma DecodingUnique(P: seq<int>, c: seq<int>, Q: seq<int>, N: seq<int>, E: seq<int>, X: seq<int>, Y: seq<int>, e: nat, p: int)
    requires IsPrime(p) && Distinct(X, p) && |X| == |Y| && Reduced(Y, p) && Decodes(P, c, X, Y, e, p)
    requires |N| <= |X| - e && |E| == e + 1 && E[e] == 1 && KeyHolds(N, E, X, Y, p) && Same(N, Times(Q, E), p)
    ensures c == Codeword(Q, X, p)
  {
    hide Residue;
    KeyProduct(P, c, N, E, X, Y, e, p);
    hide KeyHolds, Decodes, Times, Distinct, Same;
    OneIsNotZero(p);
    ProductsAgree(N, Times(Q, E), Times(P, E), p);
    DivisionUnique(Q, P, E, [], p);
    SameCodeword(Q, P, X, p);
  }
}
