/** Recombination rows. */
module Recombination {
  // BgwProtocol.cs: row 0 of the inverse of the transposed
  // Vandermonde matrix of 1, .., n turns the values h(1), .., h(n) into h(0).

  import opened Residues
  import opened Sums
  import opened NumTheory
  import opened Polynomials
  import opened LinearSystems
  import opened MatrixAlgebra
  import opened LuTheory
  import opened ZpMatrices
  import opened Decoding

  /** Row j holds the powers of j + 1. */
  ghost predicate PowersOfIndex(a: Matrix, n: nat, p: int)
    requires p > 0
  {
    Shape(a, n, n) && forall j, i :: 0 <= j < n && 0 <= i < n ==> a[j][i] == Residue(Pow(j + 1, i), p)
  }

  /** Applying such a matrix evaluates a polynomial at 1, .., n. */
  lemma ApplyEvaluates(a: Matrix, h: seq<int>, n: nat, j: nat, p: int)
    requires p > 0 && PowersOfIndex(a, n, p) && |h| == n && j < n
    ensures Cong(Apply(Entry(a), Vec(h), n, j), Eval(h, j + 1), p)
  {
    hide Residue, Pow;
    var row := a[j];
    forall i | 0 <= i < n ensures Cong(row[i], 1 * Pow(j + 1, i), p) {
      assert a[j][i] == Residue(Pow(j + 1, i), p);
      CongResidue(Pow(j + 1, i), p);
    }
    DotPowers(a[j], h, 0, n, 1, j + 1, p);
    SumSame(Row(Entry(a), j, Vec(h)), Term(a[j], h), 0, n);
    assert h[0..0 + n] == h;
  }

  ghost function Indices(n: nat): seq<int> {
    seq(n, j => j + 1)
  }

  lemma IndicesDistinct(n: nat, p: int)
    requires n < p
    ensures Distinct(Indices(n), p)
  {
    var xs := Indices(n);
    forall i, j | 0 <= i < j < n ensures !Cong(xs[i], xs[j], p) {
      if Cong(xs[i], xs[j], p) {
        CongSmall(xs[i], xs[j], p);
        assert false;
      }
    }
  }

  lemma VandermondeRegular(a: Matrix, n: nat, p: int)
    requires IsPrime(p) && n < p && PowersOfIndex(a, n, p)
    ensures !Singular(a, n, p)
  {
    assert p > 0;
    IndicesDistinct(n, p);
    hide Residue, IsPrime, Entry;
    forall z: seq<int> | |z| == n && Kernel(a, z, n, p)
      ensures VecZero(Vec(z), n, p)
    {
      var xs := Indices(n);
      forall j | 0 <= j < n ensures Cong(Eval(z, xs[j]), 0, p) {
        ApplyEvaluates(a, z, n, j, p);
        assert Cong(Apply(Entry(a), Vec(z), n, j), 0, p);
      }
      RootCount(z, xs, p);
      forall k | 0 <= k < n ensures Cong(Vec(z)(k), 0, p) {
        assert Cong(At(z, k), 0, p);
      }
    }
  }

  /** A matrix with a left inverse is not singular: Inverse returns exactly for the regular ones. */
  lemma InvertibleIsRegular(a: Matrix, x: Matrix, n: nat, p: int)
    requires p > 0 && IsIdentity(MatMul(Entry(x), Entry(a), n), n, p)
    ensures !Singular(a, n, p)
  {
    hide Residue, Entry;
    forall z: seq<int> | |z| == n && Kernel(a, z, n, p)
      ensures VecZero(Vec(z), n, p)
    {
      forall r | 0 <= r < n ensures Cong(Vec(z)(r), 0, p) {
        LeftInverseApplies(a, x, Vec(z), n, r, p);
        var az := k => Apply(Entry(a), Vec(z), n, k);
        forall k | 0 <= k < n ensures Cong(Row(Entry(x), r, az)(k), 0, p) {
          assert Cong(Apply(Entry(a), Vec(z), n, k), 0, p);
          CongMul(Entry(x)(r, k), Entry(x)(r, k), az(k), 0, p);
        }
        ZeroTerms(Row(Entry(x), r, az), 0, n, p);
      }
    }
  }

  /** X (A z) = z for a left inverse X of A. */
  lemma LeftInverseApplies(a: Matrix, x: Matrix, z: int -> int, n: nat, r: nat, p: int)
    requires p > 0 && IsIdentity(MatMul(Entry(x), Entry(a), n), n, p) && r < n
    ensures Cong(Apply(Entry(x), k => Apply(Entry(a), z, n, k), n, r), z(r), p)
  {
    hide Residue, Entry;
    ApplyAssoc(Entry(x), Entry(a), z, n, r);
    forall k | 0 <= k < n ensures Cong(MatMul(Entry(x), Entry(a), n)(r, k), Identity()(r, k), p) { }
    ApplyCong(MatMul(Entry(x), Entry(a), n), Identity(), z, z, n, r, p);
    ApplyIdentity(z, n, r);
  }

  /** row recombines: for every polynomial h with at most n coefficients, the combination of
      h(1), .., h(n) is h(0). */
  ghost predicate Recombines(row: seq<int>, n: nat, p: int)
    requires p > 0
  {
    forall h: seq<int> :: |h| <= n ==> Cong(Combination(row, h, n), Eval(h, 0), p)
  }

  ghost function Combination(row: seq<int>, h: seq<int>, n: nat): int {
    Sum(k => At(row, k) * Eval(h, k + 1), 0, n)
  }

  lemma InverseRecombines(a: Matrix, x: Matrix, n: nat, p: int)
    requires p > 0 && n > 0 && PowersOfIndex(a, n, p) && Shape(x, n, n)
    requires IsIdentity(MatMul(Entry(x), Entry(a), n), n, p)
    ensures Recombines(x[0], n, p)
  {
    assert |x| == n;
    hide *;
    forall h: seq<int> | |h| <= n ensures Cong(Combination(x[0], h, n), Eval(h, 0), p) {
      RecombinesOne(a, x, h, n, p);
    }
    RecombinesIntro(x[0], n, p);
  }

  lemma RecombinesIntro(row: seq<int>, n: nat, p: int)
    requires p > 0 && forall h: seq<int> :: |h| <= n ==> Cong(Combination(row, h, n), Eval(h, 0), p)
    ensures Recombines(row, n, p)
  {
  }

  lemma RecombinesOne(a: Matrix, x: Matrix, h: seq<int>, n: nat, p: int)
    requires p > 0 && n > 0 && PowersOfIndex(a, n, p) && Shape(x, n, n) && |h| <= n
    requires IsIdentity(MatMul(Entry(x), Entry(a), n), n, p)
    ensures Cong(Combination(x[0], h, n), Eval(h, 0), p)
  {
    hide Residue, IsIdentity, PowersOfIndex, Eval, Sum, MatMul, Apply, Pow;
    var g := Padded(h, n);
    LeftInverseApplies(a, x, Vec(g), n, 0, p);
    var values := k => Apply(Entry(a), Vec(g), n, k);
    var f := k => At(x[0], k) * Eval(h, k + 1);
    forall k | 0 <= k < n ensures Cong(Row(Entry(x), 0, values)(k), f(k), p) {
      ApplyEvaluates(a, g, n, k, p);
      PaddedSame(h, n, k + 1, p);
      CongMul(At(x[0], k), At(x[0], k), values(k), Eval(h, k + 1), p);
    }
    SumCong(Row(Entry(x), 0, values), f, 0, n, p);
    ApplyIsSum(Entry(x), values, n, 0);
    CombinationIsSum(x[0], h, n, f);
    EvalHead(h, 0);
    assert At(g, 0) == At(h, 0);
  }

  lemma ApplyIsSum(f: Fn, z: int -> int, n: int, i: int)
    ensures Apply(f, z, n, i) == Sum(Row(f, i, z), 0, n)
  {
  }

  lemma CombinationIsSum(row: seq<int>, h: seq<int>, n: nat, f: int -> int)
    requires forall k :: 0 <= k < n ==> f(k) == At(row, k) * Eval(h, k + 1)
    ensures Combination(row, h, n) == Sum(f, 0, n)
  {
    hide Eval;
    SumSame(k => At(row, k) * Eval(h, k + 1), f, 0, n);
  }

  method RecombinationRow(n: nat, prime: int) returns (row: seq<int>)
    requires IsPrime(prime) && 1 <= n < prime
    ensures |row| == n && forall k :: 0 <= k < n ==> 0 <= row[k] < prime
    ensures Recombines(row, n, prime)
  {
    assert prime >= 2;
    hide IsPrime, Residue, Pow, Singular, IsIdentity, Recombines;
    var V := ZpMatrix.GetIndexVandermondeMatrix(n, n, prime);
    var A := V.Transpose();
    ghost var a := A.data[..];
    forall j, i | 0 <= j < n && 0 <= i < n ensures a[j][i] == Residue(Pow(j + 1, i), prime) {
      assert A.data[j][i] == V.data[i][j];
    }
    assert PowersOfIndex(a, n, prime);
    var X := A.Inverse();
    assert A.data[..] == a;
    VandermondeRegular(a, n, prime);
    ghost var x := X.value.data[..];
    InverseRecombines(a, x, n, prime);
    row := X.value.data[0];
    assert row == x[0];
  }
}
