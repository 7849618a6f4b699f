/** Square matrices as functions of row and column, multiplied modulo p. */
module MatrixAlgebra {
  import opened Residues
  import opened Sums
  import opened NumTheory
  import opened LinearSystems

  type Fn = (int, int) -> int

  ghost function Entry(m: Matrix): Fn {
    (i, j) => if 0 <= i < |m| then At(m[i], j) else 0
  }

  ghost function Row(f: Fn, i: int, z: int -> int): int -> int {
    k => f(i, k) * z(k)
  }

  ghost function Col(g: Fn, c: int): int -> int {
    k => g(k, c)
  }

  ghost function Vec(z: seq<int>): int -> int {
    k => At(z, k)
  }

  /** Row i of f times the vector z. */
  ghost function Apply(f: Fn, z: int -> int, n: int, i: int): int {
    Sum(Row(f, i, z), 0, n)
  }

  ghost function MatMul(f: Fn, g: Fn, n: int): Fn {
    (i, c) => Apply(f, Col(g, c), n, i)
  }

  ghost function Identity(): Fn {
    (i, j) => if i == j then 1 else 0
  }

  /** The unit lower triangular factor stored below the diagonal of m. */
  ghost function Lower(m: Matrix): Fn {
    (i, k) => if k < i then Entry(m)(i, k) else if k == i then 1 else 0
  }

  /** The upper triangular factor stored on and above the diagonal of m. */
  ghost function Upper(m: Matrix): Fn {
    (k, c) => if k <= c then Entry(m)(k, c) else 0
  }

  ghost predicate MatCong(f: Fn, g: Fn, n: int, p: int)
    requires p > 0
  {
    forall i, c :: 0 <= i < n && 0 <= c < n ==> Cong(f(i, c), g(i, c), p)
  }

  ghost predicate VecZero(z: int -> int, n: int, p: int)
    requires p > 0
  {
    forall k :: 0 <= k < n ==> Cong(z(k), 0, p)
  }

  // ----- algebra -----

  lemma ApplyCong(f: Fn, f': Fn, z: int -> int, z': int -> int, n: int, i: int, p: int)
    requires p > 0 && forall k :: 0 <= k < n ==> Cong(f(i, k), f'(i, k), p) && Cong(z(k), z'(k), p)
    ensures Cong(Apply(f, z, n, i), Apply(f', z', n, i), p)
  {
    hide Residue;
    forall k | 0 <= k < n ensures Cong(Row(f, i, z)(k), Row(f', i, z')(k), p) {
      CongMul(f(i, k), f'(i, k), z(k), z'(k), p);
    }
    SumCong(Row(f, i, z), Row(f', i, z'), 0, n, p);
  }

  /** f (g z) = (f g) z. */
  lemma ApplyAssoc(f: Fn, g: Fn, z: int -> int, n: int, i: int)
    ensures Apply(f, k => Apply(g, z, n, k), n, i) == Apply(MatMul(f, g, n), z, n, i)
  {
    var t := (k: int, l: int) => f(i, k) * (g(k, l) * z(l));
    var inner := k => Apply(g, z, n, k);
    var left := k => Sum(l => t(k, l), 0, n);
    var right := l => Sum(k => t(k, l), 0, n);
    forall k | 0 <= k < n ensures Row(f, i, inner)(k) == left(k) {
      SumScale(f(i, k), Row(g, k, z), l => t(k, l), 0, n);
    }
    SumSame(Row(f, i, inner), left, 0, n);
    SumExchange(t, 0, n, 0, n);
    forall l | 0 <= l < n ensures Row(MatMul(f, g, n), i, z)(l) == right(l) {
      var term := (k: int) => t(k, l);
      var row := Row(f, i, Col(g, l));
      forall k | 0 <= k < n ensures term(k) == z(l) * row(k) {
        Regroup(f(i, k), g(k, l), z(l));
      }
      SumScale(z(l), row, term, 0, n);
      assert MatMul(f, g, n)(i, l) == Sum(row, 0, n);
      assert right(l) == Sum(term, 0, n);
      SwapFactors(z(l), Sum(row, 0, n));
    }
    SumSame(Row(MatMul(f, g, n), i, z), right, 0, n);
    assert Sum(left, 0, n) == Sum(right, 0, n);
  }

  lemma Regroup(a: int, b: int, c: int)
    ensures a * (b * c) == c * (a * b)
  {
  }

  lemma SwapFactors(a: int, b: int)
    ensures a * b == b * a
  {
  }

  lemma ApplyIdentity(z: int -> int, n: int, i: int)
    requires 0 <= i < n
    ensures Apply(Identity(), z, n, i) == z(i)
  {
    var r := Row(Identity(), i, z);
    forall k | 0 <= k < n && k != i ensures r(k) == 0 {
      assert 0 * z(k) == 0;
    }
    SumSingle(r, 0, n, i);
    assert 1 * z(i) == z(i);
  }

  lemma ApplySub(f: Fn, z: int -> int, w: int -> int, d: int -> int, n: int, i: int)
    requires forall k :: 0 <= k < n ==> d(k) == z(k) - w(k)
    ensures Apply(f, d, n, i) == Apply(f, z, n, i) - Apply(f, w, n, i)
  {
    forall k | 0 <= k < n ensures Row(f, i, d)(k) == Row(f, i, z)(k) + (-1) * Row(f, i, w)(k) {
      DistributeSub(f(i, k), z(k), w(k));
    }
    SumLinear(Row(f, i, z), -1, Row(f, i, w), Row(f, i, d), 0, n);
  }

  lemma DistributeSub(f: int, z: int, w: int)
    ensures f * (z - w) == f * z - f * w
  {
  }

  // ----- triangular systems -----

  lemma {:induction false} LowerInjective(m: Matrix, z: int -> int, n: int, i: int, p: int)
    requires p > 0 && 0 <= i <= n
    requires forall r :: 0 <= r < n ==> Cong(Apply(Lower(m), z, n, r), 0, p)
    ensures VecZero(z, i, p)
    decreases i
  {
    hide Residue;
    if i > 0 {
      LowerInjective(m, z, n, i - 1, p);
      var r := Row(Lower(m), i - 1, z);
      SumSplit(r, 0, i - 1, n);
      forall k | 0 <= k < i - 1 ensures Cong(r(k), 0, p) {
        CongMul(Lower(m)(i - 1, k), Lower(m)(i - 1, k), z(k), 0, p);
      }
      ZeroTerms(r, 0, i - 1, p);
      forall k | i <= k < n ensures r(k) == 0 {
        assert 0 * z(k) == 0;
      }
      SumZero(r, i, n);
      assert r(i - 1) == 1 * z(i - 1);
      assert Cong(Apply(Lower(m), z, n, i - 1), 0, p);
      CongAdd(Sum(r, 0, n), 0, Sum(r, 0, i - 1), 0, p);
    }
  }

  lemma ZeroTerms(r: int -> int, lo: int, hi: int, p: int)
    requires p > 0 && forall k :: lo <= k < hi ==> Cong(r(k), 0, p)
    ensures Cong(Sum(r, lo, hi), 0, p)
  {
    hide Residue;
    var zero := (k: int) => 0;
    SumCong(r, zero, lo, hi, p);
    SumZero(zero, lo, hi);
  }

  ghost predicate Regular(m: Matrix, n: int, p: int)
    requires p > 0
  {
    forall i :: 0 <= i < n ==> !Cong(Entry(m)(i, i), 0, p)
  }

  lemma {:induction false} UpperInjective(m: Matrix, z: int -> int, n: int, i: int, p: int)
    requires IsPrime(p) && 0 <= i <= n && Regular(m, n, p)
    requires forall r :: 0 <= r < n ==> Cong(Apply(Upper(m), z, n, r), 0, p)
    ensures forall k :: i <= k < n ==> Cong(z(k), 0, p)
    decreases n - i
  {
    assert p > 0;
    hide Residue, IsPrime;
    if i < n {
      UpperInjective(m, z, n, i + 1, p);
      var r := Row(Upper(m), i, z);
      SumSplit(r, 0, i, n);
      forall k | 0 <= k < i ensures r(k) == 0 {
        assert 0 * z(k) == 0;
      }
      SumZero(r, 0, i);
      forall k | i + 1 <= k < n ensures Cong(r(k), 0, p) {
        CongMul(Upper(m)(i, k), Upper(m)(i, k), z(k), 0, p);
      }
      ZeroTerms(r, i + 1, n, p);
      assert Cong(Apply(Upper(m), z, n, i), 0, p);
      CongAdd(Sum(r, 0, n), 0, Sum(r, i + 1, n), 0, p);
      assert r(i) == Entry(m)(i, i) * z(i);
      NoZeroDivisors(Entry(m)(i, i), z(i), p);
    }
  }

  /** A zero on the diagonal of an upper triangular matrix gives a nonzero vector it maps to 0. */
  lemma UpperKernel(m: Matrix, n: nat, t: nat, p: int) returns (z: seq<int>)
    requires IsPrime(p) && t < n && Cong(Entry(m)(t, t), 0, p)
    requires forall i :: 0 <= i < t ==> !Cong(Entry(m)(i, i), 0, p)
    ensures |z| == n && z[t] == 1
    ensures forall r :: 0 <= r < n ==> Cong(Apply(Upper(m), Vec(z), n, r), 0, p)
  {
    assert p > 0;
    var w := KernelTail(m, n, t, t, p);
    z := w;
    hide Residue, IsPrime;
    var v := Vec(z);
    forall r | 0 <= r < n ensures Cong(Apply(Upper(m), v, n, r), 0, p) {
      if r > t {
        forall k | 0 <= k < n ensures Row(Upper(m), r, v)(k) == 0 {
          assert k < r ==> 0 * v(k) == 0;
          assert k > t ==> Upper(m)(r, k) * 0 == 0;
        }
        SumZero(Row(Upper(m), r, v), 0, n);
      } else if r == t {
        var f := Row(Upper(m), r, v);
        forall k | 0 <= k < n && k != t ensures f(k) == 0 {
          assert k < r ==> 0 * v(k) == 0;
          assert k > t ==> Upper(m)(r, k) * 0 == 0;
        }
        SumSingle(f, 0, n, t);
      }
    }
  }

  /** Solves rows t - s .. t - 1 upward, with 1 at t and 0 after it. */
  lemma {:induction false} KernelTail(m: Matrix, n: nat, t: nat, s: nat, p: int) returns (z: seq<int>)
    requires IsPrime(p) && t < n && s <= t
    requires forall i :: 0 <= i < t ==> !Cong(Entry(m)(i, i), 0, p)
    ensures |z| == n && z[t] == 1 && forall k :: t < k < n ==> z[k] == 0
    ensures forall k :: 0 <= k < t - s ==> z[k] == 0
    ensures forall r :: t - s <= r < t ==> Cong(Apply(Upper(m), Vec(z), n, r), 0, p)
    decreases s
  {
    assert p > 0;
    hide Residue, IsPrime;
    if s == 0 {
      z := seq(n, k => if k == t then 1 else 0);
    } else {
      var y := KernelTail(m, n, t, s - 1, p);
      var i := t - s;
      z := KernelStep(m, n, t, i, y, p);
    }
  }

  lemma KernelStep(m: Matrix, n: nat, t: nat, i: nat, y: seq<int>, p: int) returns (z: seq<int>)
    requires IsPrime(p) && i < t < n && |y| == n && !Cong(Entry(m)(i, i), 0, p)
    requires y[i] == 0 && forall r :: i < r < t ==> Cong(Apply(Upper(m), Vec(y), n, r), 0, p)
    ensures |z| == n && forall k :: 0 <= k < n && k != i ==> z[k] == y[k]
    ensures forall r :: i <= r < t ==> Cong(Apply(Upper(m), Vec(z), n, r), 0, p)
  {
    var u := Upper(m);
    var vy := Vec(y);
    var d := Entry(m)(i, i);
    var rest := Apply(u, vy, n, i);
    var inv := MultiplicativeInverse(Residue(d, p), p);
    FieldInverse(Residue(d, p), p);
    z := y[i := -(rest * inv)];
    var vz := Vec(z);
    hide Residue, IsPrime;
    forall r | i <= r < t ensures Cong(Apply(u, vz, n, r), 0, p) {
      if r > i {
        forall k | 0 <= k < n ensures Row(u, r, vz)(k) == Row(u, r, vy)(k) {
          assert k == i ==> 0 * vz(k) == 0 && 0 * vy(k) == 0;
        }
        SumSame(Row(u, r, vz), Row(u, r, vy), 0, n);
        assert Cong(Apply(u, vy, n, r), 0, p);
      } else {
        var bump := k => if k == i then d * z[i] else 0;
        forall k | 0 <= k < n ensures Row(u, i, vz)(k) == Row(u, i, vy)(k) + 1 * bump(k) {
          assert k == i ==> u(i, i) * 0 == 0;
        }
        SumLinear(Row(u, i, vy), 1, bump, Row(u, i, vz), 0, n);
        SumSingle(bump, 0, n, i);
        CancelPivot(rest, d, inv, p);
      }
    }
  }

  lemma CancelPivot(rest: int, d: int, inv: int, p: int)
    requires p > 0 && Cong(Residue(d, p) * inv, 1, p)
    ensures Cong(rest + 1 * (d * -(rest * inv)), 0, p)
  {
    hide Residue;
    CongResidue(d, p);
    CongMul(Residue(d, p), d, inv, inv, p);
    CongMul(d * inv, 1, rest, rest, p);
    CongAdd(rest, rest, (d * inv) * rest, 1 * rest, p);
    CancelTerms(rest, d, inv);
  }

  lemma CancelTerms(rest: int, d: int, inv: int)
    ensures rest + 1 * (d * -(rest * inv)) == rest - (d * inv) * rest
  {
    calc {
      d * -(rest * inv);
      -(d * (rest * inv));
      -((d * inv) * rest);
    }
  }
}
