/** Polynomials with integer coefficients, lowest degree first, read modulo a prime. */
module Polynomials {
  import opened Residues
  import opened Sums
  import opened NumTheory

  ghost function Eval(a: seq<int>, x: int): int {
    if a == [] then 0 else a[0] + x * Eval(a[1..], x)
  }

  ghost function Plus(a: seq<int>, b: seq<int>): (s: seq<int>)
    ensures |s| == if |a| > |b| then |a| else |b|
  {
    seq(if |a| > |b| then |a| else |b|, i => At(a, i) + At(b, i))
  }

  ghost function Scaled(c: int, a: seq<int>): (s: seq<int>)
    ensures |s| == |a|
  {
    seq(|a|, i requires 0 <= i < |a| => c * a[i])
  }

  ghost function Times(a: seq<int>, b: seq<int>): seq<int> {
    if a == [] then [] else Plus(Scaled(a[0], b), [0] + Times(a[1..], b))
  }

  /** Equal coefficient by coefficient modulo p. */
  ghost predicate Same(a: seq<int>, b: seq<int>, p: int)
    requires p > 0
  {
    forall k: nat :: Cong(At(a, k), At(b, k), p)
  }

  ghost predicate IsZero(a: seq<int>, p: int)
    requires p > 0
  {
    forall k: nat :: Cong(At(a, k), 0, p)
  }

  // ----- evaluation is a ring homomorphism -----

  lemma {:induction false} EvalPlus(a: seq<int>, b: seq<int>, x: int)
    ensures Eval(Plus(a, b), x) == Eval(a, x) + Eval(b, x)
  {
    var s := Plus(a, b);
    if a == [] {
      assert s == b;
    } else if b == [] {
      assert s == a;
    } else {
      assert s[1..] == Plus(a[1..], b[1..]);
      EvalPlus(a[1..], b[1..], x);
      Distribute(x, Eval(a[1..], x), Eval(b[1..], x));
    }
  }

  lemma {:induction false} EvalScaled(c: int, a: seq<int>, x: int)
    ensures Eval(Scaled(c, a), x) == c * Eval(a, x)
  {
    if a == [] {
      assert c * 0 == 0;
    } else {
      assert Scaled(c, a)[1..] == Scaled(c, a[1..]);
      EvalScaled(c, a[1..], x);
      var e := Eval(a[1..], x);
      calc {
        c * a[0] + x * (c * e);
        c * a[0] + c * (x * e);
        c * (a[0] + x * e);
      }
    }
  }

  lemma {:induction false} EvalTimes(a: seq<int>, b: seq<int>, x: int)
    ensures Eval(Times(a, b), x) == Eval(a, x) * Eval(b, x)
  {
    if a != [] {
      var t := Times(a[1..], b);
      EvalTimes(a[1..], b, x);
      EvalPlus(Scaled(a[0], b), [0] + t, x);
      EvalScaled(a[0], b, x);
      assert ([0] + t)[1..] == t;
      assert Eval([0] + t, x) == x * Eval(t, x);
      TimesStep(a[0], x, Eval(a[1..], x), Eval(b, x));
    }
  }

  lemma TimesStep(c: int, x: int, e: int, f: int)
    ensures c * f + x * (e * f) == (c + x * e) * f
  {
  }

  lemma {:induction false} EvalSame(a: seq<int>, b: seq<int>, x: int, p: int)
    requires p > 0 && Same(a, b, p)
    ensures Cong(Eval(a, x), Eval(b, x), p)
    decreases |a| + |b|
  {
    if a != [] || b != [] {
      var c := if a == [] then [] else a[1..];
      var d := if b == [] then [] else b[1..];
      forall k: nat ensures Cong(At(c, k), At(d, k), p) {
        assert At(c, k) == At(a, k + 1) && At(d, k) == At(b, k + 1);
      }
      EvalSame(c, d, x, p);
      CongMul(x, x, Eval(c, x), Eval(d, x), p);
      assert Cong(At(a, 0), At(b, 0), p);
      CongAdd(At(a, 0), At(b, 0), x * Eval(c, x), x * Eval(d, x), p);
      EvalHead(a, x);
      EvalHead(b, x);
    }
  }

  lemma EvalHead(a: seq<int>, x: int)
    ensures Eval(a, x) == At(a, 0) + x * Eval(if a == [] then [] else a[1..], x)
  {
    assert a == [] ==> x * Eval([], x) == 0;
  }

  /** One more coefficient adds its term, as the loop of Sample does. */
  lemma {:induction false} EvalAppend(a: seq<int>, c: int, x: int)
    ensures Eval(a + [c], x) == Eval(a, x) + c * Pow(x, |a|)
  {
    if a == [] {
      assert Eval([c], x) == c + x * 0;
    } else {
      assert (a + [c])[1..] == a[1..] + [c];
      EvalAppend(a[1..], c, x);
      var e, w := Eval(a[1..], x), Pow(x, |a| - 1);
      calc {
        a[0] + x * (e + c * w);
        a[0] + x * e + c * (x * w);
      }
    }
  }

  // ----- coefficients of sums and products -----

  lemma {:induction false} TimesLength(a: seq<int>, b: seq<int>)
    requires a != [] && b != []
    ensures |Times(a, b)| == |a| + |b| - 1
  {
    if |a| > 1 {
      TimesLength(a[1..], b);
    }
  }

  /** Coefficient k of a product, through the lowest coefficient of the first factor. */
  lemma TimesCoefficient(a: seq<int>, b: seq<int>, k: int)
    requires a != []
    ensures At(Times(a, b), k) == a[0] * At(b, k) + At(Times(a[1..], b), k - 1)
  {
    var t := Times(a[1..], b);
    assert At([0] + t, k) == At(t, k - 1);
    assert At(Scaled(a[0], b), k) == a[0] * At(b, k) by {
      assert a[0] * 0 == 0;
    }
  }

  lemma PlusParts(a: seq<int>, b: seq<int>)
    ensures Plus([], b) == b && Plus(a, []) == a
    ensures a != [] && b != [] ==> Plus(a, b)[0] == a[0] + b[0]
    ensures a != [] && b != [] ==> Plus(a, b)[1..] == Plus(a[1..], b[1..])
  {
  }

  lemma TimesNothing(d: seq<int>, k: int)
    ensures At(Times([], d), k) == 0
  {
  }

  lemma {:induction false} TimesPlusLeft(a: seq<int>, b: seq<int>, d: seq<int>, k: int)
    ensures At(Times(Plus(a, b), d), k) == At(Times(a, d), k) + At(Times(b, d), k)
    decreases |a| + |b|
  {
    hide Times, Plus, At;
    PlusParts(a, b);
    if a == [] || b == [] {
      TimesNothing(d, k);
    } else {
      TimesPlusLeft(a[1..], b[1..], d, k - 1);
      TimesCoefficient(a, d, k);
      TimesCoefficient(b, d, k);
      TimesCoefficient(Plus(a, b), d, k);
      assert (a[0] + b[0]) * At(d, k) == a[0] * At(d, k) + b[0] * At(d, k);
    }
  }

  lemma {:induction false} TimesScaledLeft(c: int, a: seq<int>, d: seq<int>, k: int)
    ensures At(Times(Scaled(c, a), d), k) == c * At(Times(a, d), k)
    decreases |a|
  {
    if a == [] {
      assert c * 0 == 0;
    } else {
      var s := Scaled(c, a);
      assert s[1..] == Scaled(c, a[1..]);
      TimesScaledLeft(c, a[1..], d, k - 1);
      TimesCoefficient(a, d, k);
      TimesCoefficient(s, d, k);
      ScaleTwo(c, a[0], At(d, k), At(Times(a[1..], d), k - 1));
    }
  }

  lemma ScaleTwo(c: int, a: int, b: int, t: int)
    ensures (c * a) * b + c * t == c * (a * b + t)
  {
  }

  lemma {:induction false} TimesZero(a: seq<int>, d: seq<int>, k: int, p: int)
    requires p > 0 && IsZero(a, p)
    ensures Cong(At(Times(a, d), k), 0, p)
    decreases |a|
  {
    if a != [] {
      forall i: nat ensures Cong(At(a[1..], i), 0, p) {
        assert At(a[1..], i) == At(a, i + 1);
      }
      TimesZero(a[1..], d, k - 1, p);
      TimesCoefficient(a, d, k);
      assert Cong(At(a, 0), 0, p);
      CongMul(a[0], 0, At(d, k), At(d, k), p);
      CongAdd(a[0] * At(d, k), 0, At(Times(a[1..], d), k - 1), 0, p);
    }
  }

  /** If a vanishes above t, the product's coefficient at t + deg d is the product of a[t] and
      the leading coefficient of d. */
  lemma {:induction false} TimesTop(a: seq<int>, t: nat, d: seq<int>, p: int)
    requires p > 0 && d != [] && t < |a|
    requires forall k: nat :: k > t ==> Cong(At(a, k), 0, p)
    ensures Cong(At(Times(a, d), t + |d| - 1), a[t] * d[|d| - 1], p)
    decreases |a|
  {
    hide Times, Cong, Residue;
    var e := |d| - 1;
    var b := a[1..];
    TimesCoefficient(a, d, t + e);
    forall k: nat ensures At(b, k) == At(a, k + 1) { }
    if t == 0 {
      TimesZero(b, d, e - 1, p);
      CongAdd(a[0] * d[e], a[0] * d[e], At(Times(b, d), e - 1), 0, p);
    } else {
      TimesTop(b, t - 1, d, p);
      assert a[0] * At(d, t + e) == 0;
    }
  }

  // ----- roots -----

  /** The quotient of a by x - r. */
  ghost function Deflate(a: seq<int>, r: int): (q: seq<int>)
    ensures |q| == if |a| == 0 then 0 else |a| - 1
  {
    if |a| <= 1 then [] else [Eval(a[1..], r)] + Deflate(a[1..], r)
  }

  lemma {:induction false} DeflateEval(a: seq<int>, r: int, x: int)
    ensures Eval(a, x) == Eval(a, r) + (x - r) * Eval(Deflate(a, r), x)
  {
    if |a| <= 1 {
      assert |a| == 1 ==> Eval(a[1..], x) == 0 && Eval(a[1..], r) == 0;
      assert (x - r) * 0 == 0 && x * 0 == 0 && r * 0 == 0;
    } else {
      var b := a[1..];
      DeflateEval(b, r, x);
      var q := Deflate(b, r);
      assert ([Eval(b, r)] + q)[1..] == q;
      DeflateStep(x, r, Eval(b, x), Eval(b, r), Eval(q, x));
    }
  }

  lemma DeflateStep(x: int, r: int, bx: int, br: int, q: int)
    requires bx == br + (x - r) * q
    ensures x * bx == r * br + (x - r) * (br + x * q)
  {
    calc {
      x * bx;
      x * (br + (x - r) * q);
      x * br + (x - r) * (x * q);
      r * br + (x - r) * br + (x - r) * (x * q);
      r * br + (x - r) * (br + x * q);
    }
  }

  lemma {:induction false} DeflateZero(a: seq<int>, r: int, p: int)
    requires p > 0 && Cong(Eval(a, r), 0, p) && IsZero(Deflate(a, r), p)
    ensures IsZero(a, p)
    decreases |a|
  {
    if |a| == 1 {
      assert Eval(a[1..], r) == 0 && r * 0 == 0;
      forall k: nat ensures Cong(At(a, k), 0, p) { }
    } else if |a| > 1 {
      var b := a[1..];
      var q := Deflate(a, r);
      assert At(q, 0) == Eval(b, r);
      forall k: nat ensures Cong(At(Deflate(b, r), k), 0, p) {
        assert At(Deflate(b, r), k) == At(q, k + 1);
      }
      DeflateZero(b, r, p);
      CongMul(r, r, Eval(b, r), 0, p);
      CongAdd(Eval(a, r), 0, r * Eval(b, r), 0, p);
      assert Cong(a[0], 0, p);
      forall k: nat ensures Cong(At(a, k), 0, p) {
        if k > 0 {
          assert At(a, k) == At(b, k - 1);
        }
      }
    }
  }

  ghost predicate Distinct(xs: seq<int>, p: int)
    requires p > 0
  {
    forall i, j :: 0 <= i < j < |xs| ==> !Cong(xs[i], xs[j], p)
  }

  /** A polynomial with at least as many distinct roots as coefficients is zero. */
  lemma {:induction false} RootCount(a: seq<int>, xs: seq<int>, p: int)
    requires IsPrime(p) && Distinct(xs, p) && |xs| >= |a|
    requires forall i :: 0 <= i < |xs| ==> Cong(Eval(a, xs[i]), 0, p)
    ensures IsZero(a, p)
    decreases |a|
  {
    if a != [] {
      var r, q, ys := xs[0], Deflate(a, xs[0]), xs[1..];
      forall i | 0 <= i < |ys|
        ensures Cong(Eval(q, ys[i]), 0, p)
      {
        var x := ys[i];
        assert x == xs[i + 1];
        DeflateEval(a, r, x);
        CongAdd(Eval(a, x), 0, Eval(a, r), 0, p);
        NoZeroDivisors(x - r, Eval(q, x), p);
        if Cong(x - r, 0, p) {
          CongAdd(x - r, 0, r, r, p);
          assert false;
        }
      }
      RootCount(q, ys, p);
      DeflateZero(a, r, p);
    }
  }

  // ----- uniqueness of division -----

  lemma {:induction false} TopNonzero(a: seq<int>, n: nat, p: int) returns (t: nat)
    requires p > 0 && n <= |a| && !IsZero(a, p)
    requires forall k: nat :: k >= n ==> Cong(At(a, k), 0, p)
    ensures t < |a| && !Cong(a[t], 0, p)
    ensures forall k: nat :: k > t ==> Cong(At(a, k), 0, p)
    decreases n
  {
    if n == 0 {
      assert false;
    } else if Cong(At(a, n - 1), 0, p) {
      t := TopNonzero(a, n - 1, p);
    } else {
      t := n - 1;
    }
  }

  /** a * d + r = 0 with deg r < deg d forces a = 0 and r = 0. */
  lemma DivisionOfZero(a: seq<int>, d: seq<int>, r: seq<int>, p: int)
    requires IsPrime(p) && d != [] && !Cong(d[|d| - 1], 0, p) && |r| < |d|
    requires forall k: nat :: Cong(At(Times(a, d), k) + At(r, k), 0, p)
    ensures IsZero(a, p) && IsZero(r, p)
  {
    if !IsZero(a, p) {
      forall k: nat | k >= |a| ensures Cong(At(a, k), 0, p) { }
      var t := TopNonzero(a, |a|, p);
      TimesTop(a, t, d, p);
      var k := t + |d| - 1;
      assert At(r, k) == 0;
      assert Cong(At(Times(a, d), k) + At(r, k), 0, p);
      NoZeroDivisors(a[t], d[|d| - 1], p);
      assert false;
    }
    forall k: nat ensures Cong(At(r, k), 0, p) {
      TimesZero(a, d, k, p);
      assert Cong(At(Times(a, d), k) + At(r, k), 0, p);
      CongAdd(At(Times(a, d), k) + At(r, k), 0, At(Times(a, d), k), 0, p);
    }
  }

  /** If q * d + r and s * d agree, with deg r < deg d, then q = s and r = 0. */
  lemma DivisionUnique(q: seq<int>, s: seq<int>, d: seq<int>, r: seq<int>, p: int)
    requires IsPrime(p) && d != [] && !Cong(d[|d| - 1], 0, p) && |r| < |d|
    requires forall k: nat :: Cong(At(Times(q, d), k) + At(r, k), At(Times(s, d), k), p)
    ensures Same(q, s, p) && IsZero(r, p)
  {
    var m := Scaled(-1, s);
    var a := Plus(q, m);
    forall k: nat ensures Cong(At(Times(a, d), k) + At(r, k), 0, p) {
      TimesPlusLeft(q, m, d, k);
      TimesScaledLeft(-1, s, d, k);
      var u, v := At(Times(q, d), k) + At(r, k), At(Times(s, d), k);
      assert Cong(u, v, p);
      CongAdd(u, v, v, v, p);
    }
    DivisionOfZero(a, d, r, p);
    forall k: nat ensures Cong(At(q, k), At(s, k), p) {
      assert Cong(At(a, k), 0, p);
      assert At(a, k) == At(q, k) + At(m, k) && At(m, k) == -At(s, k);
      CongAdd(At(a, k), 0, At(s, k), At(s, k), p);
    }
  }

  // ----- the monic polynomial with given roots -----

  ghost function Locator(roots: seq<int>): seq<int> {
    if roots == [] then [1] else Times([-roots[0], 1], Locator(roots[1..]))
  }

  lemma {:induction false} LocatorMonic(roots: seq<int>)
    ensures var l := Locator(roots); |l| == |roots| + 1 && l[|roots|] == 1
  {
    if roots != [] {
      var f, b := [-roots[0], 1], Locator(roots[1..]);
      LocatorMonic(roots[1..]);
      TimesLength(f, b);
      var k := |b|;
      TimesCoefficient(f, b, k);
      assert f[1..] == [1];
      TimesCoefficient([1], b, k - 1);
      assert [1][1..] == [];
      assert At(b, k) == 0 && (-roots[0]) * 0 == 0;
      assert At(Times(f, b), k) == At(b, k - 1);
    }
  }

  lemma {:induction false} LocatorRoots(roots: seq<int>, x: int)
    requires x in roots
    ensures Eval(Locator(roots), x) == 0
  {
    var r, b := roots[0], Locator(roots[1..]);
    EvalTimes([-r, 1], b, x);
    assert [-r, 1][1..] == [1] && [1][1..] == [];
    assert Eval([1], x) == 1 by { assert x * 0 == 0; }
    assert Eval([-r, 1], x) == x - r;
    if x != r {
      LocatorRoots(roots[1..], x);
      assert (x - r) * 0 == 0;
    } else {
      assert 0 * Eval(b, x) == 0;
    }
  }
}
