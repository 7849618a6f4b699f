/** Arithmetic modulo a positive integer, and what the field operations of Zp rely on.

    Congruence is stated through `Residue`, which is defined without `%`: every proof
    above this module then works with linear facts and with the lemmas below. */
module Residues {

  /** The representative of `n` modulo `p` in [0, p). */
  ghost function Residue(n: int, p: int): (r: int)
    requires p > 0
    ensures 0 <= r < p
    decreases if n < 0 then p - n else n
  {
    if n < 0 then Residue(n + p, p)
    else if n < p then n
    else Residue(n - p, p)
  }

  ghost predicate Cong(a: int, b: int, p: int)
    requires p > 0
  {
    Residue(a, p) == Residue(b, p)
  }

  /** C#'s remainder and quotient, which truncate toward zero. */
  function Rem(n: int, d: int): int
    requires d != 0
  {
    if n >= 0 then n % d else -((-n) % d)
  }

  function Quot(n: int, d: int): int
    requires d != 0
  {
    if n >= 0 then n / d else -((-n) / d)
  }

  lemma QuotRem(n: int, d: int)
    requires d != 0
    ensures n == Quot(n, d) * d + Rem(n, d)
    ensures d > 0 ==> -d < Rem(n, d) < d
    ensures d < 0 ==> d < Rem(n, d) < -d
    ensures n >= 0 ==> Rem(n, d) >= 0
    ensures n >= 0 && d > 0 ==> Quot(n, d) >= 0
  {
    var m := if n >= 0 then n else -n;
    var q, r := m / d, m % d;
    assert m == q * d + r;
    NegateProduct(q, d);
    if d > 0 && q < 0 {
      NegativeProduct(q, d);
      assert false;
    }
  }

  lemma NegateProduct(a: int, b: int)
    ensures (-a) * b == -(a * b)
  {
  }

  lemma NegativeProduct(a: int, b: int)
    requires a <= -1 && b > 0
    ensures a * b <= -b
  {
    assert (a + 1) * b == a * b + b;
    assert (-(a + 1)) * b >= 0;
  }

  lemma {:induction false} ResidueShift(n: int, k: int, p: int)
    requires p > 0
    ensures Residue(n + k * p, p) == Residue(n, p)
    decreases if k < 0 then -k else k
  {
    if k > 0 {
      var m := n + (k - 1) * p;
      assert n + k * p == m + p by {
        assert k * p == (k - 1) * p + p;
      }
      ResidueShift(n, k - 1, p);
      ResidueStep(m, p);
    } else if k < 0 {
      var m := n + k * p;
      assert n + (k + 1) * p == m + p by {
        assert (k + 1) * p == k * p + p;
      }
      ResidueShift(n, k + 1, p);
      ResidueStep(m, p);
    }
  }

  lemma {:induction false} ResidueStep(n: int, p: int)
    requires p > 0
    ensures Residue(n + p, p) == Residue(n, p)
  {
  }

  lemma {:induction false} ResidueWitness(n: int, p: int) returns (k: int)
    requires p > 0
    ensures n == Residue(n, p) + k * p
    decreases if n < 0 then p - n else n
  {
    if n < 0 {
      k := ResidueWitness(n + p, p);
      assert (k - 1) * p == k * p - p;
      k := k - 1;
    } else if n >= p {
      k := ResidueWitness(n - p, p);
      assert (k + 1) * p == k * p + p;
      k := k + 1;
    } else {
      k := 0;
    }
  }

  lemma ResidueOf(n: int, r: int, k: int, p: int)
    requires p > 0 && 0 <= r < p && n == r + k * p
    ensures Residue(n, p) == r
  {
    ResidueShift(r, k, p);
  }

  lemma CongWitness(a: int, b: int, p: int) returns (k: int)
    requires p > 0 && Cong(a, b, p)
    ensures a - b == k * p
  {
    var i := ResidueWitness(a, p);
    var j := ResidueWitness(b, p);
    assert i * p - j * p == (i - j) * p;
    k := i - j;
  }

  lemma CongIntro(a: int, b: int, k: int, p: int)
    requires p > 0 && a - b == k * p
    ensures Cong(a, b, p)
  {
    ResidueShift(b, k, p);
  }

  lemma CongAdd(a: int, b: int, c: int, d: int, p: int)
    requires p > 0 && Cong(a, b, p) && Cong(c, d, p)
    ensures Cong(a + c, b + d, p)
    ensures Cong(a - c, b - d, p)
  {
    var i := CongWitness(a, b, p);
    var j := CongWitness(c, d, p);
    assert (i + j) * p == i * p + j * p;
    assert (i - j) * p == i * p - j * p;
    CongIntro(a + c, b + d, i + j, p);
    CongIntro(a - c, b - d, i - j, p);
  }

  lemma CongMul(a: int, b: int, c: int, d: int, p: int)
    requires p > 0 && Cong(a, b, p) && Cong(c, d, p)
    ensures Cong(a * c, b * d, p)
  {
    var i := CongWitness(a, b, p);
    var j := CongWitness(c, d, p);
    MulWitness(a, b, i, c, d, j, p);
    CongIntro(a * c, b * d, i * c + b * j, p);
  }

  lemma MulWitness(a: int, b: int, i: int, c: int, d: int, j: int, p: int)
    requires a - b == i * p && c - d == j * p
    ensures a * c - b * d == (i * c + b * j) * p
  {
    calc {
      a * c - b * d;
      (a - b) * c + b * (c - d);
      (i * p) * c + b * (j * p);
      (i * c + b * j) * p;
    }
  }

  lemma CongResidue(n: int, p: int)
    requires p > 0
    ensures Cong(Residue(n, p), n, p)
  {
  }

  lemma CongSmall(a: int, b: int, p: int)
    requires p > 0 && 0 <= a < p && 0 <= b < p && Cong(a, b, p)
    ensures a == b
  {
  }

  /** `d` divides `n`. */
  ghost predicate Divides(d: int, n: int) {
    exists k :: Product(k, d) == n
  }

  ghost function Product(k: int, d: int): int { k * d }

  ghost predicate IsPrime(p: int) {
    p >= 2 && forall d :: 1 < d < p ==> !Divides(d, p)
  }

  lemma DividesIffCongZero(n: int, p: int)
    requires p > 0
    ensures Divides(p, n) <==> Cong(n, 0, p)
  {
    if Cong(n, 0, p) {
      var k := CongWitness(n, 0, p);
      assert Product(k, p) == n;
    }
    if Divides(p, n) {
      var k :| Product(k, p) == n;
      CongIntro(n, 0, k, p);
    }
  }
}
