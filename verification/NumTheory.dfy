/** NumTheoryUtils.cs. */
module NumTheory {
  // The parts that the decoder and the matrix code call, and Zp.Modulo.

  import opened Residues

  /** The range of C#'s 32-bit int. */
  const MAX32 := 0x7FFF_FFFF

  predicate Fits32(n: int) { -MAX32 - 1 <= n <= MAX32 }

  /** Up to p = 46341 the widest intermediate value of the field code, a residue plus or
      minus a product of two residues, is a 32-bit int. */
  lemma ProductFits32(s: int, a: int, b: int, p: int)
    requires 0 <= s < p && 0 <= a < p && 0 <= b < p
    ensures p <= 46341 ==> Fits32(s + a * b) && Fits32(s - a * b) && Fits32(a * b)
  {
    if p <= 46341 {
      ProductBound(a, b, 46340);
    }
  }

  lemma ProductBound(a: int, b: int, m: int)
    requires 0 <= a <= m && 0 <= b <= m
    ensures 0 <= a * b <= m * m
  {
    assert (m - a) * b >= 0;
    assert m * (m - b) >= 0;
  }

  method Modulo(n: int, prime: int) returns (r: int)
    requires prime > 0
    ensures r == Residue(n, prime)
    ensures 0 <= r < prime
  {
    QuotRem(n, prime);
    r := Rem(n, prime);
    if r < 0 {
      r := r + prime;
      assert n == (Quot(n, prime) - 1) * prime + r;
      ResidueOf(n, r, Quot(n, prime) - 1, prime);
    } else {
      ResidueOf(n, r, Quot(n, prime), prime);
    }
  }

  /** The value returned by ExtendedEuclidean together with its two out parameters. */
  datatype Bezout = Bezout(g: int, x: int, y: int)

  function Abs(n: int): nat { if n < 0 then -n else n }

  function ExtendedEuclidean(a: int, b: int): Bezout
    decreases Abs(b)
  {
    if b == 0 then Bezout(a, 1, 0)
    else
      QuotRem(a, b);
      var s := ExtendedEuclidean(b, Rem(a, b));
      Bezout(s.g, s.y, s.x - Quot(a, b) * s.y)
  }

  /** Bezout's identity, for operands of either sign. */
  lemma {:induction false} BezoutIdentity(a: int, b: int)
    ensures var r := ExtendedEuclidean(a, b); a * r.x + b * r.y == r.g
    ensures var r := ExtendedEuclidean(a, b); Divides(r.g, a) && Divides(r.g, b)
    decreases Abs(b)
  {
    if b == 0 {
      assert Product(1, a) == a && Product(0, a) == b;
    } else {
      QuotRem(a, b);
      BezoutIdentity(b, Rem(a, b));
      BezoutStep(a, b, Quot(a, b), Rem(a, b), ExtendedEuclidean(b, Rem(a, b)));
    }
  }

  lemma BezoutStep(a: int, b: int, q: int, m: int, s: Bezout)
    requires a == q * b + m && b * s.x + m * s.y == s.g
    requires Divides(s.g, b) && Divides(s.g, m)
    ensures a * s.y + b * (s.x - q * s.y) == s.g
    ensures Divides(s.g, a)
  {
    calc {
      a * s.y + b * (s.x - q * s.y);
      (q * b + m) * s.y + b * s.x - b * (q * s.y);
      q * b * s.y + m * s.y + b * s.x - b * q * s.y;
      s.g;
    }
    DividesCombination(s.g, b, m, q, 1);
    assert b * q + m * 1 == a;
  }

  /** A common divisor divides every integer combination. */
  lemma DividesCombination(d: int, a: int, b: int, x: int, y: int)
    requires Divides(d, a) && Divides(d, b)
    ensures Divides(d, a * x + b * y)
  {
    var i :| Product(i, d) == a;
    var j :| Product(j, d) == b;
    calc {
      Product(i * x + j * y, d);
      (i * x) * d + (j * y) * d;
      (i * d) * x + (j * d) * y;
      a * x + b * y;
    }
  }

  /** For operands that are not negative, g is positive and the coefficients are no larger
      than the cofactors: |x| * g <= b and |y| * g <= a unless a < g. */
  lemma {:induction false} BezoutBounds(a: int, b: int)
    requires a >= 0 && b > 0
    ensures var r := ExtendedEuclidean(a, b);
      0 < r.g <= b && Abs(r.x) * r.g <= b && Abs(r.y) * r.g <= (if a < r.g then r.g else a)
    decreases b
  {
    var r := ExtendedEuclidean(a, b);
    QuotRem(a, b);
    var q, m := Quot(a, b), Rem(a, b);
    if m == 0 {
      assert ExtendedEuclidean(b, 0) == Bezout(b, 1, 0);
      assert q * 0 == 0;
    } else {
      var s := ExtendedEuclidean(b, m);
      BezoutBounds(b, m);
      BoundStep(a, b, q, m, s.x, s.y, s.g);
    }
  }

  lemma BoundStep(a: int, b: int, q: int, m: int, x: int, y: int, g: int)
    requires a == q * b + m && q >= 0 && g > 0
    requires Abs(x) * g <= m && Abs(y) * g <= b
    ensures Abs(x - q * y) * g <= a
  {
    ScaleAbs(q, y);
    assert Abs(x - q * y) <= Abs(x) + q * Abs(y);
    MulLe(Abs(x - q * y), Abs(x) + q * Abs(y), g);
    assert (Abs(x) + q * Abs(y)) * g == Abs(x) * g + (q * Abs(y)) * g;
    assert (q * Abs(y)) * g == (Abs(y) * g) * q;
    MulLe(Abs(y) * g, b, q);
  }

  lemma MulLe(a: int, b: int, c: int)
    requires a <= b && c >= 0
    ensures a * c <= b * c
  {
    assert (b - a) * c >= 0;
  }

  lemma ScaleAbs(q: int, y: int)
    requires q >= 0
    ensures Abs(q * y) == q * Abs(y)
  {
    if y >= 0 {
      assert q * y >= 0;
    } else {
      assert q * (-y) >= 0;
    }
  }

  /** g is the greatest common divisor: every common divisor of a and b divides it. */
  lemma GreatestDivisor(a: int, b: int, d: int)
    requires Divides(d, a) && Divides(d, b)
    ensures Divides(d, ExtendedEuclidean(a, b).g)
  {
    var r := ExtendedEuclidean(a, b);
    BezoutIdentity(a, b);
    DividesCombination(d, a, b, r.x, r.y);
  }

  function MultiplicativeInverse(a: int, m: int): int {
    var x := ExtendedEuclidean(a, m).x;
    if x < 0 then x + m else x
  }

  /** The inverse lies in [0, m) and inverts, whenever a and m are coprime. */
  lemma InverseOfCoprime(a: int, m: int)
    requires a >= 0 && m >= 2 && ExtendedEuclidean(a, m).g == 1
    ensures 0 <= MultiplicativeInverse(a, m) < m
    ensures Cong(a * MultiplicativeInverse(a, m), 1, m)
  {
    var r := ExtendedEuclidean(a, m);
    BezoutIdentity(a, m);
    BezoutBounds(a, m);
    assert -m <= r.x <= m;
    CoefficientInverts(a, m, r.x, r.y);
    if r.x == m {
      CongIntro(a * r.x, 0, a, m);
      assert false;
    }
  }

  lemma CoefficientInverts(a: int, m: int, x: int, y: int)
    requires m >= 2 && a * x + m * y == 1
    ensures Cong(a * x, 1, m) && Cong(a * (x + m), 1, m) && !Cong(a * x, 0, m)
  {
    assert a * x - 1 == (-y) * m;
    CongIntro(a * x, 1, -y, m);
    assert a * (x + m) - a * x == a * m;
    CongIntro(a * (x + m), a * x, a, m);
  }

  /** Modulo a prime, every nonzero residue is coprime to the modulus. */
  lemma FieldInverse(a: int, p: int)
    requires IsPrime(p) && 0 < a < p
    ensures 0 < MultiplicativeInverse(a, p) < p
    ensures Cong(a * MultiplicativeInverse(a, p), 1, p)
  {
    var g := ExtendedEuclidean(a, p).g;
    BezoutIdentity(a, p);
    BezoutBounds(a, p);
    DivisorAtMost(g, a);
    InverseOfCoprime(a, p);
    var v := MultiplicativeInverse(a, p);
    if v == 0 {
      assert false;
    }
  }

  lemma DivisorAtMost(d: int, n: int)
    requires d > 0 && n > 0 && Divides(d, n)
    ensures d <= n
  {
    var i :| Product(i, d) == n;
    if i <= 0 {
      MulLe(i, 0, d);
      assert false;
    }
    MulLe(1, i, d);
  }

  lemma InverseOfOne(p: int)
    requires IsPrime(p)
    ensures MultiplicativeInverse(1, p) == 1
  {
    FieldInverse(1, p);
    CongSmall(MultiplicativeInverse(1, p), 1, p);
  }

  /** A field has no zero divisors. */
  lemma NoZeroDivisors(a: int, b: int, p: int)
    requires IsPrime(p) && Cong(a * b, 0, p)
    ensures Cong(a, 0, p) || Cong(b, 0, p)
  {
    var r := Residue(a, p);
    if r != 0 {
      var v := MultiplicativeInverse(r, p);
      FieldInverse(r, p);
      CongMul(a, r, v, v, p);
      CongMul(a * v, 1, b, b, p);
      CongMul(a * b, 0, v, v, p);
      Reorder(a, v, b);
    }
  }

  lemma Reorder(a: int, b: int, c: int)
    ensures (a * b) * c == (a * c) * b
  {
  }

  method GetFieldInverse(prime: int) returns (inv: seq<int>)
    requires prime > 0
    ensures |inv| == prime
    ensures forall i :: 0 <= i < prime ==> inv[i] == MultiplicativeInverse(i, prime)
  {
    var invArr := new int[prime];
    for i := 0 to prime
      invariant forall k :: 0 <= k < i ==> invArr[k] == MultiplicativeInverse(k, prime)
    {
      var x := ExtendedEuclidean(i, prime).x;
      invArr[i] := if x < 0 then x + prime else x;
    }
    inv := invArr[..];
  }

  /** x to the power e; 1 for e <= 0. */
  ghost function Pow(x: int, e: int): int {
    if e <= 0 then 1 else x * Pow(x, e - 1)
  }

  method ModPow(powerBase: int, exp: nat, prime: int) returns (p: int)
    requires prime >= 2
    ensures p == Residue(Pow(powerBase, exp), prime)
  {
    p := 1;
    for i := 0 to exp
      invariant p == Residue(Pow(powerBase, i), prime)
    {
      if 0 <= powerBase < prime {
        ProductFits32(0, powerBase, p, prime);
      }
      assert 0 <= powerBase < prime <= 46341 ==> Fits32(powerBase * p);
      CongMul(powerBase, powerBase, p, Pow(powerBase, i), prime);
      p := Modulo(powerBase * p, prime);
    }
  }
}
