/** FheWrapper.cpp. */
module Crt {
  // An integer is split into its residues modulo ten coprime numbers, and the
  // Chinese remainder theorem puts it together again.

  import opened Residues
  import opened NumTheory

  const MODS: seq<int> := [11, 13, 17, 19, 23, 25, 27, 28, 29, 31]

  /** The product of the ten moduli: integers below it can be represented. */
  const RANGE := 18050444111700

  predicate Fits64(n: int) { -0x8000_0000_0000_0000 <= n <= 0x7FFF_FFFF_FFFF_FFFF }

  function Prod(ms: seq<int>): int {
    if ms == [] then 1 else ms[0] * Prod(ms[1..])
  }

  function Without(ms: seq<int>, i: nat): seq<int>
    requires i < |ms|
  {
    ms[..i] + ms[i + 1..]
  }

  ghost predicate Coprime(a: int, b: int) {
    ExtendedEuclidean(a, b).g == 1
  }

  ghost predicate Moduli(ms: seq<int>) {
    && (forall i :: 0 <= i < |ms| ==> ms[i] >= 2)
    && (forall i, j :: 0 <= i < |ms| && 0 <= j < |ms| && i != j ==> Coprime(ms[i], ms[j]))
  }

  lemma {:induction false} ProdSplit(ms: seq<int>, i: nat)
    requires i < |ms|
    ensures Prod(ms) == ms[i] * Prod(Without(ms, i))
    decreases |ms|
  {
    if i == 0 {
      assert Without(ms, 0) == ms[1..];
    } else {
      var w := Without(ms, i);
      assert w[0] == ms[0] && w[1..] == Without(ms[1..], i - 1);
      ProdSplit(ms[1..], i - 1);
      Exchange(ms[0], ms[i], Prod(w[1..]));
    }
  }

  lemma Exchange(a: int, b: int, c: int)
    ensures a * (b * c) == b * (a * c)
  {
  }

  lemma {:induction false} ProdPositive(ms: seq<int>)
    requires forall i :: 0 <= i < |ms| ==> ms[i] >= 1
    ensures Prod(ms) >= 1
  {
    if ms != [] {
      ProdPositive(ms[1..]);
      MulLe(1, ms[0], Prod(ms[1..]));
    }
  }

  lemma ProdDivides(ms: seq<int>, j: nat)
    requires j < |ms|
    ensures Divides(ms[j], Prod(ms))
  {
    ProdSplit(ms, j);
    assert Product(Prod(Without(ms, j)), ms[j]) == Prod(ms);
  }

  /** A combination a * u + c * v = 1 is what being coprime means. */
  lemma CoprimeIff(a: int, c: int, u: int, v: int)
    requires a >= 0 && c >= 1 && a * u + c * v == 1
    ensures Coprime(a, c)
  {
    var g := ExtendedEuclidean(a, c).g;
    BezoutIdentity(a, c);
    BezoutBounds(a, c);
    DividesCombination(g, a, c, u, v);
    DivisorAtMost(g, 1);
  }

  lemma CoprimeTimes(a: int, b: int, c: int)
    requires a >= 0 && b >= 0 && c >= 1 && Coprime(a, c) && Coprime(b, c)
    ensures Coprime(a * b, c)
  {
    var r, s := ExtendedEuclidean(a, c), ExtendedEuclidean(b, c);
    BezoutIdentity(a, c);
    BezoutIdentity(b, c);
    assert a * b >= 0;
    MultiplyCombinations(a, b, c, r.x, r.y, s.x, s.y);
    CoprimeIff(a * b, c, r.x * s.x, r.y + s.y * (1 - c * r.y));
  }

  lemma MultiplyCombinations(a: int, b: int, c: int, u: int, v: int, s: int, t: int)
    requires a * u + c * v == 1 && b * s + c * t == 1
    ensures (a * b) * (u * s) + c * (v + t * (1 - c * v)) == 1
  {
    calc {
      (a * b) * (u * s);
      (a * u) * (b * s);
      (1 - c * v) * (1 - c * t);
      1 - c * v - (c * t) * (1 - c * v);
      1 - c * v - c * (t * (1 - c * v));
      1 - c * (v + t * (1 - c * v));
    }
  }

  lemma {:induction false} ProdCoprime(ms: seq<int>, c: int)
    requires c >= 1 && forall i :: 0 <= i < |ms| ==> ms[i] >= 1 && Coprime(ms[i], c)
    ensures Coprime(Prod(ms), c)
  {
    if ms == [] {
      CoprimeIff(1, c, 1, 0);
    } else {
      ProdPositive(ms[1..]);
      ProdCoprime(ms[1..], c);
      CoprimeTimes(ms[0], Prod(ms[1..]), c);
    }
  }

  /** The cofactor of modulus i is coprime to it, and 0 modulo every other modulus. */
  lemma Cofactor(ms: seq<int>, i: nat)
    requires Moduli(ms) && i < |ms|
    ensures Coprime(Prod(Without(ms, i)), ms[i]) && Prod(Without(ms, i)) >= 1
    ensures forall j :: 0 <= j < |ms| && j != i ==> Cong(Prod(Without(ms, i)), 0, ms[j])
  {
    var w := Without(ms, i);
    forall k | 0 <= k < |w| ensures w[k] >= 1 && Coprime(w[k], ms[i]) {
      assert w[k] == ms[if k < i then k else k + 1];
    }
    ProdCoprime(w, ms[i]);
    ProdPositive(w);
    forall j | 0 <= j < |ms| && j != i ensures Cong(Prod(w), 0, ms[j]) {
      var k := if j < i then j else j - 1;
      assert w[k] == ms[j];
      ProdDivides(w, k);
      DividesIffCongZero(Prod(w), ms[j]);
    }
  }

  /** Numbers that agree modulo every modulus agree modulo the product. */
  lemma {:induction false} AgreeModProduct(ms: seq<int>, d: int)
    requires Moduli(ms) && forall i :: 0 <= i < |ms| ==> Divides(ms[i], d)
    ensures Divides(Prod(ms), d)
  {
    if ms == [] {
      assert Product(d, 1) == d;
    } else {
      var rest := ms[1..];
      forall i | 0 <= i < |rest| ensures rest[i] >= 1 && Coprime(rest[i], ms[0]) && Divides(rest[i], d) {
        assert rest[i] == ms[i + 1];
      }
      assert Moduli(rest) by {
        forall i, j | 0 <= i < |rest| && 0 <= j < |rest| && i != j ensures Coprime(rest[i], rest[j]) {
          assert rest[i] == ms[i + 1] && rest[j] == ms[j + 1];
        }
      }
      AgreeModProduct(rest, d);
      ProdCoprime(rest, ms[0]);
      BezoutIdentity(Prod(rest), ms[0]);
      CoprimeDivisors(Prod(rest), ms[0], d, ExtendedEuclidean(Prod(rest), ms[0]));
    }
  }

  lemma CoprimeDivisors(a: int, b: int, d: int, r: Bezout)
    requires Divides(a, d) && Divides(b, d) && a * r.x + b * r.y == 1
    ensures Divides(b * a, d)
  {
    var i :| Product(i, a) == d;
    var j :| Product(j, b) == d;
    CombineDivisors(a, b, d, i, j, r.x, r.y);
    assert Product(j * r.x + i * r.y, b * a) == d;
  }

  lemma CombineDivisors(a: int, b: int, d: int, i: int, j: int, x: int, y: int)
    requires i * a == d && j * b == d && a * x + b * y == 1
    ensures (j * x + i * y) * (b * a) == d
  {
    calc {
      (j * x + i * y) * (b * a);
      (j * b) * (a * x) + (i * a) * (b * y);
      d * (a * x) + d * (b * y);
      d * (a * x + b * y);
      d;
    }
  }

  // ----- the code -----

  method FindMods(x: int, ms: seq<int>) returns (v: seq<int>)
    requires x >= 0 && forall i :: 0 <= i < |ms| ==> ms[i] >= 2
    ensures |v| == |ms| && forall i :: 0 <= i < |ms| ==> v[i] == Residue(x, ms[i])
  {
    v := [];
    for i := 0 to |ms|
      invariant |v| == i && forall k :: 0 <= k < i ==> v[k] == Residue(x, ms[k])
    {
      var r := Modulo(x, ms[i]);
      v := v + [r];
    }
  }

  /** What the accumulator owes: v[j] modulo the moduli already done, 0 modulo the others. */
  ghost predicate Accumulated(x: int, v: seq<int>, ms: seq<int>, i: nat)
    requires |v| == |ms| && forall j :: 0 <= j < |ms| ==> ms[j] >= 2
  {
    forall j :: 0 <= j < |ms| ==> Cong(x, if j < i then v[j] else 0, ms[j])
  }

  lemma AccumulateStep(x: int, v: seq<int>, ms: seq<int>, i: nat, M: int, y: int)
    requires Moduli(ms) && |v| == |ms| && i < |ms| && Accumulated(x, v, ms, i)
    requires M == Prod(Without(ms, i)) && y == MultiplicativeInverse(M, ms[i])
    ensures Accumulated(x + v[i] * M * y, v, ms, i + 1)
  {
    hide Residue, Moduli, Prod, MultiplicativeInverse;
    ModuliFacts(ms);
    Cofactor(ms, i);
    InverseOfCoprime(M, ms[i]);
    forall j | 0 <= j < |ms| ensures Cong(x + v[i] * M * y, if j < i + 1 then v[j] else 0, ms[j]) {
      assert Cong(x, if j < i then v[j] else 0, ms[j]);
      if j == i {
        OwnSummand(x, v[i], M, y, ms[i]);
      } else {
        OtherSummand(x, if j < i then v[j] else 0, v[i], M, y, ms[j]);
      }
    }
  }

  lemma OwnSummand(x: int, v: int, M: int, y: int, m: int)
    requires m > 0 && Cong(x, 0, m) && Cong(M * y, 1, m)
    ensures Cong(x + v * M * y, v, m)
  {
    hide Residue;
    CongMul(v, v, M * y, 1, m);
    assert v * M * y == v * (M * y);
    CongAdd(x, 0, v * (M * y), v * 1, m);
  }

  lemma OtherSummand(x: int, w: int, v: int, M: int, y: int, m: int)
    requires m > 0 && Cong(x, w, m) && Cong(M, 0, m)
    ensures Cong(x + v * M * y, w, m)
  {
    hide Residue;
    CongMul(M, 0, v * y, v * y, m);
    assert v * M * y == M * (v * y);
    CongAdd(x, w, M * (v * y), 0, m);
  }

  /** With the ten moduli and reduced residues, one summand stays below 31 * 31 / 11 times the range. */
  lemma SummandFits(ms: seq<int>, i: nat, v: int, M: int, y: int)
    requires ms == MODS && i < |ms| && M * ms[i] == RANGE && 0 <= v < ms[i] && 0 <= y < ms[i] && M >= 1
    ensures 0 <= v * M * y <= 31 * RANGE
  {
    assert v * M >= 0;
    MulLe(v, ms[i], M);
    assert v * M <= RANGE by { assert ms[i] * M == M * ms[i]; }
    MulLe(v * M, RANGE, y);
    assert 0 <= (v * M) * y;
  }

  method SolveCrt(v: seq<int>, ms: seq<int>) returns (r: int)
    requires Moduli(ms) && |v| == |ms| && forall i :: 0 <= i < |v| ==> 0 <= v[i] < ms[i]
    ensures 0 <= r < Prod(ms)
    ensures forall i :: 0 <= i < |ms| ==> Cong(r, v[i], ms[i])
  {
    hide Residue, Moduli, Prod, Accumulated;
    var m := ProductOf(ms);
    ModuliFacts(ms);
    ProdPositive(ms);
    NothingAccumulated(v, ms);
    var x := 0;
    for i := 0 to |ms|
      invariant x >= 0 && Accumulated(x, v, ms, i)
      invariant ms == MODS ==> x <= i * (31 * RANGE)
    {
      x := AddSummand(x, v, ms, i, m);
    }
    r := x % m;
    ReduceProduct(x, m, r, v, ms);
  }

  method ProductOf(ms: seq<int>) returns (m: int)
    ensures m == Prod(ms)
  {
    m := 1;
    for i := 0 to |ms|
      invariant m == Prod(ms[..i])
    {
      ProdAppend(ms[..i], ms[i]);
      assert ms[..i + 1] == ms[..i] + [ms[i]];
      m := m * ms[i];
    }
    assert ms[..|ms|] == ms;
  }

  lemma NothingAccumulated(v: seq<int>, ms: seq<int>)
    requires Moduli(ms) && |v| == |ms| && forall i :: 0 <= i < |ms| ==> ms[i] >= 2
    ensures Accumulated(0, v, ms, 0)
  {
  }

  /** One round of the accumulation, with its 64-bit bounds for the ten moduli. */
  method AddSummand(x: int, v: seq<int>, ms: seq<int>, i: nat, m: int) returns (next: int)
    requires Moduli(ms) && |v| == |ms| && (forall j :: 0 <= j < |v| ==> 0 <= v[j] < ms[j])
    requires i < |ms| && m == Prod(ms) && x >= 0 && Accumulated(x, v, ms, i)
    requires ms == MODS ==> x <= i * (31 * RANGE)
    ensures next >= 0 && Accumulated(next, v, ms, i + 1)
    ensures ms == MODS ==> next <= (i + 1) * (31 * RANGE)
  {
    hide Residue, Moduli, Accumulated;
    ModuliFacts(ms);
    ProdSplit(ms, i);
    Cofactor(ms, i);
    ExactQuotient(m, ms[i], Prod(Without(ms, i)));
    var M := m / ms[i];
    InverseOfCoprime(M, ms[i]);
    var y := MultiplicativeInverse(M, ms[i]);
    AccumulateStep(x, v, ms, i, M, y);
    SummandNonNegative(v[i], M, y);
    if ms == MODS {
      RangeIsProduct();
      SummandFits(ms, i, v[i], M, y);
    }
    assert ms == MODS ==> Fits64(v[i] * M * y) && Fits64(x + v[i] * M * y);
    next := x + v[i] * M * y;
  }

  lemma ModuliFacts(ms: seq<int>)
    requires Moduli(ms)
    ensures forall i :: 0 <= i < |ms| ==> ms[i] >= 2
  {
  }

  lemma SummandNonNegative(v: int, M: int, y: int)
    requires v >= 0 && M >= 0 && y >= 0
    ensures v * M * y >= 0
  {
    assert v * M >= 0;
  }

  lemma {:induction false} ProdAppend(ms: seq<int>, c: int)
    ensures Prod(ms + [c]) == Prod(ms) * c
  {
    if ms == [] {
      assert [c][1..] == [];
    } else {
      assert (ms + [c])[1..] == ms[1..] + [c];
      ProdAppend(ms[1..], c);
      assert ms[0] * (Prod(ms[1..]) * c) == (ms[0] * Prod(ms[1..])) * c;
    }
  }

  lemma ExactQuotient(m: int, d: int, q: int)
    requires d > 0 && m == d * q
    ensures m / d == q && q * d == m
  {
    var s := m / d - q;
    assert m == d * (m / d) + m % d;
    assert d * s == -(m % d) by { assert d * (m / d - q) == d * (m / d) - d * q; }
    if s >= 1 {
      MulLe(1, s, d);
    } else if s <= -1 {
      MulLe(s, -1, d);
    }
  }

  lemma ReduceProduct(x: int, m: int, r: int, v: seq<int>, ms: seq<int>)
    requires Moduli(ms) && |v| == |ms| && m == Prod(ms) >= 1 && r == x % m && Accumulated(x, v, ms, |ms|)
    ensures forall i :: 0 <= i < |ms| ==> Cong(r, v[i], ms[i])
  {
    hide Residue, Moduli, Prod;
    ModuliFacts(ms);
    forall i | 0 <= i < |ms| ensures Cong(r, v[i], ms[i]) {
      ProdSplit(ms, i);
      RemainderAgrees(x, m, ms[i], Prod(Without(ms, i)));
      assert Cong(x, v[i], ms[i]);
    }
  }

  lemma RemainderAgrees(x: int, m: int, d: int, w: int)
    requires m >= 1 && d > 0 && m == d * w
    ensures Cong(x, x % m, d)
  {
    hide Residue;
    var q := x / m;
    assert x == m * q + x % m;
    assert (d * w) * q == (w * q) * d;
    CongIntro(x, x % m, w * q, d);
  }

  lemma RangeIsProduct()
    ensures Prod(MODS) == RANGE
  {
    assert Prod([28, 29, 31]) == 25172;
    assert Prod([25, 27, 28, 29, 31]) == 16991100;
    assert Prod([19, 23, 25, 27, 28, 29, 31]) == 7425110700;
  }

  lemma CoprimeSymmetric(a: int, b: int)
    requires a >= 1 && b >= 1 && Coprime(a, b)
    ensures Coprime(b, a)
  {
    var r := ExtendedEuclidean(a, b);
    BezoutIdentity(a, b);
    CoprimeIff(b, a, r.y, r.x);
  }

  lemma TenModuli()
    ensures Moduli(MODS)
  {
    forall i, j | 0 <= i < 10 && 0 <= j < 10 && i != j
      ensures Coprime(MODS[i], MODS[j])
    {
      TenPairs(if i < j then i else j);
      if j < i {
        CoprimeSymmetric(MODS[j], MODS[i]);
      }
    }
  }

  /** Bezout coefficients for each modulus and the larger ones. */
  lemma TenPairs(i: nat)
    requires i < 10
    ensures forall j :: i < j < 10 ==> Coprime(MODS[i], MODS[j])
  {
    hide Coprime;
    match i {
      case 0 =>
        CoprimeIff(11, 13, 6, -5);
        CoprimeIff(11, 17, -3, 2);
        CoprimeIff(11, 19, 7, -4);
        CoprimeIff(11, 23, -2, 1);
        CoprimeIff(11, 25, -9, 4);
        CoprimeIff(11, 27, 5, -2);
        CoprimeIff(11, 28, -5, 2);
        CoprimeIff(11, 29, 8, -3);
        CoprimeIff(11, 31, -14, 5);
      case 1 =>
        CoprimeIff(13, 17, 4, -3);
        CoprimeIff(13, 19, 3, -2);
        CoprimeIff(13, 23, -7, 4);
        CoprimeIff(13, 25, 2, -1);
        CoprimeIff(13, 27, -2, 1);
        CoprimeIff(13, 28, 13, -6);
        CoprimeIff(13, 29, 9, -4);
        CoprimeIff(13, 31, 12, -5);
      case 2 =>
        CoprimeIff(17, 19, 9, -8);
        CoprimeIff(17, 23, -4, 3);
        CoprimeIff(17, 25, 3, -2);
        CoprimeIff(17, 27, 8, -5);
        CoprimeIff(17, 28, 5, -3);
        CoprimeIff(17, 29, 12, -7);
        CoprimeIff(17, 31, 11, -6);
      case 3 =>
        CoprimeIff(19, 23, -6, 5);
        CoprimeIff(19, 25, 4, -3);
        CoprimeIff(19, 27, 10, -7);
        CoprimeIff(19, 28, 3, -2);
        CoprimeIff(19, 29, -3, 2);
        CoprimeIff(19, 31, -13, 8);
      case 4 =>
        CoprimeIff(23, 25, 12, -11);
        CoprimeIff(23, 27, -7, 6);
        CoprimeIff(23, 28, 11, -9);
        CoprimeIff(23, 29, -5, 4);
        CoprimeIff(23, 31, -4, 3);
      case 5 =>
        CoprimeIff(25, 27, 13, -12);
        CoprimeIff(25, 28, 9, -8);
        CoprimeIff(25, 29, 7, -6);
        CoprimeIff(25, 31, 5, -4);
      case 6 =>
        CoprimeIff(27, 28, -1, 1);
        CoprimeIff(27, 29, 14, -13);
        CoprimeIff(27, 31, -8, 7);
      case 7 =>
        CoprimeIff(28, 29, -1, 1);
        CoprimeIff(28, 31, 10, -9);
      case 8 =>
        CoprimeIff(29, 31, 15, -14);
      case _ =>
    }
  }

  /** The only number in [0, Prod(ms)) with the residues of x is x modulo the product. */
  lemma CrtUnique(x: int, r: int, ms: seq<int>)
    requires Moduli(ms) && 0 <= r < Prod(ms)
    requires forall i :: 0 <= i < |ms| ==> Cong(r, x, ms[i])
    ensures r == Residue(x, Prod(ms))
  {
    hide Residue;
    forall i | 0 <= i < |ms| ensures Divides(ms[i], r - x) {
      CongAdd(r, x, x, x, ms[i]);
      DividesIffCongZero(r - x, ms[i]);
    }
    AgreeModProduct(ms, r - x);
    var k :| Product(k, Prod(ms)) == r - x;
    assert (-k) * Prod(ms) == -(k * Prod(ms));
    ResidueOf(x, r, -k, Prod(ms));
  }

  /** Splitting into residues and solving gives x modulo the product of the moduli, hence x itself
      in the range that the ten moduli are made for. */
  method RoundTrip(x: int, ms: seq<int>) returns (r: int)
    requires Moduli(ms) && x >= 0
    ensures Prod(ms) > 0 && r == Residue(x, Prod(ms))
    ensures ms == MODS && x < RANGE ==> r == x
  {
    ModuliFacts(ms);
    ProdPositive(ms);
    RangeIsProduct();
    hide Moduli, Prod, Residue;
    var v := FindMods(x, ms);
    r := SolveCrt(v, ms);
    ResiduesAgree(x, r, v, ms);
    CrtUnique(x, r, ms);
    SmallRoundTrip(x);
  }

  lemma ResiduesAgree(x: int, r: int, v: seq<int>, ms: seq<int>)
    requires |v| == |ms| && forall i :: 0 <= i < |ms| ==> ms[i] >= 2
    requires forall i :: 0 <= i < |ms| ==> v[i] == Residue(x, ms[i]) && Cong(r, v[i], ms[i])
    ensures forall i :: 0 <= i < |ms| ==> Cong(r, x, ms[i])
  {
    hide Residue;
    forall i | 0 <= i < |ms| ensures Cong(r, x, ms[i]) {
      CongResidue(x, ms[i]);
    }
  }

  lemma SmallRoundTrip(x: int)
    requires x >= 0
    ensures x < RANGE ==> Residue(x, RANGE) == x
  {
  }
}
