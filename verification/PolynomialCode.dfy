/** Polynomial.cs. */
module PolynomialCode {
  // A polynomial is the list of its coefficients; an element of Zp is its
  // residue.

  import opened Residues
  import opened Sums
  import opened NumTheory
  import opened Polynomials
  import opened Options

  predicate Reduced(a: seq<int>, p: int) {
    forall k :: 0 <= k < |a| ==> 0 <= a[k] < p
  }

  /** No leading zeros, as Polynomial's constructors leave it. */
  predicate Trimmed(a: seq<int>) {
    a != [] ==> a[|a| - 1] != 0
  }

  method Init(coeffs: seq<int>) returns (c: seq<int>)
    ensures c <= coeffs && Trimmed(c)
    ensures forall k :: |c| <= k < |coeffs| ==> coeffs[k] == 0
  {
    c := [];
    var i := |coeffs| - 1;
    while i >= 0
      invariant -1 <= i < |coeffs|
      invariant i + 1 + |c| <= |coeffs|
      invariant c != [] ==> c == coeffs[i + 1..i + 1 + |c|] && Trimmed(c)
      invariant forall k :: i < k < |coeffs| && k >= i + 1 + |c| ==> coeffs[k] == 0
    {
      if coeffs[i] != 0 || |c| > 0 {
        c := [coeffs[i]] + c;
      }
      i := i - 1;
    }
  }

  lemma TrimSame(coeffs: seq<int>, c: seq<int>, p: int)
    requires p > 0 && c <= coeffs
    requires forall k :: |c| <= k < |coeffs| ==> coeffs[k] == 0
    ensures Same(c, coeffs, p)
  {
    forall k: nat ensures At(c, k) == At(coeffs, k) { }
  }

  method Sample(coeffs: seq<int>, x: int, prime: int) returns (r: Option<int>)
    requires prime >= 2 && Reduced(coeffs, prime)
    ensures r == if coeffs == [] then None else Some(Residue(Eval(coeffs, x), prime))
  {
    if |coeffs| == 0 {
      return None;
    }
    var sum := 0;
    for i := 0 to |coeffs|
      invariant sum == Residue(Eval(coeffs[..i], x), prime)
    {
      var pw := ModPow(x, i, prime);
      var xi := Modulo(pw, prime);
      var ai := Modulo(coeffs[i], prime);
      ProductFits32(0, xi, ai, prime);
      var aixi := Modulo(xi * ai, prime);
      assert prime <= 46341 ==> Fits32(xi * ai) && Fits32(sum + aixi);
      SampleStep(coeffs, i, x, sum, xi, aixi, prime);
      sum := Modulo(sum + aixi, prime);
    }
    assert coeffs[..|coeffs|] == coeffs;
    r := Some(sum);
  }

  lemma SampleStep(coeffs: seq<int>, i: nat, x: int, sum: int, xi: int, aixi: int, p: int)
    requires p > 0 && i < |coeffs| && Reduced(coeffs, p)
    requires sum == Residue(Eval(coeffs[..i], x), p)
    requires xi == Residue(Pow(x, i), p) && aixi == Residue(xi * coeffs[i], p)
    ensures Cong(sum + aixi, Eval(coeffs[..i + 1], x), p)
  {
    var e, c, w := Eval(coeffs[..i], x), coeffs[i], Pow(x, i);
    assert coeffs[..i + 1] == coeffs[..i] + [c];
    EvalAppend(coeffs[..i], c, x);
    Swap(xi, c);
    CongMul(c, c, xi, w, p);
    CongAdd(sum, e, aixi, c * w, p);
  }

  lemma Swap(a: int, b: int)
    ensures a * b == b * a
  {
  }

  /** What the rows still to be processed owe to the quotient found so far. */
  ghost predicate Dividing(a: seq<int>, rest: seq<int>, q: seq<int>, d: seq<int>, k: int, p: int)
    requires p > 0
  {
    forall i: nat :: Cong(At(a, i), At(rest, i) + At(Times(q, d), i - k), p)
  }

  /** One round takes the multiple of the divisor off every coefficient. */
  lemma RestStep(rest0: seq<int>, rest1: seq<int>, c: int, d: seq<int>, k: nat, p: int, i: nat)
    requires p > 0 && d != [] && |rest0| == |d| + k && |rest1| == |d| + k - 1
    requires Cong(rest0[|d| + k - 1], c * d[|d| - 1], p)
    requires forall i :: 0 <= i < k ==> rest1[i] == rest0[i]
    requires forall i :: k <= i < |d| + k - 1 ==> rest1[i] == Residue(rest0[i] - c * d[i - k], p)
    ensures Cong(At(rest1, i), At(rest0, i) - c * At(d, i - k), p)
  {
    hide Residue;
    var m := c * At(d, i - k);
    assert i < k || i >= |d| + k ==> m == c * 0 == 0;
    if i == |d| + k - 1 {
      CongAdd(rest0[i], m, m, m, p);
    } else if k <= i < |d| + k - 1 {
      CongResidue(rest0[i] - m, p);
    }
  }

  lemma MoveOver(a: int, r0: int, r1: int, m: int, t: int, p: int)
    requires p > 0 && Cong(a, r0 + t, p) && Cong(r1, r0 - m, p)
    ensures Cong(a, r1 + (m + t), p)
  {
    hide Residue;
    CongAdd(r1, r0 - m, m + t, m + t, p);
  }

  /** One round of long division: c is the next quotient coefficient, and rest1 is rest0
      without its top coefficient and without c * x^k * d. */
  lemma DivisionStep(a: seq<int>, rest0: seq<int>, rest1: seq<int>, c: int, q: seq<int>, d: seq<int>, k: nat, p: int)
    requires p > 0 && d != [] && |rest0| == |d| + k && |rest1| == |d| + k - 1
    requires Dividing(a, rest0, q, d, k + 1, p)
    requires Cong(rest0[|d| + k - 1], c * d[|d| - 1], p)
    requires forall i :: 0 <= i < k ==> rest1[i] == rest0[i]
    requires forall i :: k <= i < |d| + k - 1 ==> rest1[i] == Residue(rest0[i] - c * d[i - k], p)
    ensures Dividing(a, rest1, [c] + q, d, k, p)
  {
    hide Cong, Residue, Times, At;
    forall i: nat
      ensures Cong(At(a, i), At(rest1, i) + At(Times([c] + q, d), i - k), p)
    {
      TimesCoefficient([c] + q, d, i - k);
      assert ([c] + q)[1..] == q;
      var t := At(Times(q, d), i - k - 1);
      assert i - (k + 1) == i - k - 1;
      assert Cong(At(a, i), At(rest0, i) + t, p);
      var m := c * At(d, i - k);
      RestStep(rest0, rest1, c, d, k, p, i);
      MoveOver(At(a, i), At(rest0, i), At(rest1, i), m, t, p);
    }
  }

  /** The inner loop of the division: subtracts c * x^k * d from the coefficients below the top. */
  method SubtractMultiple(coeffs: array<int>, c: int, d: seq<int>, k: nat, prime: int)
    requires prime >= 2 && Reduced(coeffs[..], prime) && Reduced(d, prime) && 0 <= c < prime
    requires d != [] && |d| - 1 + k < coeffs.Length
    modifies coeffs
    ensures Reduced(coeffs[..], prime)
    ensures forall i :: 0 <= i < k || |d| - 1 + k <= i < coeffs.Length ==> coeffs[i] == old(coeffs[i])
    ensures forall i :: k <= i < |d| - 1 + k ==> coeffs[i] == Residue(old(coeffs[i]) - c * d[i - k], prime)
  {
    var n := |d| - 1;
    var j := n + k - 1;
    while j >= k
      invariant k - 1 <= j <= n + k - 1
      invariant forall i :: 0 <= i < coeffs.Length && !(j < i < n + k) ==> coeffs[i] == old(coeffs[i])
      invariant forall i :: j < i < n + k ==> coeffs[i] == Residue(old(coeffs[i]) - c * d[i - k], prime)
    {
      assert coeffs[j] == old(coeffs[j]) == old(coeffs[..])[j];
      ProductFits32(coeffs[j], c, d[j - k], prime);
      assert prime <= 46341 ==> Fits32(coeffs[j] - c * d[j - k]);
      coeffs[j] := Modulo(coeffs[j] - c * d[j - k], prime);
      j := j - 1;
    }
    forall i | 0 <= i < coeffs.Length ensures 0 <= coeffs[i] < prime {
      assert 0 <= old(coeffs[..])[i] < prime;
    }
  }

  /** The loop over k: quotient coefficients from the top, each subtracted from coeffs. */
  method DivisionLoop(a: seq<int>, d: seq<int>, coeffs: array<int>, quotient: array<int>, prime: int)
    requires IsPrime(prime) && Reduced(a, prime) && Reduced(d, prime) && Trimmed(d)
    requires d != [] && |a| >= |d| && coeffs != quotient && coeffs[..] == a
    requires coeffs.Length == |a| && quotient.Length == |a| - |d| + 1
    modifies coeffs, quotient
    ensures Reduced(coeffs[..], prime) && Reduced(quotient[..], prime)
    ensures Dividing(a, coeffs[..|d| - 1], quotient[..], d, 0, prime)
  {
    hide Residue, Times, At, Dividing;
    var m, n := |a| - 1, |d| - 1;
    var norm := MultiplicativeInverse(d[n], prime);
    FieldInverse(d[n], prime);
    assert coeffs[..m + 1] == a && quotient[m - n + 1..] == [];
    DividingStart(a, d, m - n + 1, prime);
    var k := m - n;
    while k >= 0
      invariant -1 <= k <= m - n
      invariant Reduced(coeffs[..], prime) && Reduced(quotient[k + 1..], prime)
      invariant Dividing(a, coeffs[..n + k + 1], quotient[k + 1..], d, k + 1, prime)
    {
      ghost var rest0, q0 := coeffs[..n + k + 1], quotient[k + 1..];
      assert 0 <= coeffs[..][n + k] < prime;
      ProductFits32(0, coeffs[n + k], norm, prime);
      assert prime <= 46341 ==> Fits32(coeffs[n + k] * norm);
      var c := Modulo(coeffs[n + k] * norm, prime);
      quotient[k] := c;
      LeadingTerm(coeffs[n + k], norm, c, d[n], prime);
      SubtractMultiple(coeffs, c, d, k, prime);
      DivisionStep(a, rest0, coeffs[..n + k], c, q0, d, k, prime);
      assert quotient[k..] == [c] + q0;
      k := k - 1;
    }
    assert quotient[0..] == quotient[..] && n + k + 1 == n;
  }

  /** The division: quotient and remainder. */
  method LongDivision(a: seq<int>, d: seq<int>, prime: int) returns (q: seq<int>, rest: seq<int>)
    requires IsPrime(prime) && Reduced(a, prime) && Reduced(d, prime) && Trimmed(d)
    requires d != [] && |a| >= |d|
    ensures |q| == |a| - |d| + 1 && |rest| == |d| - 1 && Reduced(q, prime) && Reduced(rest, prime)
    ensures forall k: nat :: Cong(At(a, k), At(Times(q, d), k) + At(rest, k), prime)
  {
    var m, n := |a| - 1, |d| - 1;
    var quotient := new int[m - n + 1];
    var coeffs := new int[m + 1];
    for k := 0 to m + 1
      invariant forall i :: 0 <= i < k ==> coeffs[i] == a[i]
    {
      coeffs[k] := Modulo(a[k], prime);
    }
    assert coeffs[..] == a;
    DivisionLoop(a, d, coeffs, quotient, prime);
    ghost var cs := coeffs[..];
    q := quotient[..];
    var remainder := new int[n];
    for i := 0 to n
      invariant coeffs[..] == cs
      invariant forall t :: 0 <= t < i ==> remainder[t] == coeffs[t]
    {
      assert 0 <= coeffs[..][i] < prime;
      remainder[i] := Modulo(coeffs[i], prime);
    }
    rest := remainder[..];
    assert coeffs[..n] == rest;
    assert Reduced(cs[..n], prime);
    DividingAtZero(a, rest, q, d, prime);
  }

  /** d does not divide a. */
  ghost predicate NoQuotient(a: seq<int>, d: seq<int>, p: int)
    requires p > 0
  {
    forall q: seq<int> :: !Quotient(a, d, q, p)
  }

  ghost predicate Quotient(a: seq<int>, d: seq<int>, q: seq<int>, p: int)
    requires p > 0
  {
    Same(a, Times(q, d), p)
  }

  /** Polynomial.divideWithRemainder: the exact quotient if there is one, null otherwise. */
  method DivideWithRemainder(a: seq<int>, d: seq<int>, prime: int) returns (r: Option<seq<int>>)
    requires IsPrime(prime) && Reduced(a, prime) && Reduced(d, prime) && Trimmed(a) && Trimmed(d)
    ensures a == [] || d == [] ==> r == None
    ensures r.Some? ==> |r.value| <= |a| - |d| + 1
    ensures r.Some? ==> r.value != [] && Trimmed(r.value) && Reduced(r.value, prime) && Same(a, Times(r.value, d), prime)
    ensures a != [] && d != [] && r.None? ==> NoQuotient(a, d, prime)
  {
    if |a| == 0 || |d| == 0 {
      return None;
    }
    if |a| - 1 < |d| - 1 {
      NoQuotientOfSmaller(a, d, prime);
      return None;
    }
    var quotient, remainder := LongDivision(a, d, prime);
    var answer0 := Init(quotient);
    var answer1 := Init(remainder);
    var i := 0;
    while i < |answer1|
      invariant 0 <= i <= |answer1|
      invariant forall t :: 0 <= t < i ==> answer1[t] == 0
    {
      if answer1[i] != 0 {
        NoExactQuotient(a, quotient, remainder, d, i, prime);
        return None;
      }
      i := i + 1;
    }
    assert answer1 == [];
    TrimSame(quotient, answer0, prime);
    ExactQuotient(a, quotient, answer0, remainder, d, prime);
    r := Some(answer0);
  }

  lemma DividingStart(a: seq<int>, d: seq<int>, k: nat, p: int)
    requires p > 0
    ensures Dividing(a, a, [], d, k, p)
  {
    assert Times([], d) == [];
  }

  lemma LeadingTerm(top: int, norm: int, c: int, lead: int, p: int)
    requires p > 0 && Cong(lead * norm, 1, p) && c == Residue(top * norm, p)
    ensures Cong(top, c * lead, p)
  {
    CongMul(c, top * norm, lead, lead, p);
    CongMul(lead * norm, 1, top, top, p);
    Rotate(top, norm, lead);
  }

  lemma Rotate(a: int, b: int, c: int)
    ensures (a * b) * c == (c * b) * a
  {
  }

  lemma DividingAtZero(a: seq<int>, rest: seq<int>, q: seq<int>, d: seq<int>, p: int)
    requires p > 0 && Dividing(a, rest, q, d, 0, p)
    ensures forall k: nat :: Cong(At(a, k), At(Times(q, d), k) + At(rest, k), p)
  {
    forall k: nat ensures Cong(At(a, k), At(Times(q, d), k) + At(rest, k), p) {
      assert k - 0 == k;
    }
  }

  lemma TopIsNotZero(a: seq<int>, p: int)
    requires p > 0 && Reduced(a, p) && Trimmed(a) && a != []
    ensures !Cong(At(a, |a| - 1), 0, p) && !IsZero(a, p)
  {
    assert !Cong(At(a, |a| - 1), 0, p);
  }

  lemma NoQuotientOfSmaller(a: seq<int>, d: seq<int>, p: int)
    requires IsPrime(p) && Reduced(a, p) && Reduced(d, p) && Trimmed(a) && Trimmed(d)
    requires 0 < |a| < |d|
    ensures NoQuotient(a, d, p)
  {
    TopIsNotZero(a, p);
    forall q ensures !Quotient(a, d, q, p) {
      if Same(a, Times(q, d), p) {
        forall k: nat ensures Cong(At(Times([], d), k) + At(a, k), At(Times(q, d), k), p) {
          assert Cong(At(a, k), At(Times(q, d), k), p);
        }
        DivisionUnique([], q, d, a, p);
        assert false;
      }
    }
  }

  lemma NoExactQuotient(a: seq<int>, q: seq<int>, rest: seq<int>, d: seq<int>, i: nat, p: int)
    requires IsPrime(p) && Reduced(d, p) && Trimmed(d) && d != [] && |rest| < |d| && Reduced(rest, p)
    requires forall k: nat :: Cong(At(a, k), At(Times(q, d), k) + At(rest, k), p)
    requires i < |rest| && rest[i] != 0
    ensures NoQuotient(a, d, p)
  {
    assert !Cong(At(rest, i), 0, p);
    assert !IsZero(rest, p);
    forall s ensures !Quotient(a, d, s, p) {
      if Same(a, Times(s, d), p) {
        forall k: nat ensures Cong(At(Times(q, d), k) + At(rest, k), At(Times(s, d), k), p) {
          assert Cong(At(a, k), At(Times(s, d), k), p);
        }
        DivisionUnique(q, s, d, rest, p);
        assert false;
      }
    }
  }

  lemma ExactQuotient(a: seq<int>, q: seq<int>, t: seq<int>, rest: seq<int>, d: seq<int>, p: int)
    requires p > 0 && a != [] && Reduced(a, p) && Trimmed(a)
    requires forall k: nat :: Cong(At(a, k), At(Times(q, d), k) + At(rest, k), p)
    requires forall i :: 0 <= i < |rest| ==> rest[i] == 0
    requires Same(t, q, p)
    ensures Same(a, Times(t, d), p) && t != []
  {
    TopIsNotZero(a, p);
    forall k: nat ensures Cong(At(a, k), At(Times(t, d), k), p) {
      TimesSameLeft(t, q, d, k, p);
      assert At(rest, k) == 0;
    }
    SameAsEmpty(a, d, p);
  }

  lemma SameAsEmpty(a: seq<int>, d: seq<int>, p: int)
    requires p > 0
    ensures Same(a, Times([], d), p) ==> IsZero(a, p)
  {
    forall k: nat ensures At(Times([], d), k) == 0 { }
  }

  lemma TimesSameLeft(t: seq<int>, q: seq<int>, d: seq<int>, k: int, p: int)
    requires p > 0 && Same(t, q, p)
    ensures Cong(At(Times(t, d), k), At(Times(q, d), k), p)
  {
    hide Residue, Times, At, Plus, Scaled, Same;
    var m := Scaled(-1, q);
    DifferenceIsZero(t, q, p);
    TimesPlusLeft(t, m, d, k);
    TimesScaledLeft(-1, q, d, k);
    TimesZero(Plus(t, m), d, k, p);
    var x, y := At(Times(t, d), k), At(Times(q, d), k);
    CongAdd(x - y, 0, y, y, p);
  }

  lemma DifferenceIsZero(t: seq<int>, q: seq<int>, p: int)
    requires p > 0 && Same(t, q, p)
    ensures IsZero(Plus(t, Scaled(-1, q)), p)
  {
    hide Residue;
    forall i: nat ensures Cong(At(Plus(t, Scaled(-1, q)), i), 0, p) {
      assert Cong(At(t, i), At(q, i), p);
      NegatedCoefficient(q, i);
      CongAdd(At(t, i), At(q, i), At(q, i), At(q, i), p);
    }
  }

  lemma NegatedCoefficient(q: seq<int>, i: nat)
    ensures At(Scaled(-1, q), i) == -At(q, i)
  {
  }
}
