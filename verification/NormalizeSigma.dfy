/** One worker's part of the response at position 0: alpha_j + e * (lambda_j * dk_j). */
module NormalizeSigma {
  import opened Wrappers
  import opened ModArith
  import opened PrimeField
  import opened Lagrange

  const DEOPERATOR_THRESHOLD: nat := 5
  const DEOPERATOR_COUNT: nat := 7

  datatype PartialError = BadSlots | DenominatorZero | CoefficientZero | ChallengeZero | ShareZero

  ghost predicate Ascending(slots: seq<nat>) {
    forall i, j :: 0 <= i < j < |slots| ==> slots[i] < slots[j]
  }

  ghost predicate GoodSlots(slots: seq<nat>, self: nat) {
    && |slots| == DEOPERATOR_THRESHOLD && Ascending(slots) && self in slots
    && forall i :: 0 <= i < |slots| ==> slots[i] < DEOPERATOR_COUNT
  }

  /** Accepts exactly the threshold-sized strictly ascending slot lists that contain the worker's own. */
  method NormalizeSelectedSlots(slots: seq<nat>, self: nat) returns (o: Outcome<PartialError>)
    ensures o.Pass? <==> GoodSlots(slots, self)
    ensures o.Pass? ==> |slots| == 5 && self in slots && forall i :: 0 <= i < 5 ==> slots[i] < 7
    ensures o.Pass? ==> slots[0] < slots[1] < slots[2] < slots[3] < slots[4]
    ensures o.Fail? ==> o.error == BadSlots
  {
    if |slots| != DEOPERATOR_THRESHOLD { return Fail(BadSlots); }
    var sawSelf := false;
    for idx := 0 to |slots|
      invariant sawSelf <==> self in slots[..idx]
      invariant forall i :: 0 <= i < idx ==> slots[i] < DEOPERATOR_COUNT
      invariant forall i, j :: 0 <= i < j < idx ==> slots[i] < slots[j]
    {
      if slots[idx] >= DEOPERATOR_COUNT { return Fail(BadSlots); }
      if idx > 0 && slots[idx - 1] >= slots[idx] { return Fail(BadSlots); }
      if slots[idx] == self { sawSelf := true; }
    }
    assert slots[..|slots|] == slots;
    if !sawSelf { return Fail(BadSlots); }
    return Pass;
  }

  /** Where a slot stands in the list. */
  function IndexOf(slots: seq<nat>, self: nat): (i: nat)
    requires self in slots
    ensures i < |slots| && slots[i] == self
  {
    if slots[0] == self then 0 else 1 + IndexOf(slots[1..], self)
  }

  /** The slot at j of a strictly ascending list stands at j. */
  lemma IndexOfAt(slots: seq<nat>, j: nat)
    requires Ascending(slots) && j < |slots|
    ensures IndexOf(slots, slots[j]) == j
  {
    var i := IndexOf(slots, slots[j]);
    assert !(slots[i] < slots[j] || slots[j] < slots[i]);
  }

  lemma GoodSlotsDistinct(q: int, slots: seq<nat>, self: nat)
    requires q > DEOPERATOR_COUNT && GoodSlots(slots, self)
    ensures Distinct(q, Abscissae(slots))
    ensures forall i :: 0 <= i < |slots| ==> Abscissae(slots)[i] % q != 0
  {
    forall i | 0 <= i < |slots| ensures Abscissae(slots)[i] % q == slots[i] + 1 { Small(q, slots[i] + 1); }
  }

  /** One more factor of the numerator and of the denominator. */
  lemma Factor(q: int, acc: int, product: int, x: int, x': int)
    requires q > 0 && acc % q == product % q && x % q == x' % q
    ensures Mul(q, acc, x) % q == (product * x') % q
  {
    MulLift(q, acc, product, x, x');
    Idem(q, product * x');
  }

  /** The scalar implementation computes the same coefficient as the big-integer one. */
  method LagrangeAtZeroForSlot(q: int, slots: seq<nat>, self: nat) returns (r: Result<int, PartialError>)
    requires IsPrime(q) && q > DEOPERATOR_COUNT
    ensures !GoodSlots(slots, self) ==> r == Err(BadSlots)
    ensures GoodSlots(slots, self) ==> r == Ok(Coefficient(q, Abscissae(slots), IndexOf(slots, self)))
    ensures r.Ok? ==> r.value != 0
  {
    var checked := NormalizeSelectedSlots(slots, self);
    if checked.Fail? { return Err(checked.error); }
    ghost var xs, i := Abscissae(slots), IndexOf(slots, self);
    var xi: int := self + 1;
    var num, den := 1, 1;
    for k := 0 to |slots|
      invariant num % q == Numerator(xs, i, k) % q && den % q == Denominator(xs, i, k) % q
    {
      if slots[k] != self {
        var xj: int := slots[k] + 1;
        Idem(q, -xj);
        Idem(q, xi - xj);
        Factor(q, num, Numerator(xs, i, k), Neg(q, xj), -xj);
        Factor(q, den, Denominator(xs, i, k), Sub(q, xi, xj), xi - xj);
        num := Mul(q, num, Neg(q, xj));
        den := Mul(q, den, Sub(q, xi, xj));
      }
    }
    GoodSlotsDistinct(q, slots, self);
    DenominatorNonzero(q, xs, i, |xs|);
    if den % q == 0 {
      assert false;
      return Err(DenominatorZero);
    }
    CoefficientNonzero(q, xs, i);
    QuotientIsCoefficient(q, xs, i, num, den);
    return Ok(Mul(q, num, Invert(q, den)));
  }

  lemma QuotientIsCoefficient(q: int, xs: seq<int>, i: nat, num: int, den: int)
    requires IsPrime(q) && Distinct(q, xs) && i < |xs| && den % q != 0
    requires num % q == Numerator(xs, i, |xs|) % q && den % q == Denominator(xs, i, |xs|) % q
    ensures Mul(q, num, Invert(q, den)) == Coefficient(q, xs, i)
  {
    var l := Mul(q, num, Invert(q, den));
    var D := Denominator(xs, i, |xs|);
    DivideOut(q, num, den, Invert(q, den));
    CongMul(q, den, D, l, l);
    CoefficientUnique(q, xs, i, l);
  }

  lemma DivideOut(q: int, num: int, den: int, inv: int)
    requires q > 1 && (den * inv) % q == 1
    ensures (den * Mul(q, num, inv)) % q == num % q
  {
    Idem(q, num * inv);
    CongMul(q, den, den, Mul(q, num, inv), num * inv);
    assert den * (num * inv) == (den * inv) * num;
    Small(q, 1);
    CongMul(q, den * inv, 1, num, num);
  }

  /** The public part of a worker's response share. */
  function ResponseShare(q: int, alpha: int, e: int, weight: int, dk: int): (s: int)
    requires q > 0
    ensures 0 <= s < q
  {
    Add(q, alpha, Mul(q, e, Mul(q, weight, dk)))
  }

  /** The worker's handler, from the decoded request on. */
  method Handle(q: int, slots: seq<nat>, self: nat, e: int, alpha: int, dk: int) returns (r: Result<int, PartialError>)
    requires IsPrime(q) && q > DEOPERATOR_COUNT && 0 <= e < q && 0 <= dk < q
    ensures r.Ok? <==> GoodSlots(slots, self) && e != 0 && dk != 0
    ensures r.Ok? ==> r.value == ResponseShare(q, alpha, e, Coefficient(q, Abscissae(slots), IndexOf(slots, self)), dk)
    ensures !GoodSlots(slots, self) ==> r == Err(BadSlots)
    ensures GoodSlots(slots, self) && e == 0 ==> r == Err(ChallengeZero)
    ensures GoodSlots(slots, self) && e != 0 && dk == 0 ==> r == Err(ShareZero)
  {
    var checked := NormalizeSelectedSlots(slots, self);
    if checked.Fail? { return Err(checked.error); }
    var coefficient := LagrangeAtZeroForSlot(q, slots, self);
    var weight := coefficient.value;
    if weight == 0 {
      assert false;
      return Err(CoefficientZero);
    }
    if e == 0 { return Err(ChallengeZero); }
    if dk == 0 { return Err(ShareZero); }
    return Ok(ResponseShare(q, alpha, e, weight, dk));
  }

  // ---- the shares add up -------------------------------------------------------------------

  lemma ShareLift(q: int, alpha: int, e: int, weight: int, dk: int)
    requires q > 0
    ensures ResponseShare(q, alpha, e, weight, dk) % q == (alpha + e * (weight * dk)) % q
  {
    Idem(q, weight * dk);
    MulLift(q, e, e, Mul(q, weight, dk), weight * dk);
    Idem(q, e * (weight * dk));
    AddLift(q, alpha, alpha, Mul(q, e, Mul(q, weight, dk)), e * (weight * dk));
    Idem(q, alpha + e * (weight * dk));
  }

  lemma {:induction false} SharesSum(q: int, alphas: seq<int>, e: int, lambdas: seq<int>, dks: seq<int>, shares: seq<int>)
    requires q > 0 && |alphas| == |lambdas| == |dks| == |shares|
    requires forall j :: 0 <= j < |shares| ==> shares[j] == ResponseShare(q, alphas[j], e, lambdas[j], dks[j])
    ensures Sum(shares) % q == (Sum(alphas) + e * Dot(lambdas, dks)) % q
  {
    if shares == [] {
      assert e * 0 == 0;
    } else {
      var n := |shares| - 1;
      SharesSum(q, alphas[..n], e, lambdas[..n], dks[..n], shares[..n]);
      ShareLift(q, alphas[n], e, lambdas[n], dks[n]);
      CongAdd(q, Sum(shares[..n]), Sum(alphas[..n]) + e * Dot(lambdas[..n], dks[..n]),
              shares[n], alphas[n] + e * (lambdas[n] * dks[n]));
      assert e * (Dot(lambdas[..n], dks[..n]) + lambdas[n] * dks[n])
          == e * Dot(lambdas[..n], dks[..n]) + e * (lambdas[n] * dks[n]);
    }
  }

  lemma {:induction false} DotCong(q: int, a: seq<int>, b: seq<int>, c: seq<int>)
    requires q > 0 && |a| == |b| == |c| && forall i :: 0 <= i < |a| ==> b[i] % q == c[i] % q
    ensures Dot(a, b) % q == Dot(a, c) % q
  {
    if a != [] {
      var n := |a| - 1;
      DotCong(q, a[..n], b[..n], c[..n]);
      CongMul(q, a[n], a[n], b[n], c[n]);
      CongAdd(q, Dot(a[..n], b[..n]), Dot(a[..n], c[..n]), a[n] * b[n], a[n] * c[n]);
    }
  }

  /**
   Threshold response: whatever the sharing polynomial and the split of the nonce, the workers'
   shares add up to alpha + e*dk, where dk is the shared secret that none of them knows.
   */
  lemma SharesAddUp(q: int, slots: seq<nat>, poly: seq<int>, alphas: seq<int>, dks: seq<int>, e: int, shares: seq<int>)
    requires IsPrime(q) && Distinct(q, Abscissae(slots)) && 0 < |poly| <= |slots| == |alphas| == |dks| == |shares|
    requires forall j :: 0 <= j < |slots| ==> dks[j] % q == Eval(poly, slots[j] + 1) % q
    requires forall j :: 0 <= j < |slots| ==>
               shares[j] == ResponseShare(q, alphas[j], e, Coefficient(q, Abscissae(slots), j), dks[j])
    ensures Sum(shares) % q == (Sum(alphas) + e * poly[0]) % q
  {
    var xs := Abscissae(slots);
    Reconstruct(q, xs, poly);
    assert Eval(poly, 0) == poly[0] by { assert 0 * Eval(poly[1..], 0) == 0; }
    SharesCollect(q, alphas, Coefficients(q, xs), dks, Evals(poly, xs), poly[0], e, shares);
  }

  lemma SharesCollect(q: int, alphas: seq<int>, lambdas: seq<int>, dks: seq<int>, exact: seq<int>, dk: int, e: int,
                      shares: seq<int>)
    requires q > 0 && |alphas| == |lambdas| == |dks| == |exact| == |shares|
    requires forall j :: 0 <= j < |dks| ==> dks[j] % q == exact[j] % q
    requires forall j :: 0 <= j < |shares| ==> shares[j] == ResponseShare(q, alphas[j], e, lambdas[j], dks[j])
    requires Dot(lambdas, exact) % q == dk % q
    ensures Sum(shares) % q == (Sum(alphas) + e * dk) % q
  {
    SharesSum(q, alphas, e, lambdas, dks, shares);
    DotCong(q, lambdas, dks, exact);
    ReplaceSecret(q, Sum(shares), Sum(alphas), e, Dot(lambdas, dks), dk);
  }

  lemma ReplaceSecret(q: int, s: int, alpha: int, e: int, d: int, dk: int)
    requires q > 0 && s % q == (alpha + e * d) % q && d % q == dk % q
    ensures s % q == (alpha + e * dk) % q
  {
    CongMul(q, e, e, d, dk);
    CongAdd(q, alpha, alpha, e * d, e * dk);
  }
}
