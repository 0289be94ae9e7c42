/** The distributed prover equals the single prover. */
module ThresholdProof {
  import opened Wrappers
  import opened ModArith
  import opened PrimeField
  import opened Digits
  import opened Encoding
  import opened Lagrange
  import opened NormalizeSigma
  import opened FiatShamir
  import opened TransferForm
  import opened TransferSigma
  import opened TransferProof
  import opened DkBases
  import opened Threshold

  // ---- the workers -------------------------------------------------------------------------

  function WorkerPartials(q: int, bases: seq<DkBase>, alpha: int): (r: seq<DkPartial>)
    requires q > 0
    ensures |r| == |bases|
  {
    seq(|bases|, k requires 0 <= k < |bases| =>
      DkPartial(bases[k].index, Encode(Mul(q, bases[k].base, alpha))))
  }

  /** A worker's round-2 partials: a zero nonce is refused, and then no partial is the identity. */
  method PartialDkCommitments(q: int, bases: seq<DkBase>, alpha: int) returns (r: Result<seq<DkPartial>, ThresholdError>)
    requires IsPrime(q) && 0 <= alpha < q && forall k :: 0 <= k < |bases| ==> 0 < bases[k].base < q
    ensures r.Ok? <==> alpha != 0
    ensures r.Ok? ==> r.value == WorkerPartials(q, bases, alpha)
  {
    if alpha == 0 { return Err(AlphaZero); }
    var partials := [];
    for k := 0 to |bases|
      invariant partials == WorkerPartials(q, bases, alpha)[..k]
    {
      var point := Mul(q, bases[k].base, alpha);
      Small(q, bases[k].base);
      Small(q, alpha);
      ProductNonzero(q, bases[k].base, alpha);
      if point == 0 {
        assert false;
        return Err(NoBases);
      }
      partials := partials + [DkPartial(bases[k].index, Encode(point))];
    }
    return Ok(partials);
  }

  ghost predicate HonestContributions(q: int, slots: seq<nat>, contributions: seq<Contribution>, bases: seq<DkBase>,
                                      alphas: seq<int>)
    requires q > 0
  {
    |contributions| == |slots| == |alphas| && Ascending(slots) &&
    (forall j, k :: 0 <= j < k < |bases| ==> bases[j].index < bases[k].index) &&
    forall j :: 0 <= j < |slots| ==> contributions[j] == Contribution(slots[j], WorkerPartials(q, bases, alphas[j]))
  }

  lemma {:induction false} FindAt(contributions: seq<Contribution>, j: nat)
    requires j < |contributions|
    requires forall i, k :: 0 <= i < k < |contributions| ==> contributions[i].slot < contributions[k].slot
    ensures Find(contributions, contributions[j].slot) == Some(contributions[j])
  {
    if j > 0 { FindAt(contributions[1..], j - 1); }
  }

  lemma {:induction false} FindPartialAt(partials: seq<DkPartial>, k: nat)
    requires k < |partials|
    requires forall i, j :: 0 <= i < j < |partials| ==> partials[i].index < partials[j].index
    ensures FindPartial(partials, partials[k].index) == Some(partials[k].commitment)
  {
    if k > 0 { FindPartialAt(partials[1..], k - 1); }
  }

  /** The points that the workers contribute for one base. */
  function WorkerPoints(q: int, base: int, alphas: seq<int>): (r: seq<int>)
    requires q > 0
    ensures |r| == |alphas| && forall j :: 0 <= j < |alphas| ==> r[j] == Mul(q, base, alphas[j])
  {
    seq(|alphas|, j requires 0 <= j < |alphas| => Mul(q, base, alphas[j]))
  }

  lemma OnePartial(q: int, slots: seq<nat>, contributions: seq<Contribution>, bases: seq<DkBase>, alphas: seq<int>,
                   j: nat, k: nat)
    requires q > 0 && HonestContributions(q, slots, contributions, bases, alphas) && j < |slots| && k < |bases|
    ensures Find(contributions, slots[j]).Some?
    ensures FindPartial(Find(contributions, slots[j]).value.partials, bases[k].index)
         == Some(Encode(Mul(q, bases[k].base, alphas[j])))
  {
    FindAt(contributions, j);
    FindPartialAt(WorkerPartials(q, bases, alphas[j]), k);
  }

  lemma {:induction false} CollectHonest(q: int, slots: seq<nat>, contributions: seq<Contribution>, bases: seq<DkBase>,
                                         alphas: seq<int>, k: nat, m: nat)
    requires q > 0 && HonestContributions(q, slots, contributions, bases, alphas) && k < |bases| && m <= |slots|
    ensures Collect(slots[..m], contributions, bases[k].index)
         == Some(Compressed(WorkerPoints(q, bases[k].base, alphas))[..m])
  {
    if m > 0 {
      var all := Compressed(WorkerPoints(q, bases[k].base, alphas));
      CollectHonest(q, slots, contributions, bases, alphas, k, m - 1);
      OnePartial(q, slots, contributions, bases, alphas, m - 1, k);
      assert slots[..m][..m - 1] == slots[..m - 1];
      assert all[..m] == all[..m - 1] + [all[m - 1]];
    }
  }

  /** What honest workers add up to at a base: the base times the whole nonce. */
  lemma WorkerSumHonest(q: int, slots: seq<nat>, contributions: seq<Contribution>, bases: seq<DkBase>,
                        alphas: seq<int>, k: nat)
    requires 0 < q <= Pow(BYTE, SCALAR_BYTES) && slots != []
    requires HonestContributions(q, slots, contributions, bases, alphas) && k < |bases|
    ensures WorkerSum(q, slots, contributions, bases[k].index) == Ok(Encode((bases[k].base * Sum(alphas)) % q))
  {
    var points := WorkerPoints(q, bases[k].base, alphas);
    CollectHonest(q, slots, contributions, bases, alphas, k, |slots|);
    assert slots[..|slots|] == slots && Compressed(points)[..|slots|] == Compressed(points);
    AggregateOfCompressed(q, points);
    SumOfMultiples(q, bases[k].base, alphas, points);
  }

  // ---- the positions -----------------------------------------------------------------------

  /** The user's nonce: all but the key's. */
  function UserNonce(alpha: seq<int>): (u: seq<int>)
    requires alpha != []
    ensures |u| == |alpha|
  {
    alpha[0 := 0]
  }

  /** psi(alpha) is the user's part plus alpha[0] times the key's coefficient. */
  lemma SplitNonce(q: int, points: seq<int>, alpha: seq<int>, ell: nat, n: nat, i: nat, total: int)
    requires q > 0 && |points| >= PointsLen(ell, n) && |alpha| == WitnessLen(ell, n) && i < CommitmentLen(ell, n)
    requires total % q == alpha[0] % q
    ensures PsiAt(points, alpha, ell, n, i) % q
         == (PsiAt(points, UserNonce(alpha), ell, n, i) + total * DkCoefficient(points, ell, n, i)) % q
  {
    var u, unit := UserNonce(alpha), Unit(WitnessLen(ell, n));
    forall k | 0 <= k < |alpha| ensures alpha[k] % q == (u[k] + total * unit[k]) % q {
      if k > 0 { Times0(total); }
    }
    PsiLinear(q, points, u, unit, total, alpha, ell, n, i);
    PsiOfUnit(points, ell, n, i);
  }

  lemma Times0(a: int)
    ensures a * 0 == 0 && 0 * a == 0
  {
  }

  lemma KeyPosition(q: int, sid: int, base: int, total: int, whole: int)
    requires q > 0 && base == sid % q && whole % q == (sid * 0 + total * sid) % q
    ensures (base * total) % q == whole % q
  {
    Idem(q, sid);
    CongMul(q, base, sid, total, total);
    Times0(sid);
    assert sid * total == total * sid;
  }

  lemma SharedPosition(q: int, user: int, coefficient: int, base: int, total: int, whole: int)
    requires q > 0 && base == coefficient % q && whole % q == (user + total * coefficient) % q
    ensures (user % q + (base * total) % q) % q == whole % q
  {
    Idem(q, coefficient);
    CongMul(q, base, coefficient, total, total);
    Idem(q, user);
    Idem(q, base * total);
    assert coefficient * total == total * coefficient;
    CongAdd(q, user % q, user, (base * total) % q, total * coefficient);
  }

  lemma AggregatePair(q: int, a: int, b: int)
    requires 0 < q <= Pow(BYTE, SCALAR_BYTES) && 0 <= a < q && 0 <= b < q
    ensures AggregatePoints(q, [Encode(a), Encode(b)]) == Some(Encode((a + b) % q))
  {
    var points := [a, b];
    AggregateOfCompressed(q, points);
    CompressedPair(a, b);
    SumPair(a, b);
  }

  lemma CompressedPair(a: int, b: int)
    requires a >= 0 && b >= 0
    ensures Compressed([a, b]) == [Encode(a), Encode(b)]
  {
    var bs := Compressed([a, b]);
    assert bs[0] == Encode(a) && bs[1] == Encode(b);
  }

  lemma SumPair(a: int, b: int)
    ensures Sum([a, b]) == a + b
  {
    var pair, one := [a, b], [a];
    assert pair[..1] == one;
    assert one[..0] == [];
    assert Sum(one) == Sum(one[..0]) + a;
  }

  /** The setting of an honest run, for the shape the bridge fixes. */
  ghost predicate HonestRun(q: int, stmt: Statement, slots: seq<nat>, contributions: seq<Contribution>,
                            bases: seq<DkBase>, alphas: seq<int>, alpha: seq<int>)
  {
    && IsPrime(q) && q <= Pow(BYTE, SCALAR_BYTES) && |stmt.points| >= PointsLen(8, 4)
    && |alpha| == WITNESS_LEN && slots != []
    && AreBases(q, stmt.points, 8, 4, bases, COMMITMENT_LEN)
    && |bases| == 2 && bases[0].index == 0 && bases[1].index == 17
    && HonestContributions(q, slots, contributions, bases, alphas)
    && Sum(alphas) % q == alpha[0] % q
  }

  lemma PositionHonest(q: int, stmt: Statement, slots: seq<nat>, contributions: seq<Contribution>, bases: seq<DkBase>,
                       alphas: seq<int>, alpha: seq<int>, user: seq<Bytes32>, i: nat, b: Bytes32)
    requires HonestRun(q, stmt, slots, contributions, bases, alphas, alpha) && i < 30
    requires user == Compressed(Psi(q, stmt.points, UserNonce(alpha), 8, 4))[1..]
    ensures PositionIs(q, [0, 17], slots, contributions, user, i, b) <==> b == Encode(Psi(q, stmt.points, alpha, 8, 4)[i])
    ensures !SharedFails(q, slots, contributions, user, i) || i != 17
  {
    var u := UserNonce(alpha);
    SplitNonce(q, stmt.points, alpha, 8, 4, i, Sum(alphas));
    if i == 0 {
      WorkerSumHonest(q, slots, contributions, bases, alphas, 0);
      assert BaseOk(q, stmt.points, 8, 4, bases[0], COMMITMENT_LEN);
      KeyPosition(q, stmt.points[IDX_EK_SID], bases[0].base, Sum(alphas), PsiAt(stmt.points, alpha, 8, 4, 0));
    } else if i == 17 {
      WorkerSumHonest(q, slots, contributions, bases, alphas, 1);
      assert BaseOk(q, stmt.points, 8, 4, bases[1], COMMITMENT_LEN);
      var part := PsiAt(stmt.points, u, 8, 4, 17) % q;
      SharedPosition(q, PsiAt(stmt.points, u, 8, 4, 17), DkCoefficient(stmt.points, 8, 4, 17), bases[1].base,
                     Sum(alphas), PsiAt(stmt.points, alpha, 8, 4, 17));
      AggregatePair(q, part, (bases[1].base * Sum(alphas)) % q);
      assert user[16] == Encode(part);
    } else {
      Times0(Sum(alphas));
      assert user[i - 1] == Encode(PsiAt(stmt.points, u, 8, 4, i) % q);
    }
  }

  /** The coordinator's commitment is psi of the whole nonce, which no party ever held. */
  method AssembleHonest(q: int, stmt: Statement, slots: seq<nat>, contributions: seq<Contribution>,
                        ghost bases: seq<DkBase>, ghost alphas: seq<int>, ghost alpha: seq<int>, user: seq<Bytes32>)
    returns (full: seq<Bytes32>)
    requires HonestRun(q, stmt, slots, contributions, bases, alphas, alpha)
    requires user == Compressed(Psi(q, stmt.points, UserNonce(alpha), 8, 4))[1..]
    ensures full == Compressed(Psi(q, stmt.points, alpha, 8, 4))
  {
    WorkerSumHonest(q, slots, contributions, bases, alphas, 0);
    WorkerSumHonest(q, slots, contributions, bases, alphas, 1);
    PositionHonest(q, stmt, slots, contributions, bases, alphas, alpha, user, 17, Encode(0));
    var r := AssembleCommitments(q, [0, 17], slots, contributions, user);
    full := r.value;
    forall i | 0 <= i < 30 ensures full[i] == Encode(Psi(q, stmt.points, alpha, 8, 4)[i]) {
      PositionHonest(q, stmt, slots, contributions, bases, alphas, alpha, user, i, full[i]);
    }
  }

  // ---- the response ------------------------------------------------------------------------

  /** The workers' scalars for an honest run. */
  function WorkerShares(q: int, slots: seq<nat>, alphas: seq<int>, dks: seq<int>, e: int): (r: seq<int>)
    requires IsPrime(q) && |slots| == |alphas| == |dks|
    ensures |r| == |slots| && forall j :: 0 <= j < |r| ==> 0 <= r[j] < q
    ensures forall j :: 0 <= j < |r| ==> r[j] == ResponseShare(q, alphas[j], e, Coefficient(q, Abscissae(slots), j), dks[j])
  {
    seq(|slots|, j requires 0 <= j < |slots| =>
      ResponseShare(q, alphas[j], e, Coefficient(q, Abscissae(slots), j), dks[j]))
  }

  /** They are what the workers' handlers return: the worker of slots[j] answers with entry j. */
  method WorkerShare(q: int, slots: seq<nat>, j: nat, alpha: int, dk: int, e: int, ghost alphas: seq<int>,
                     ghost dks: seq<int>) returns (r: Result<int, PartialError>)
    requires IsPrime(q) && q > DEOPERATOR_COUNT && 0 <= e < q && 0 <= dk < q
    requires j < |slots| == |alphas| == |dks| && alpha == alphas[j] && dk == dks[j]
    ensures r.Ok? <==> GoodSlots(slots, slots[j]) && e != 0 && dk != 0
    ensures r.Ok? ==> r.value == WorkerShares(q, slots, alphas, dks, e)[j]
  {
    r := NormalizeSigma.Handle(q, slots, slots[j], e, alpha, dk);
    if r.Ok? { IndexOfAt(slots, j); }
  }

  lemma LeValuesOfCompressed(q: int, s: seq<int>)
    requires 0 < q <= Pow(BYTE, SCALAR_BYTES) && forall i :: 0 <= i < |s| ==> 0 <= s[i] < q
    ensures LeValues(Compressed(s)) == s
  {
    forall i | 0 <= i < |s| ensures LeValues(Compressed(s))[i] == s[i] { EncodeDecode(q, s[i]); }
  }

  lemma SumOfWorkerShares(q: int, slots: seq<nat>, poly: seq<int>, alphas: seq<int>, dks: seq<int>, e: int) returns (s: int)
    requires IsPrime(q) && Distinct(q, Abscissae(slots)) && 0 < |poly| <= |slots| == |alphas| == |dks|
    requires forall j :: 0 <= j < |slots| ==> dks[j] % q == Eval(poly, slots[j] + 1) % q
    ensures s == Sum(WorkerShares(q, slots, alphas, dks, e)) && s % q == (Sum(alphas) + e * poly[0]) % q
  {
    s := Sum(WorkerShares(q, slots, alphas, dks, e));
    SharesAddUp(q, slots, poly, alphas, dks, e, WorkerShares(q, slots, alphas, dks, e));
  }

  /** The sum of the workers' shares is entry 0 of the single prover's response. */
  lemma FirstResponse(q: int, slots: seq<nat>, poly: seq<int>, alphas: seq<int>, dks: seq<int>, alpha: seq<int>,
                      w: seq<int>, e: int)
    requires IsPrime(q) && Distinct(q, Abscissae(slots)) && 0 < |poly| <= |slots| == |alphas| == |dks|
    requires forall j :: 0 <= j < |slots| ==> dks[j] % q == Eval(poly, slots[j] + 1) % q
    requires |alpha| == |w| > 0 && Sum(alphas) % q == alpha[0] % q && poly[0] % q == w[0] % q
    ensures Sum(WorkerShares(q, slots, alphas, dks, e)) % q == Response(q, alpha, w, e)[0]
  {
    var s := SumOfWorkerShares(q, slots, poly, alphas, dks, e);
    FirstScalar(q, s, Sum(alphas), e, poly[0], alpha[0], w[0]);
    ResponseAt(q, alpha, w, e, 0, alpha[0], w[0]);
  }

  lemma FirstScalar(q: int, s: int, total: int, e: int, dk: int, alpha: int, w: int)
    requires q > 0 && s % q == (total + e * dk) % q && total % q == alpha % q && dk % q == w % q
    ensures s % q == (alpha + e * w) % q
  {
    CongMul(q, e, e, dk, w);
    CongAdd(q, total, alpha, e * dk, e * w);
  }

  method AssembleResponse(q: int, slots: seq<nat>, ghost poly: seq<int>, ghost alphas: seq<int>, ghost dks: seq<int>,
                          ghost alpha: seq<int>, ghost w: seq<int>, ghost e: int, shares: seq<Bytes32>,
                          user: seq<Bytes32>) returns (response: seq<Bytes32>)
    requires IsPrime(q) && q <= Pow(BYTE, SCALAR_BYTES) && Distinct(q, Abscissae(slots))
    requires 0 < |poly| <= |slots| == |alphas| == |dks|
    requires forall j :: 0 <= j < |slots| ==> dks[j] % q == Eval(poly, slots[j] + 1) % q
    requires |alpha| == |w| > 0 && Sum(alphas) % q == alpha[0] % q && poly[0] % q == w[0] % q
    requires shares == Compressed(WorkerShares(q, slots, alphas, dks, e))
    requires user == Compressed(Response(q, alpha, w, e))[1..]
    ensures response == Compressed(Response(q, alpha, w, e))
  {
    var sZero := AggregateScalarsModN(q, shares);
    FirstResponse(q, slots, poly, alphas, dks, alpha, w, e);
    LeValuesOfCompressed(q, WorkerShares(q, slots, alphas, dks, e));
    response := [sZero.value] + user;
    assert response[0] == Compressed(Response(q, alpha, w, e))[0];
  }

  // ---- the end-to-end theorem --------------------------------------------------------------

  /**
   The distributed prover is the single prover: for every witness, every split of the first nonce
   and every Shamir sharing of the key, the assembled proof is the one that a single party with
   the whole witness would have produced, and the plain verifier accepts it exactly when the
   witness is valid (or the challenge is zero). The key enters only as the sum of lambda_j*dk_j.
   */
  method FinalizeHonest(q: int, sha512: Hash, stmt: Statement, dst: DomainSeparator, slots: seq<nat>,
                        contributions: seq<Contribution>, ghost bases: seq<DkBase>, ghost alphas: seq<int>,
                        ghost alpha: seq<int>, ghost poly: seq<int>, ghost dks: seq<int>, ghost w: seq<int>,
                        shares: seq<Bytes32>, userCommitments: seq<Bytes32>, userResponses: seq<Bytes32>)
    returns (proof: Proof)
    requires HonestRun(q, stmt, slots, contributions, bases, alphas, alpha) && |w| == WITNESS_LEN
    requires Distinct(q, Abscissae(slots)) && 0 < |poly| <= |slots| == |dks| && poly[0] % q == w[0] % q
    requires forall j :: 0 <= j < |slots| ==> dks[j] % q == Eval(poly, slots[j] + 1) % q
    requires userCommitments == Compressed(Psi(q, stmt.points, UserNonce(alpha), 8, 4))[1..]
    requires var e := TranscriptChallenge(q, sha512, dst, stmt, 25, Compressed(Psi(q, stmt.points, alpha, 8, 4)));
             shares == Compressed(WorkerShares(q, slots, alphas, dks, e)) &&
             userResponses == Compressed(Response(q, alpha, w, e))[1..]
    ensures IsHonest(q, sha512, w, alpha, proof, stmt, dst, 8, 4)
    ensures Accepted(q, sha512, proof, stmt, dst, 8, 4) <==>
            Relation(q, stmt.points, w, 8, 4) || HonestChallenge(q, sha512, proof, stmt, dst) == 0
  {
    var full := AssembleHonest(q, stmt, slots, contributions, bases, alphas, alpha, userCommitments);
    ghost var e := TranscriptChallenge(q, sha512, dst, stmt, 25, full);
    var response := AssembleResponse(q, slots, poly, alphas, dks, alpha, w, e, shares, userResponses);
    proof := Proof(full, response);
    CompleteExactly(q, sha512, w, alpha, proof, stmt, dst, 8, 4);
  }
}
