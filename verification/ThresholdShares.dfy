/** Additively shared proofs: commitments and responses of any number of parties add up. */
module ThresholdShares {
  import opened ModArith
  import opened PrimeField
  import opened Digits
  import opened Encoding
  import opened FiatShamir
  import opened TransferForm
  import opened TransferSigma
  import opened RangeCommitments
  import opened TransferProof

  /** Per-index sums of the parties' vectors, modulo q. */
  function Totals(q: int, rows: seq<seq<int>>, len: nat): (r: seq<int>)
    requires q > 0 && Rectangular(rows, len)
    ensures |r| == len && forall i :: 0 <= i < len ==> 0 <= r[i] < q && r[i] == Running(q, rows, i, |rows|)
  {
    seq(len, i requires 0 <= i < len => Running(q, rows, i, |rows|))
  }

  method AggregateThreshold(q: int, len: nat, shares: seq<seq<int>>) returns (total: seq<int>)
    requires q > 0 && Rectangular(shares, len)
    ensures total == Totals(q, shares, len)
  {
    var acc := new int[len](_ => 0);
    Small(q, 0);
    for p := 0 to |shares|
      invariant forall i :: 0 <= i < len ==> acc[i] == Running(q, shares, i, p)
    {
      AddShares(q, acc, shares, p);
    }
    return acc[..];
  }

  /** The sum of the first p vectors, unreduced. */
  function Prefix(alphas: seq<seq<int>>, len: nat, p: nat): (r: seq<int>)
    requires Rectangular(alphas, len) && p <= |alphas|
    ensures |r| == len && forall i :: 0 <= i < len ==> r[i] == Sum(Column(alphas, i)[..p])
  {
    seq(len, i requires 0 <= i < len => Sum(Column(alphas, i)[..p]))
  }

  lemma PrefixStep(q: int, alphas: seq<seq<int>>, len: nat, p: nat)
    requires q > 0 && Rectangular(alphas, len) && p < |alphas|
    ensures Combines(q, Prefix(alphas, len, p), alphas[p], 1, Prefix(alphas, len, p + 1))
  {
    forall i | 0 <= i < len
      ensures Prefix(alphas, len, p + 1)[i] == Prefix(alphas, len, p)[i] + 1 * alphas[p][i]
    {
      SumPrefix(Column(alphas, i), p);
    }
  }

  lemma PsiOfZero(q: int, points: seq<int>, z: seq<int>, ell: nat, n: nat, i: nat)
    requires q > 0 && |points| >= PointsLen(ell, n) && |z| == WitnessLen(ell, n) && i < CommitmentLen(ell, n)
    requires forall k :: 0 <= k < |z| ==> z[k] == 0
    ensures PsiAt(points, z, ell, n, i) % q == 0
  {
    var x := PsiAt(points, z, ell, n, i);
    PsiLinear(q, points, z, z, 1, z, ell, n, i);
    CongSub(q, x + 1 * x, x, x, x);
    Small(q, 0);
  }

  /** Sums of residues follow any sequence that starts at zero and grows by the same residues. */
  lemma {:induction false} Telescoping(q: int, col: seq<int>, last: seq<int>, ps: seq<int>, p: nat)
    requires q > 0 && |col| == |last| && |ps| == |col| + 1 && p <= |col| && ps[0] % q == 0
    requires forall k :: 0 <= k < |col| ==> col[k] == last[k] % q && ps[k + 1] % q == (ps[k] + 1 * last[k]) % q
    ensures Sum(col[..p]) % q == ps[p] % q
  {
    if p == 0 {
      Small(q, 0);
    } else {
      Telescoping(q, col, last, ps, p - 1);
      SumPrefix(col, p - 1);
      CommitmentStep(q, Sum(col[..p - 1]), col[p - 1], ps[p - 1], last[p - 1], ps[p]);
    }
  }

  /** The sum of the parties' commitments is psi of the sum of their nonces. */
  lemma PrefixCommitment(q: int, points: seq<int>, alphas: seq<seq<int>>, rows: seq<seq<int>>, ell: nat, n: nat, i: nat)
    requires q > 0 && |points| >= PointsLen(ell, n) && Rectangular(alphas, WitnessLen(ell, n))
    requires |rows| == |alphas| && i < CommitmentLen(ell, n) && Rectangular(rows, CommitmentLen(ell, n))
    requires forall k :: 0 <= k < |alphas| ==> rows[k] == Psi(q, points, alphas[k], ell, n)
    ensures Running(q, rows, i, |rows|) == PsiAt(points, Prefix(alphas, WitnessLen(ell, n), |alphas|), ell, n, i) % q
  {
    var len := WitnessLen(ell, n);
    var last := seq(|alphas|, k requires 0 <= k < |alphas| => PsiAt(points, alphas[k], ell, n, i));
    var ps := seq(|alphas| + 1, k requires 0 <= k <= |alphas| => PsiAt(points, Prefix(alphas, len, k), ell, n, i));
    PsiOfZero(q, points, Prefix(alphas, len, 0), ell, n, i);
    forall k | 0 <= k < |alphas|
      ensures Column(rows, i)[k] == last[k] % q && ps[k + 1] % q == (ps[k] + 1 * last[k]) % q
    {
      PrefixStep(q, alphas, len, k);
      PsiLinear(q, points, Prefix(alphas, len, k), alphas[k], 1, Prefix(alphas, len, k + 1), ell, n, i);
    }
    Telescoping(q, Column(rows, i), last, ps, |alphas|);
  }

  lemma CommitmentStep(q: int, s: int, r: int, before: int, last: int, after: int)
    requires q > 0 && s % q == before % q && r == last % q && after % q == (before + 1 * last) % q
    ensures (s + r) % q == after % q
  {
    Idem(q, last);
    CongAdd(q, s, before, r, last);
  }

  /** Aggregating the parties' commitments gives the commitment to the aggregated nonce. */
  lemma AggregatedCommitment(q: int, points: seq<int>, alphas: seq<seq<int>>, rows: seq<seq<int>>, total: seq<int>,
                             ell: nat, n: nat, i: nat)
    requires q > 0 && |points| >= PointsLen(ell, n) && Rectangular(alphas, WitnessLen(ell, n))
    requires |rows| == |alphas| && i < CommitmentLen(ell, n) && Rectangular(rows, CommitmentLen(ell, n))
    requires |total| == WitnessLen(ell, n)
    requires forall k :: 0 <= k < |alphas| ==> rows[k] == Psi(q, points, alphas[k], ell, n)
    requires forall k :: 0 <= k < |total| ==> total[k] == Running(q, alphas, k, |alphas|)
    ensures Running(q, rows, i, |rows|) == Psi(q, points, total, ell, n)[i]
  {
    var len := WitnessLen(ell, n);
    var sum := Prefix(alphas, len, |alphas|);
    PrefixCommitment(q, points, alphas, rows, ell, n, i);
    forall k | 0 <= k < len ensures total[k] % q == (sum[k] + 0 * sum[k]) % q { Idem(q, sum[k]); }
    PsiLinear(q, points, sum, sum, 0, total, ell, n, i);
    assert 0 * PsiAt(points, sum, ell, n, i) == 0;
  }

  /** One entry of a response. */
  function ResponseOf(q: int, alpha: int, e: int, w: int): int
    requires q > 0
  {
    (alpha + e * w) % q
  }

  lemma {:induction false} SumOfResponses(q: int, alphas: seq<int>, ws: seq<int>, rs: seq<int>, e: int)
    requires q > 0 && |alphas| == |ws| == |rs|
    requires forall k :: 0 <= k < |rs| ==> rs[k] == ResponseOf(q, alphas[k], e, ws[k])
    ensures Sum(rs) % q == ResponseOf(q, Sum(alphas), e, Sum(ws))
  {
    if rs == [] {
    } else {
      var n := |rs| - 1;
      SumOfResponses(q, alphas[..n], ws[..n], rs[..n], e);
      ResponseStep(q, Sum(rs[..n]), Sum(alphas[..n]), Sum(ws[..n]), e, alphas[n], ws[n], rs[n]);
    }
  }

  /** Aggregating the parties' responses gives the response of the aggregated nonce and witness. */
  lemma AggregatedResponse(q: int, alphas: seq<seq<int>>, ws: seq<seq<int>>, e: int, rows: seq<seq<int>>, len: nat, i: nat)
    requires q > 0 && |alphas| == |ws| == |rows| && i < len
    requires Rectangular(alphas, len) && Rectangular(ws, len) && Rectangular(rows, len)
    requires forall k :: 0 <= k < |rows| ==> rows[k] == Response(q, alphas[k], ws[k], e)
    ensures Running(q, rows, i, |rows|) == ResponseOf(q, Sum(Column(alphas, i)), e, Sum(Column(ws, i)))
  {
    forall k | 0 <= k < |rows|
      ensures Column(rows, i)[k] == ResponseOf(q, Column(alphas, i)[k], e, Column(ws, i)[k])
    {
      ResponseAt(q, alphas[k], ws[k], e, i, alphas[k][i], ws[k][i]);
    }
    SumOfResponses(q, Column(alphas, i), Column(ws, i), Column(rows, i), e);
    assert Column(rows, i)[..|rows|] == Column(rows, i);
  }

  lemma ResponseStep(q: int, s: int, a: int, w: int, e: int, a': int, w': int, r: int)
    requires q > 0 && s % q == ResponseOf(q, a, e, w) && r == ResponseOf(q, a', e, w')
    ensures (s + r) % q == ResponseOf(q, a + a', e, w + w')
  {
    Idem(q, a' + e * w');
    SumStep(q, a, w, s, a', w', r, e);
  }

  // ---- the aggregated proof ----------------------------------------------------------------

  lemma TotalCommitment(q: int, points: seq<int>, alphas: seq<seq<int>>, rows: seq<seq<int>>, ell: nat, n: nat)
    requires q > 0 && |points| >= PointsLen(ell, n) && Rectangular(alphas, WitnessLen(ell, n))
    requires |rows| == |alphas| && forall k :: 0 <= k < |alphas| ==> rows[k] == Psi(q, points, alphas[k], ell, n)
    ensures Rectangular(rows, CommitmentLen(ell, n))
    ensures Totals(q, rows, CommitmentLen(ell, n)) == Psi(q, points, Totals(q, alphas, WitnessLen(ell, n)), ell, n)
  {
    var total := Totals(q, alphas, WitnessLen(ell, n));
    forall i | 0 <= i < CommitmentLen(ell, n)
      ensures Totals(q, rows, CommitmentLen(ell, n))[i] == Psi(q, points, total, ell, n)[i]
    {
      AggregatedCommitment(q, points, alphas, rows, total, ell, n, i);
    }
  }

  lemma ResponseOfResidues(q: int, a: int, e: int, w: int)
    requires q > 0
    ensures ResponseOf(q, a, e, w) == ResponseOf(q, a % q, e, w % q)
  {
    Idem(q, a);
    Idem(q, w);
    CongMul(q, e, e, w, w % q);
    CongAdd(q, a, a % q, e * w, e * (w % q));
  }

  lemma TotalResponse(q: int, alphas: seq<seq<int>>, ws: seq<seq<int>>, e: int, rows: seq<seq<int>>, len: nat)
    requires q > 0 && |alphas| == |ws| == |rows| && Rectangular(alphas, len) && Rectangular(ws, len)
    requires forall k :: 0 <= k < |rows| ==> rows[k] == Response(q, alphas[k], ws[k], e)
    ensures Rectangular(rows, len)
    ensures Totals(q, rows, len) == Response(q, Totals(q, alphas, len), Totals(q, ws, len), e)
  {
    var a, w := Totals(q, alphas, len), Totals(q, ws, len);
    forall i | 0 <= i < len ensures Totals(q, rows, len)[i] == Response(q, a, w, e)[i] {
      AggregatedResponse(q, alphas, ws, e, rows, len, i);
      ResponseOfResidues(q, Sum(Column(alphas, i)), e, Sum(Column(ws, i)));
      assert Column(alphas, i)[..|alphas|] == Column(alphas, i) && Column(ws, i)[..|ws|] == Column(ws, i);
      ResponseAt(q, a, w, e, i, a[i], w[i]);
    }
  }

  /** Each party has committed to its nonce and answered the challenge that the aggregated commitment leads to. */
  ghost predicate HonestParties(q: int, sha512: Hash, stmt: Statement, dst: DomainSeparator, ell: nat, n: nat,
                                alphas: seq<seq<int>>, ws: seq<seq<int>>, commitments: seq<seq<int>>,
                                responses: seq<seq<int>>)
    requires q > 0 && |stmt.points| >= PointsLen(ell, n)
  {
    && |alphas| == |ws| == |commitments| == |responses|
    && Rectangular(alphas, WitnessLen(ell, n)) && Rectangular(ws, WitnessLen(ell, n))
    && Rectangular(commitments, CommitmentLen(ell, n))
    && (forall k :: 0 <= k < |alphas| ==> commitments[k] == Psi(q, stmt.points, alphas[k], ell, n))
    && var e := TranscriptChallenge(q, sha512, dst, stmt, WitnessLen(ell, n),
                                    Compressed(Totals(q, commitments, CommitmentLen(ell, n))));
       forall k :: 0 <= k < |alphas| ==> responses[k] == Response(q, alphas[k], ws[k], e)
  }

  /**
   For any number of parties, the aggregates form the proof that one party with the summed witness
   and the summed nonce would have given; the verifier accepts it exactly when that witness is
   valid or the challenge is zero.
   */
  method AggregateProof(q: int, ghost sha512: Hash, ghost stmt: Statement, ghost dst: DomainSeparator, ell: nat, n: nat,
                        ghost alphas: seq<seq<int>>, ghost ws: seq<seq<int>>, commitments: seq<seq<int>>,
                        responses: seq<seq<int>>) returns (proof: Proof)
    requires IsPrime(q) && q <= Pow(BYTE, SCALAR_BYTES) && |stmt.points| >= PointsLen(ell, n)
    requires HonestParties(q, sha512, stmt, dst, ell, n, alphas, ws, commitments, responses)
    ensures IsHonest(q, sha512, Totals(q, ws, WitnessLen(ell, n)), Totals(q, alphas, WitnessLen(ell, n)), proof, stmt,
                     dst, ell, n)
    ensures Accepted(q, sha512, proof, stmt, dst, ell, n) <==>
            Relation(q, stmt.points, Totals(q, ws, WitnessLen(ell, n)), ell, n) ||
            HonestChallenge(q, sha512, proof, stmt, dst) == 0
  {
    var commitment := AggregateThreshold(q, CommitmentLen(ell, n), commitments);
    ghost var e := TranscriptChallenge(q, sha512, dst, stmt, WitnessLen(ell, n), Compressed(commitment));
    TotalCommitment(q, stmt.points, alphas, commitments, ell, n);
    TotalResponse(q, alphas, ws, e, responses, WitnessLen(ell, n));
    var response := AggregateThreshold(q, WitnessLen(ell, n), responses);
    proof := Proof(Compressed(commitment), Compressed(response));
    CompleteExactly(q, sha512, Totals(q, ws, WitnessLen(ell, n)), Totals(q, alphas, WitnessLen(ell, n)), proof, stmt,
                    dst, ell, n);
  }
}
