/** What the transfer proof proves: completeness, extraction, and conservation of amounts. */
module TransferProof {
  import opened Wrappers
  import opened ModArith
  import opened PrimeField
  import opened Digits
  import opened Encoding
  import opened FiatShamir
  import opened TransferForm
  import opened TransferSigma

  // ---- completeness ------------------------------------------------------------------------

  /** The proof that the prover returns for witness w and nonce alpha. */
  ghost predicate IsHonest(q: int, sha512: Hash, w: seq<int>, alpha: seq<int>, proof: Proof,
                           stmt: Statement, dst: DomainSeparator, ell: nat, n: nat)
    requires q > 0 && |stmt.points| >= PointsLen(ell, n) && |w| == WitnessLen(ell, n) == |alpha|
  {
    && proof.commitment == Compressed(Psi(q, stmt.points, alpha, ell, n))
    && proof.response == Compressed(Response(q, alpha, w, HonestChallenge(q, sha512, proof, stmt, dst)))
  }

  function HonestChallenge(q: int, sha512: Hash, proof: Proof, stmt: Statement, dst: DomainSeparator): int
    requires q > 0
  {
    TranscriptChallenge(q, sha512, dst, stmt, |proof.response|, proof.commitment)
  }

  /** The equation of a position, when A = psi(alpha) and s = alpha + e*w. */
  lemma HonestPosition(q: int, points: seq<int>, alpha: seq<int>, w: seq<int>, s: seq<int>, e: int, ell: nat, n: nat, i: nat)
    requires q > 0 && |points| >= PointsLen(ell, n) && |w| == WitnessLen(ell, n) && Combines(q, alpha, w, e, s)
    requires i < CommitmentLen(ell, n)
    ensures Holds(q, points, PsiAt(points, alpha, ell, n, i) % q, e, s, ell, n, i)
       <==> (e * PsiAt(points, w, ell, n, i)) % q == (e * FAt(points, ell, n, i)) % q
  {
    PsiLinear(q, points, alpha, w, e, s, ell, n, i);
    Shifted(q, PsiAt(points, alpha, ell, n, i), e * PsiAt(points, w, ell, n, i), e * FAt(points, ell, n, i));
  }

  lemma Shifted(q: int, a: int, x: int, y: int)
    requires q > 0
    ensures (a + x) % q == (a % q + y) % q <==> x % q == y % q
  {
    Idem(q, a);
    CongAdd(q, a % q, a, y, y);
    if x % q == y % q {
      CongAdd(q, a, a, x, y);
    } else if (a + x) % q == (a + y) % q {
      CongSub(q, a + x, a + y, a, a);
    }
  }

  lemma ScalarsOfCompressed(q: int, s: seq<int>)
    requires 0 < q <= Pow(BYTE, SCALAR_BYTES) && forall i :: 0 <= i < |s| ==> 0 <= s[i] < q
    ensures Scalars(q, Compressed(s)) == s
    ensures forall i :: 0 <= i < |s| ==> Decode(q, Compressed(s)[i]) == Some(s[i])
  {
    forall i | 0 <= i < |s| ensures Scalars(q, Compressed(s))[i] == s[i] && Decode(q, Compressed(s)[i]) == Some(s[i]) {
      EncodeDecode(q, s[i]);
    }
  }

  lemma ResponseCombines(q: int, alpha: seq<int>, w: seq<int>, e: int)
    requires q > 0 && |alpha| == |w|
    ensures Combines(q, alpha, w, e, Response(q, alpha, w, e))
  {
    forall i | 0 <= i < |w| { Idem(q, alpha[i] + e * w[i]); }
  }

  /**
   Completeness, exactly: the verifier accepts the honest prover's proof if and only if e*psi(w) =
   e*f at every position ...
   */
  lemma HonestProofAccepted(q: int, sha512: Hash, w: seq<int>, alpha: seq<int>, proof: Proof,
                            stmt: Statement, dst: DomainSeparator, ell: nat, n: nat)
    requires 1 < q <= Pow(BYTE, SCALAR_BYTES) && |stmt.points| >= PointsLen(ell, n)
    requires |w| == WitnessLen(ell, n) == |alpha| && IsHonest(q, sha512, w, alpha, proof, stmt, dst, ell, n)
    ensures Accepted(q, sha512, proof, stmt, dst, ell, n) <==>
            forall i :: 0 <= i < CommitmentLen(ell, n) ==> ScaledPosition(q, stmt.points, w,
                          HonestChallenge(q, sha512, proof, stmt, dst), ell, n, i)
  {
    var e := HonestChallenge(q, sha512, proof, stmt, dst);
    var s := Response(q, alpha, w, e);
    ScalarsOfCompressed(q, s);
    ScalarsOfCompressed(q, Psi(q, stmt.points, alpha, ell, n));
    ResponseCombines(q, alpha, w, e);
    forall i | 0 <= i < CommitmentLen(ell, n)
      ensures PositionOk(q, stmt.points, proof.commitment, e, s, ell, n, i)
         <==> ScaledPosition(q, stmt.points, w, e, ell, n, i)
    {
      HonestPosition(q, stmt.points, alpha, w, s, e, ell, n, i);
    }
  }

  ghost predicate ScaledPosition(q: int, points: seq<int>, w: seq<int>, e: int, ell: nat, n: nat, i: nat)
    requires q > 0 && |points| >= PointsLen(ell, n) && |w| == WitnessLen(ell, n) && i < CommitmentLen(ell, n)
  {
    (e * PsiAt(points, w, ell, n, i)) % q == (e * FAt(points, ell, n, i)) % q
  }

  /** ... that is, over the prime field, if and only if the witness is valid or the challenge is zero. */
  lemma CompleteExactly(q: int, sha512: Hash, w: seq<int>, alpha: seq<int>, proof: Proof,
                        stmt: Statement, dst: DomainSeparator, ell: nat, n: nat)
    requires IsPrime(q) && q <= Pow(BYTE, SCALAR_BYTES) && |stmt.points| >= PointsLen(ell, n)
    requires |w| == WitnessLen(ell, n) == |alpha| && IsHonest(q, sha512, w, alpha, proof, stmt, dst, ell, n)
    ensures Accepted(q, sha512, proof, stmt, dst, ell, n) <==>
            Relation(q, stmt.points, w, ell, n) || HonestChallenge(q, sha512, proof, stmt, dst) == 0
  {
    var e := HonestChallenge(q, sha512, proof, stmt, dst);
    HonestProofAccepted(q, sha512, w, alpha, proof, stmt, dst, ell, n);
    forall i | 0 <= i < CommitmentLen(ell, n)
      ensures ScaledPosition(q, stmt.points, w, e, ell, n, i) <==>
              e == 0 || PsiAt(stmt.points, w, ell, n, i) % q == FAt(stmt.points, ell, n, i) % q
    {
      ScaledEqual(q, e, PsiAt(stmt.points, w, ell, n, i), FAt(stmt.points, ell, n, i));
    }
    if e != 0 && Accepted(q, sha512, proof, stmt, dst, ell, n) {
      assert Relation(q, stmt.points, w, ell, n);
    }
  }

  lemma ScaledEqual(q: int, e: int, a: int, b: int)
    requires IsPrime(q) && 0 <= e < q
    ensures (e * a) % q == (e * b) % q <==> e == 0 || a % q == b % q
  {
    Small(q, e);
    if e == 0 {
      assert 0 * a == 0 * b;
    } else if (e * a) % q == (e * b) % q {
      Cancel(q, e, a, b);
    } else if a % q == b % q {
      CongMul(q, e, e, a, b);
    }
  }

  // ---- extraction --------------------------------------------------------------------------

  /** The witness in two responses s and t to the challenges e and d. */
  function Extracted(q: int, s: seq<int>, t: seq<int>, e: int, d: int): (w: seq<int>)
    requires IsPrime(q) && |s| == |t|
    ensures |w| == |s|
  {
    seq(|s|, i requires 0 <= i < |s| => ((s[i] - t[i]) * Invert(q, e - d)) % q)
  }

  /** s = t + (e - d) * w for the extracted w. */
  lemma ExtractedCombines(q: int, s: seq<int>, t: seq<int>, e: int, d: int)
    requires IsPrime(q) && |s| == |t| && (e - d) % q != 0
    ensures Combines(q, t, Extracted(q, s, t, e, d), e - d, s)
  {
    forall i | 0 <= i < |s|
      ensures s[i] % q == (t[i] + (e - d) * Extracted(q, s, t, e, d)[i]) % q
    {
      ExtractOne(q, s[i], t[i], e - d, Invert(q, e - d));
    }
  }

  lemma ExtractOne(q: int, s: int, t: int, c: int, inv: int)
    requires q > 1 && (c * inv) % q == 1
    ensures s % q == (t + c * (((s - t) * inv) % q)) % q
  {
    var x := ((s - t) * inv) % q;
    Idem(q, (s - t) * inv);
    CongMul(q, c, c, x, (s - t) * inv);
    Small(q, 1);
    CongMul(q, c * inv, 1, s - t, s - t);
    assert c * ((s - t) * inv) == (c * inv) * (s - t);
    CongAdd(q, t, t, c * x, s - t);
  }

  /**
   Extraction: responses that satisfy the equations of one commitment under two different
   challenges determine a witness of the statement.
   */
  lemma TwoTranscripts(q: int, points: seq<int>, A: seq<int>, s: seq<int>, t: seq<int>, e: int, d: int, ell: nat, n: nat)
    requires IsPrime(q) && (e - d) % q != 0 && |points| >= PointsLen(ell, n)
    requires |s| == |t| == WitnessLen(ell, n) && |A| == CommitmentLen(ell, n)
    requires forall i :: 0 <= i < |A| ==> Holds(q, points, A[i], e, s, ell, n, i) && Holds(q, points, A[i], d, t, ell, n, i)
    ensures Relation(q, points, Extracted(q, s, t, e, d), ell, n)
  {
    var w := Extracted(q, s, t, e, d);
    ExtractedCombines(q, s, t, e, d);
    forall i | 0 <= i < CommitmentLen(ell, n)
      ensures PsiAt(points, w, ell, n, i) % q == FAt(points, ell, n, i) % q
    {
      assert Holds(q, points, A[i], e, s, ell, n, i) && Holds(q, points, A[i], d, t, ell, n, i);
      PsiLinear(q, points, t, w, e - d, s, ell, n, i);
      ExtractPosition(q, PsiAt(points, s, ell, n, i), PsiAt(points, t, ell, n, i), PsiAt(points, w, ell, n, i),
                      FAt(points, ell, n, i), A[i], e, d);
    }
  }

  lemma ExtractPosition(q: int, ps: int, pt: int, pw: int, f: int, a: int, e: int, d: int)
    requires IsPrime(q) && (e - d) % q != 0
    requires ps % q == (a + e * f) % q && pt % q == (a + d * f) % q && ps % q == (pt + (e - d) * pw) % q
    ensures pw % q == f % q
  {
    CongSub(q, ps, pt + (e - d) * pw, pt, pt);
    CongSub(q, ps, a + e * f, pt, a + d * f);
    assert a + e * f - (a + d * f) == (e - d) * f;
    Cancel(q, e - d, pw, f);
  }

  /**
   Soundness of the verifier itself: two accepted proofs with one commitment, under hashes that
   give it different challenges, yield a witness.
   */
  lemma AcceptedTwice(q: int, sha: Hash, sha': Hash, p: Proof, p': Proof,
                      stmt: Statement, dst: DomainSeparator, ell: nat, n: nat)
    requires IsPrime(q) && |stmt.points| >= PointsLen(ell, n) && p.commitment == p'.commitment
    requires Accepted(q, sha, p, stmt, dst, ell, n) && Accepted(q, sha', p', stmt, dst, ell, n)
    requires HonestChallenge(q, sha, p, stmt, dst) != HonestChallenge(q, sha', p', stmt, dst)
    ensures Relation(q, stmt.points,
              Extracted(q, Scalars(q, p.response), Scalars(q, p'.response),
                        HonestChallenge(q, sha, p, stmt, dst), HonestChallenge(q, sha', p', stmt, dst)), ell, n)
  {
    var e, d := HonestChallenge(q, sha, p, stmt, dst), HonestChallenge(q, sha', p', stmt, dst);
    var s, t := Scalars(q, p.response), Scalars(q, p'.response);
    var A := seq(|p.commitment|, i requires 0 <= i < |p.commitment| =>
      if Decode(q, p.commitment[i]).Some? then Decode(q, p.commitment[i]).value else 0);
    Small(q, e);
    Small(q, d);
    ZeroDiff(q, e, d);
    forall i | 0 <= i < |A|
      ensures Holds(q, stmt.points, A[i], e, s, ell, n, i) && Holds(q, stmt.points, A[i], d, t, ell, n, i)
    {
      assert PositionOk(q, stmt.points, p.commitment, e, s, ell, n, i);
      assert PositionOk(q, stmt.points, p'.commitment, d, t, ell, n, i);
    }
    TwoTranscripts(q, stmt.points, A, s, t, e, d, ell, n);
  }
}
