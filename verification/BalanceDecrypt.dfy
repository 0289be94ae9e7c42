/** Threshold decryption of the vault balance. */
module BalanceDecrypt {
  import opened Wrappers
  import opened ModArith
  import opened PrimeField
  import opened Encoding
  import opened Lagrange
  import TwistedElGamal
  import NormalizeSigma

  datatype DecryptError = EmptyRequest | EllMismatch | NonCanonical(chunk: nat) | DMismatch(chunk: nat)

  /** Chunk k of the request is the encoding of the point that the chain reports. */
  predicate ChunkMatches(q: int, requested: seq<Bytes32>, chainD: seq<int>, k: nat)
    requires k < |requested| == |chainD|
  {
    Decode(q, requested[k]) == Some(chainD[k])
  }

  ghost predicate FirstMismatch(q: int, requested: seq<Bytes32>, chainD: seq<int>, k: nat) {
    k < |requested| == |chainD| && !ChunkMatches(q, requested, chainD, k) &&
    forall i :: 0 <= i < k ==> ChunkMatches(q, requested, chainD, i)
  }

  /**
   The stages from the comparison on. A worker multiplies its share only into the points the chain
   reports, and only after every requested point has been found equal to them.
   */
  method Handle(q: int, requested: seq<Bytes32>, chainD: seq<int>, dkShare: int) returns (r: Result<seq<int>, DecryptError>)
    requires q > 0
    ensures r == Err(EmptyRequest) <==> requested == []
    ensures r == Err(EllMismatch) <==> requested != [] && |requested| != |chainD|
    ensures r.Ok? <==> requested != [] && |requested| == |chainD| &&
                       forall k :: 0 <= k < |requested| ==> Decode(q, requested[k]) == Some(chainD[k])
    ensures r.Ok? ==> |r.value| == |chainD| && forall k :: 0 <= k < |chainD| ==> r.value[k] == Mul(q, chainD[k], dkShare)
    ensures r.Err? && (r.error.DMismatch? || r.error.NonCanonical?) ==> FirstMismatch(q, requested, chainD, r.error.chunk)
    ensures r.Err? && r.error.DMismatch? ==> Decode(q, requested[r.error.chunk]).Some?
    ensures r.Err? && r.error.NonCanonical? ==> Decode(q, requested[r.error.chunk]).None?
  {
    if requested == [] { return Err(EmptyRequest); }
    if |chainD| != |requested| { return Err(EllMismatch); }
    for k := 0 to |requested|
      invariant forall i :: 0 <= i < k ==> ChunkMatches(q, requested, chainD, i) && Decode(q, requested[i]) == Some(chainD[i])
    {
      var point := Decode(q, requested[k]);
      assert ChunkMatches(q, requested, chainD, k) <==> point == Some(chainD[k]);
      if point == None { return Err(NonCanonical(k)); }
      if point.value != chainD[k] { return Err(DMismatch(k)); }
    }
    var partials := [];
    for k := 0 to |chainD|
      invariant |partials| == k && forall i :: 0 <= i < k ==> partials[i] == Mul(q, chainD[i], dkShare)
    {
      partials := partials + [Mul(q, chainD[k], dkShare)];
    }
    return Ok(partials);
  }

  /** A requested chunk matches if and only if it is, byte for byte, the encoding of the chain's point. */
  lemma MatchIsBytes(q: int, requested: seq<Bytes32>, chainD: seq<int>, k: nat)
    requires k < |requested| == |chainD| && 0 <= chainD[k] < q <= Pow(BYTE, SCALAR_BYTES)
    ensures ChunkMatches(q, requested, chainD, k) <==> requested[k] == Encode(chainD[k])
  {
    EncodeDecode(q, chainD[k]);
    if ChunkMatches(q, requested, chainD, k) { DecodeEncode(q, requested[k]); }
  }

  lemma {:induction false} DotOfMultiples(q: int, lambdas: seq<int>, dks: seq<int>, partials: seq<int>, d: int)
    requires q > 0 && |lambdas| == |dks| == |partials|
    requires forall j :: 0 <= j < |dks| ==> partials[j] == Mul(q, d, dks[j])
    ensures Dot(lambdas, partials) % q == (d * Dot(lambdas, dks)) % q
  {
    if dks == [] {
      assert d * 0 == 0;
    } else {
      var n := |dks| - 1;
      DotOfMultiples(q, lambdas[..n], dks[..n], partials[..n], d);
      OneMultiple(q, lambdas[n], d, dks[n]);
      CongAdd(q, Dot(lambdas[..n], partials[..n]), d * Dot(lambdas[..n], dks[..n]),
              lambdas[n] * partials[n], d * (lambdas[n] * dks[n]));
      assert d * (Dot(lambdas[..n], dks[..n]) + lambdas[n] * dks[n])
          == d * Dot(lambdas[..n], dks[..n]) + d * (lambdas[n] * dks[n]);
    }
  }

  lemma OneMultiple(q: int, l: int, d: int, dk: int)
    requires q > 0
    ensures (l * Mul(q, d, dk)) % q == (d * (l * dk)) % q
  {
    Idem(q, d * dk);
    CongMul(q, l, l, Mul(q, d, dk), d * dk);
    assert l * (d * dk) == d * (l * dk);
  }

  /** C minus the weighted partial decryptions is v*G, for every sharing of the key. */
  lemma ThresholdDecrypts(q: int, slots: seq<nat>, poly: seq<int>, dks: seq<int>, partials: seq<int>,
                          g: int, h: int, v: int, ek: int, r: int)
    requires IsPrime(q) && Distinct(q, Abscissae(slots)) && 0 < |poly| <= |slots| == |dks| == |partials|
    requires (poly[0] * ek) % q == h % q
    requires forall j :: 0 <= j < |slots| ==> dks[j] % q == Eval(poly, slots[j] + 1) % q
    requires forall j :: 0 <= j < |slots| ==>
               partials[j] == Mul(q, TwistedElGamal.Encrypt(q, g, h, v, ek, r).d, dks[j])
    ensures Sub(q, TwistedElGamal.Encrypt(q, g, h, v, ek, r).c, Dot(Coefficients(q, Abscissae(slots)), partials))
         == Mul(q, g, v)
  {
    var ct := TwistedElGamal.Encrypt(q, g, h, v, ek, r);
    var ls, exact := Coefficients(q, Abscissae(slots)), Evals(poly, Abscissae(slots));
    Reconstruct(q, Abscissae(slots), poly);
    assert Eval(poly, 0) == poly[0] by { assert 0 * Eval(poly[1..], 0) == 0; }
    forall j | 0 <= j < |dks| ensures dks[j] % q == exact[j] % q {}
    NormalizeSigma.DotCong(q, ls, dks, exact);
    DotOfMultiples(q, ls, dks, partials, ct.d);
    TwistedElGamal.OpeningOfEncryption(q, g, h, v, ek, r, poly[0]);
    SameOpening(q, ct.c, ct.d, poly[0], Dot(ls, dks), Dot(ls, partials));
  }

  lemma SameOpening(q: int, c: int, d: int, dk: int, reconstructed: int, dot: int)
    requires q > 0 && reconstructed % q == dk % q && dot % q == (d * reconstructed) % q
    ensures Sub(q, c, dot) == Sub(q, c, Mul(q, dk, d))
  {
    CongMul(q, d, d, reconstructed, dk);
    Idem(q, dk * d);
    assert dk * d == d * dk;
    CongSub(q, c, c, dot, Mul(q, dk, d));
  }
}
