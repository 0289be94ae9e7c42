/** The single-party prover and verifier of confidential transfers. */
module TransferSigma {
  import opened Wrappers
  import opened ModArith
  import opened PrimeField
  import opened Digits
  import opened Encoding
  import opened BcsMessages
  import opened FiatShamir
  import opened TransferForm

  datatype SigmaError = AuditorsUnsupported | WitnessLength | AlphaLength | NotAPoint

  const TYPE_NAME: string := "0x1::sigma_protocol_transfer::Transfer"

  /** The public statement: the points, their encodings, and public scalars. */
  datatype Statement = Statement(points: seq<int>, compressed: seq<Bytes32>, scalars: seq<Bytes32>)

  datatype Proof = Proof(commitment: seq<Bytes32>, response: seq<Bytes32>)

  // ---- psi and f ---------------------------------------------------------------------------

  /** powers[i] = 2^(16 i), modulo q. */
  ghost predicate ChunkPowers(q: int, powers: seq<int>)
    requires q > 0
  {
    forall i :: 0 <= i < |powers| ==> powers[i] % q == Pow(CHUNK, i) % q
  }

  lemma NextPower(q: int, powers: seq<int>, last: int)
    requires q > 0 && ChunkPowers(q, powers) && powers != [] && last == powers[|powers| - 1]
    ensures ChunkPowers(q, powers + [Mul(q, last, CHUNK)])
  {
    var i := |powers|;
    Idem(q, last * CHUNK);
    CongMul(q, last, Pow(CHUNK, i - 1), CHUNK, CHUNK);
    assert Pow(CHUNK, i) == Pow(CHUNK, i - 1) * CHUNK;
  }

  /** The powers of 2^16 modulo q; the first is pushed even when none is asked for. */
  method ComputeBPowers(q: int, count: nat) returns (powers: seq<int>)
    requires q > 1
    ensures |powers| == if count == 0 then 1 else count
    ensures ChunkPowers(q, powers)
  {
    powers := [1];
    var i := 1;
    while i < count
      invariant |powers| == i && (i <= count || i == 1)
      invariant ChunkPowers(q, powers)
    {
      NextPower(q, powers, powers[i - 1]);
      powers := powers + [Mul(q, powers[i - 1], CHUNK)];
      i := i + 1;
    }
  }

  lemma AddMulStep(q: int, acc: int, x: int, a: int, b: int)
    requires q > 0 && acc % q == x % q
    ensures Add(q, acc, Mul(q, a, b)) % q == (x + a * b) % q
  {
    Idem(q, a * b);
    AddLift(q, acc, x, Mul(q, a, b), a * b);
    Idem(q, x + a * b);
  }

  lemma Regroup(sum: int, point: int, exact: int, scale: int)
    ensures (sum + point * exact) * scale == sum * scale + point * (scale * exact)
  {
    assert point * (scale * exact) == (point * exact) * scale;
  }

  /** One more chunk of a weighted sum of points. */
  lemma ChunkPointStep(q: int, acc: int, sum: int, point: int, scale: int, power: int, exact: int)
    requires q > 0 && acc % q == (sum * scale) % q && power % q == exact % q
    ensures Add(q, acc, Mul(q, point, Mul(q, scale, power))) % q == ((sum + point * exact) * scale) % q
  {
    Idem(q, scale * power);
    CongMul(q, scale, scale, power, exact);
    AddMulStep(q, acc, sum * scale, point, Mul(q, scale, power));
    CongMul(q, point, point, Mul(q, scale, power), scale * exact);
    CongAdd(q, sum * scale, sum * scale, point * Mul(q, scale, power), point * (scale * exact));
    Regroup(sum, point, exact, scale);
  }

  /** Adds base * (s[i] * 2^(16 i)) for every chunk of s. */
  method AddChunks(q: int, start: int, base: int, s: seq<int>, powers: seq<int>) returns (acc: int)
    requires q > 0 && |powers| >= |s| && ChunkPowers(q, powers)
    ensures acc % q == (start + base * Value(CHUNK, s)) % q
    ensures 0 <= start < q ==> 0 <= acc < q
  {
    acc := start;
    assert base * 0 == 0;
    for i := 0 to |s|
      invariant acc % q == (start + base * Val(CHUNK, s, i)) % q && (0 <= start < q ==> 0 <= acc < q)
    {
      ChunkScalarStep(q, acc, start, base, Val(CHUNK, s, i), s[i], powers[i], Pow(CHUNK, i));
      acc := Add(q, acc, Mul(q, base, Mul(q, s[i], powers[i])));
    }
  }

  lemma ChunkScalarStep(q: int, acc: int, start: int, base: int, sum: int, digit: int, power: int, exact: int)
    requires q > 0 && acc % q == (start + base * sum) % q && power % q == exact % q
    ensures Add(q, acc, Mul(q, base, Mul(q, digit, power))) % q == (start + base * (sum + digit * exact)) % q
  {
    Idem(q, digit * power);
    CongMul(q, digit, digit, power, exact);
    AddMulStep(q, acc, start + base * sum, base, Mul(q, digit, power));
    CongMul(q, base, base, Mul(q, digit, power), digit * exact);
    CongAdd(q, start + base * sum, start + base * sum, base * Mul(q, digit, power), base * (digit * exact));
    assert base * (sum + digit * exact) == base * sum + base * (digit * exact);
  }

  /** Adds points[i] * (scale * 2^(16 i)) for every chunk point. */
  method AddChunkPoints(q: int, points: seq<int>, scale: int, powers: seq<int>) returns (acc: int)
    requires q > 0 && |powers| >= |points| && ChunkPowers(q, powers)
    ensures 0 <= acc < q && acc % q == (Value(CHUNK, points) * scale) % q
  {
    acc := 0;
    assert 0 * scale == 0;
    for i := 0 to |points|
      invariant 0 <= acc < q && acc % q == (Val(CHUNK, points, i) * scale) % q
    {
      ChunkPointStep(q, acc, Val(CHUNK, points, i), points[i], scale, powers[i], Pow(CHUNK, i));
      acc := Add(q, acc, Mul(q, points[i], Mul(q, scale, powers[i])));
    }
  }

  /** What has been pushed so far is a prefix of psi. */
  ghost predicate PsiPrefix(q: int, points: seq<int>, w: seq<int>, ell: nat, n: nat, out: seq<int>)
    requires q > 0 && |points| >= PointsLen(ell, n) && |w| == WitnessLen(ell, n)
  {
    |out| <= CommitmentLen(ell, n) && forall i :: 0 <= i < |out| ==> out[i] == PsiAt(points, w, ell, n, i) % q
  }

  lemma PsiComplete(q: int, points: seq<int>, w: seq<int>, ell: nat, n: nat, out: seq<int>)
    requires q > 0 && |points| >= PointsLen(ell, n) && |w| == WitnessLen(ell, n)
    requires PsiPrefix(q, points, w, ell, n, out) && |out| == CommitmentLen(ell, n)
    ensures out == Psi(q, points, w, ell, n)
  {
  }

  /** From position `at` on, psi consists of commitments to the given values. */
  ghost predicate CommitmentsAt(points: seq<int>, w: seq<int>, ell: nat, n: nat, at: nat,
                                values: seq<int>, blindings: seq<int>)
    requires |points| >= PointsLen(ell, n) && |w| == WitnessLen(ell, n) && |values| == |blindings|
  {
    at + |values| <= CommitmentLen(ell, n) &&
    forall k :: 0 <= k < |values| ==>
      PsiAt(points, w, ell, n, at + k) == Commit(points[IDX_G], points[IDX_H], values[k], blindings[k])
  }

  /** From position `at` on, psi consists of multiples of a base. */
  ghost predicate MultiplesAt(points: seq<int>, w: seq<int>, ell: nat, n: nat, at: nat,
                              base: int, scalars: seq<int>)
    requires |points| >= PointsLen(ell, n) && |w| == WitnessLen(ell, n)
  {
    at + |scalars| <= CommitmentLen(ell, n) &&
    forall k :: 0 <= k < |scalars| ==> PsiAt(points, w, ell, n, at + k) == base * scalars[k]
  }

  lemma HandlesLayout(points: seq<int>, w: seq<int>, ell: nat, n: nat)
    requires |points| >= PointsLen(ell, n) && |w| == WitnessLen(ell, n)
    ensures MultiplesAt(points, w, ell, n, 2 + 2 * ell + n, points[IDX_EK_SID],
                        w[1 + 2 * ell + n..1 + 2 * ell + 2 * n])
    ensures MultiplesAt(points, w, ell, n, 2 + 2 * ell + 2 * n, points[IDX_EK_RID],
                        w[1 + 2 * ell + n..1 + 2 * ell + 2 * n])
  {
  }

  lemma CommitValue(q: int, g: int, h: int, a: int, r: int)
    requires q > 0
    ensures Add(q, Mul(q, g, a), Mul(q, h, r)) == Commit(g, h, a, r) % q
  {
    Idem(q, g * a);
    Idem(q, h * r);
    AddLift(q, Mul(q, g, a), g * a, Mul(q, h, r), h * r);
  }

  method PushCommitments(q: int, points: seq<int>, w: seq<int>, ell: nat, n: nat, out: seq<int>,
                         values: seq<int>, blindings: seq<int>) returns (r: seq<int>)
    requires q > 0 && |points| >= PointsLen(ell, n) && |w| == WitnessLen(ell, n)
    requires PsiPrefix(q, points, w, ell, n, out) && |values| == |blindings|
    requires CommitmentsAt(points, w, ell, n, |out|, values, blindings)
    ensures PsiPrefix(q, points, w, ell, n, r) && |r| == |out| + |values|
  {
    r := out;
    for i := 0 to |values|
      invariant PsiPrefix(q, points, w, ell, n, r) && |r| == |out| + i
    {
      CommitValue(q, points[IDX_G], points[IDX_H], values[i], blindings[i]);
      r := r + [Add(q, Mul(q, points[IDX_G], values[i]), Mul(q, points[IDX_H], blindings[i]))];
    }
  }

  method PushMultiples(q: int, points: seq<int>, w: seq<int>, ell: nat, n: nat, out: seq<int>,
                       base: int, scalars: seq<int>) returns (r: seq<int>)
    requires q > 0 && |points| >= PointsLen(ell, n) && |w| == WitnessLen(ell, n)
    requires PsiPrefix(q, points, w, ell, n, out)
    requires MultiplesAt(points, w, ell, n, |out|, base, scalars)
    ensures PsiPrefix(q, points, w, ell, n, r) && |r| == |out| + |scalars|
  {
    r := out;
    for i := 0 to |scalars|
      invariant PsiPrefix(q, points, w, ell, n, r) && |r| == |out| + i
    {
      r := r + [Mul(q, base, scalars[i])];
    }
  }

  /** The homomorphism psi. */
  method PsiTransfer(q: int, stmt: Statement, w: seq<int>, ell: nat, n: nat,
                     hasEffective: bool, numVolun: nat) returns (r: Result<seq<int>, SigmaError>)
    requires q > 1 && |stmt.points| >= PointsLen(ell, n)
    ensures hasEffective || numVolun > 0 ==> r == Err(AuditorsUnsupported)
    ensures !hasEffective && numVolun == 0 && |w| != WitnessLen(ell, n) ==> r == Err(WitnessLength)
    ensures !hasEffective && numVolun == 0 && |w| == WitnessLen(ell, n) ==>
              r == Ok(Psi(q, stmt.points, w, ell, n))
  {
    if hasEffective || numVolun > 0 { return Err(AuditorsUnsupported); }
    if |w| != WitnessLen(ell, n) { return Err(WitnessLength); }
    var out := NewBalancePoints(q, stmt.points, w, ell, n);
    var balance := BalancePoint(q, stmt.points, w, ell, n);
    out := PushAmount(q, stmt.points, w, ell, n, out + [balance]);
    PsiComplete(q, stmt.points, w, ell, n, out);
    return Ok(out);
  }

  /** Positions 0 to 2*ell: the key and the new balance. */
  method NewBalancePoints(q: int, points: seq<int>, w: seq<int>, ell: nat, n: nat) returns (out: seq<int>)
    requires q > 1 && |points| >= PointsLen(ell, n) && |w| == WitnessLen(ell, n)
    ensures PsiPrefix(q, points, w, ell, n, out) && |out| == 1 + 2 * ell
  {
    var dk := w[0];
    var newA := w[1..1 + ell];
    var newR := w[1 + ell..1 + 2 * ell];
    out := [Mul(q, points[IDX_EK_SID], dk)];
    out := PushCommitments(q, points, w, ell, n, out, newA, newR);
    out := PushMultiples(q, points, w, ell, n, out, points[IDX_EK_SID], newR);
  }

  /** Positions 2 + 2*ell on: the transferred amount and its two handles. */
  method PushAmount(q: int, points: seq<int>, w: seq<int>, ell: nat, n: nat, out: seq<int>) returns (r: seq<int>)
    requires q > 1 && |points| >= PointsLen(ell, n) && |w| == WitnessLen(ell, n)
    requires PsiPrefix(q, points, w, ell, n, out) && |out| == 2 + 2 * ell
    ensures PsiPrefix(q, points, w, ell, n, r) && |r| == CommitmentLen(ell, n)
  {
    var v := w[1 + 2 * ell..1 + 2 * ell + n];
    var rXfer := w[1 + 2 * ell + n..1 + 2 * ell + 2 * n];
    HandlesLayout(points, w, ell, n);
    r := PushCommitments(q, points, w, ell, n, out, v, rXfer);
    r := PushMultiples(q, points, w, ell, n, r, points[IDX_EK_SID], rXfer);
    r := PushMultiples(q, points, w, ell, n, r, points[IDX_EK_RID], rXfer);
  }

  /** The balance equation: dk*<B, old_R> + (<B, new_a> + <B, v>)*G. */
  method BalancePoint(q: int, points: seq<int>, w: seq<int>, ell: nat, n: nat) returns (balance: int)
    requires q > 1 && |points| >= PointsLen(ell, n) && |w| == WitnessLen(ell, n)
    ensures balance == Balance(points, w, ell, n) % q
  {
    var bPowEll := ComputeBPowers(q, ell);
    var bPowN := ComputeBPowers(q, n);
    balance := AddChunkPoints(q, points[4 + ell..4 + 2 * ell], w[0], bPowEll);
    ghost var first := balance;
    balance := AddChunks(q, balance, points[IDX_G], w[1..1 + ell], bPowEll);
    ghost var second := balance;
    balance := AddChunks(q, balance, points[IDX_G], w[1 + 2 * ell..1 + 2 * ell + n], bPowN);
    BalanceSum(q, Value(CHUNK, OldR(points, ell, n)), w[0], points[IDX_G], Value(CHUNK, NewA(w, ell, n)),
               Value(CHUNK, Amount(w, ell, n)), first, second, balance);
  }

  lemma BalanceSum(q: int, R: int, dk: int, g: int, a: int, v: int, first: int, second: int, balance: int)
    requires q > 0 && first % q == (R * dk) % q && second % q == (first + g * a) % q
    requires 0 <= balance < q && balance % q == (second + g * v) % q
    ensures balance == BalanceOf(R, g, dk, a, v) % q
  {
    CongAdd(q, first, R * dk, g * a, g * a);
    CongAdd(q, second, R * dk + g * a, g * v, g * v);
    assert g * (a + v) == g * a + g * v;
    Small(q, balance);
  }

  /** Every point is a group element. */
  predicate ValidPoints(q: int, points: seq<int>) {
    forall i :: 0 <= i < |points| ==> 0 <= points[i] < q
  }

  /** What has been pushed so far is a prefix of f. */
  ghost predicate FPrefix(q: int, points: seq<int>, ell: nat, n: nat, out: seq<int>)
    requires q > 0 && |points| >= PointsLen(ell, n)
  {
    |out| <= CommitmentLen(ell, n) && forall i :: 0 <= i < |out| ==> out[i] == FAt(points, ell, n, i) % q
  }

  lemma FSnoc(q: int, points: seq<int>, ell: nat, n: nat, out: seq<int>, x: int)
    requires q > 0 && |points| >= PointsLen(ell, n)
    requires FPrefix(q, points, ell, n, out) && |out| < CommitmentLen(ell, n)
    requires 0 <= x < q && x % q == FAt(points, ell, n, |out|) % q
    ensures FPrefix(q, points, ell, n, out + [x])
  {
    Small(q, x);
  }

  /** The target f. */
  method FTransfer(q: int, stmt: Statement, ell: nat, n: nat, hasEffective: bool, numVolun: nat)
    returns (r: Result<seq<int>, SigmaError>)
    requires q > 1 && |stmt.points| >= PointsLen(ell, n) && ValidPoints(q, stmt.points)
    ensures hasEffective || numVolun > 0 ==> r == Err(AuditorsUnsupported)
    ensures !hasEffective && numVolun == 0 ==> r == Ok(F(q, stmt.points, ell, n))
  {
    if hasEffective || numVolun > 0 { return Err(AuditorsUnsupported); }
    FSnoc(q, stmt.points, ell, n, [], stmt.points[IDX_H]);
    var out := [] + [stmt.points[IDX_H]];
    out := PushPoints(q, stmt.points, ell, n, out, 4 + 2 * ell, ell);
    out := PushPoints(q, stmt.points, ell, n, out, 4 + 3 * ell, ell);
    var bPowEll := ComputeBPowers(q, ell);
    var target := AddChunkPoints(q, stmt.points[4..4 + ell], 1, bPowEll);
    FSnoc(q, stmt.points, ell, n, out, target);
    out := out + [target];
    out := PushPoints(q, stmt.points, ell, n, out, 4 + 4 * ell, n);
    out := PushPoints(q, stmt.points, ell, n, out, 4 + 4 * ell + n, n);
    out := PushPoints(q, stmt.points, ell, n, out, 4 + 4 * ell + 2 * n, n);
    FComplete(q, stmt.points, ell, n, out);
    return Ok(out);
  }

  lemma FComplete(q: int, points: seq<int>, ell: nat, n: nat, out: seq<int>)
    requires q > 0 && |points| >= PointsLen(ell, n)
    requires FPrefix(q, points, ell, n, out) && |out| == CommitmentLen(ell, n)
    ensures out == F(q, points, ell, n)
  {
  }

  /** Pushes the points from `start` on, which f repeats from position |out| on. */
  method PushPoints(q: int, points: seq<int>, ell: nat, n: nat, out: seq<int>, start: nat, count: nat)
    returns (r: seq<int>)
    requires q > 1 && |points| >= PointsLen(ell, n) && ValidPoints(q, points)
    requires FPrefix(q, points, ell, n, out)
    requires start + count <= |points|
    requires count > 0 ==> start == (if |out| <= 2 * ell then 3 + 2 * ell else 2 + 2 * ell) + |out|
    requires 1 <= |out| && (|out| + count <= 2 * ell + 1 || (2 * ell + 2 <= |out| && |out| + count <= CommitmentLen(ell, n)))
    ensures FPrefix(q, points, ell, n, r) && |r| == |out| + count
  {
    r := out;
    for i := 0 to count
      invariant FPrefix(q, points, ell, n, r) && |r| == |out| + i
    {
      FSnoc(q, points, ell, n, r, points[start + i]);
      r := r + [points[start + i]];
    }
  }

  // ---- prover and verifier -----------------------------------------------------------------

  /** The challenge: two rounds of the hash, reduced modulo q. */
  function Challenge(q: int, sha512: Hash, bcs: seq<u8>): (e: int)
    requires q > 0
    ensures 0 <= e < q
  {
    DecodeReduced(q, sha512(sha512(bcs) + [0]))
  }

  function TranscriptChallenge(q: int, sha512: Hash, dst: DomainSeparator, stmt: Statement,
                               k: nat, commitment: seq<Bytes32>): (e: int)
    requires q > 0
    ensures 0 <= e < q
  {
    Challenge(q, sha512, FiatShamirBytes(dst, Ascii(TYPE_NAME), As64(k), stmt.compressed, stmt.scalars, commitment))
  }

  function As64(k: nat): u64 {
    k % 0x1_0000_0000_0000_0000
  }

  function Compressed(points: seq<int>): (r: seq<Bytes32>)
    requires forall i :: 0 <= i < |points| ==> 0 <= points[i]
    ensures |r| == |points| && forall i :: 0 <= i < |r| ==> r[i] == Encode(points[i])
  {
    seq(|points|, i requires 0 <= i < |points| => Encode(points[i]))
  }

  /** The response alpha + e*w. */
  function Response(q: int, alpha: seq<int>, w: seq<int>, e: int): (r: seq<int>)
    requires q > 0 && |alpha| == |w|
    ensures |r| == |w| && forall i :: 0 <= i < |r| ==> 0 <= r[i] < q && r[i] == (alpha[i] + e * w[i]) % q
  {
    seq(|w|, i requires 0 <= i < |w| => (alpha[i] + e * w[i]) % q)
  }

  lemma ResponseAt(q: int, alpha: seq<int>, w: seq<int>, e: int, i: nat, a: int, x: int)
    requires q > 0 && i < |alpha| == |w| && a == alpha[i] && x == w[i]
    ensures Response(q, alpha, w, e)[i] == (a + e * x) % q
  {
  }

  method ProveTransferSingleParty(q: int, sha512: Hash, w: seq<int>, stmt: Statement, alpha: seq<int>,
                                  dst: DomainSeparator, ell: nat, n: nat, hasEffective: bool, numVolun: nat)
    returns (r: Result<Proof, SigmaError>)
    requires q > 1 && |stmt.points| >= PointsLen(ell, n)
    ensures hasEffective || numVolun > 0 ==> r == Err(AuditorsUnsupported)
    ensures !hasEffective && numVolun == 0 && |w| != WitnessLen(ell, n) ==> r == Err(WitnessLength)
    ensures !hasEffective && numVolun == 0 && |w| == WitnessLen(ell, n) != |alpha| ==> r == Err(AlphaLength)
    ensures !hasEffective && numVolun == 0 && |w| == WitnessLen(ell, n) == |alpha| ==> r.Ok?
    ensures r.Ok? ==> |w| == WitnessLen(ell, n) == |alpha| && r.value.commitment == Compressed(Psi(q, stmt.points, alpha, ell, n))
    ensures r.Ok? ==> r.value.response == Compressed(Response(q, alpha, w,
                        TranscriptChallenge(q, sha512, dst, stmt, |w|, r.value.commitment)))
  {
    if hasEffective || numVolun > 0 { return Err(AuditorsUnsupported); }
    if |w| != WitnessLen(ell, n) { return Err(WitnessLength); }
    if |alpha| != |w| { return Err(AlphaLength); }
    var aPoints := PsiTransfer(q, stmt, alpha, ell, n, false, 0);
    var commitment := Compressed(aPoints.value);
    var bcs := BcsFiatShamirInputs(dst, Ascii(TYPE_NAME), As64(|w|), stmt.compressed, stmt.scalars, commitment);
    var e := Challenge(q, sha512, bcs);
    return Ok(Proof(commitment, Compressed(Response(q, alpha, w, e))));
  }

  /** The scalars that a verifier reads from the response. */
  function Scalars(q: int, response: seq<Bytes32>): (r: seq<int>)
    requires q > 0
    ensures |r| == |response| && forall i :: 0 <= i < |r| ==> 0 <= r[i] < q && r[i] == DecodeReduced(q, response[i])
  {
    seq(|response|, i requires 0 <= i < |response| => DecodeReduced(q, response[i]))
  }

  /** psi(s)[i] = A[i] + e * f[i], for integers s and A. */
  ghost predicate Holds(q: int, points: seq<int>, A: int, e: int, s: seq<int>, ell: nat, n: nat, i: nat)
    requires q > 0 && |points| >= PointsLen(ell, n) && |s| == WitnessLen(ell, n) && i < CommitmentLen(ell, n)
  {
    PsiAt(points, s, ell, n, i) % q == (A + e * FAt(points, ell, n, i)) % q
  }

  /** Position i of the proof decodes and satisfies its equation. */
  ghost predicate PositionOk(q: int, points: seq<int>, commitment: seq<Bytes32>, e: int, s: seq<int>,
                             ell: nat, n: nat, i: nat)
    requires q > 0 && |points| >= PointsLen(ell, n) && |s| == WitnessLen(ell, n)
    requires i < |commitment| == CommitmentLen(ell, n)
  {
    Decode(q, commitment[i]).Some? && Holds(q, points, Decode(q, commitment[i]).value, e, s, ell, n, i)
  }

  ghost predicate AllOk(q: int, points: seq<int>, commitment: seq<Bytes32>, e: int, s: seq<int>,
                        ell: nat, n: nat, k: nat)
    requires q > 0 && |points| >= PointsLen(ell, n) && |s| == WitnessLen(ell, n)
    requires k <= |commitment| == CommitmentLen(ell, n)
  {
    forall i :: 0 <= i < k ==> PositionOk(q, points, commitment, e, s, ell, n, i)
  }

  /** Position i does not hold a point, and all positions before it are fine. */
  ghost predicate StopsAt(q: int, points: seq<int>, commitment: seq<Bytes32>, e: int, s: seq<int>,
                          ell: nat, n: nat, i: nat)
    requires q > 0 && |points| >= PointsLen(ell, n) && |s| == WitnessLen(ell, n)
    requires |commitment| == CommitmentLen(ell, n)
  {
    i < |commitment| && Decode(q, commitment[i]) == None && AllOk(q, points, commitment, e, s, ell, n, i)
  }

  predicate RightShape(proof: Proof, ell: nat, n: nat) {
    |proof.response| == WitnessLen(ell, n) && |proof.commitment| == CommitmentLen(ell, n)
  }

  /** The proof has the right shape, its commitment is made of points, and every equation holds. */
  ghost predicate Accepted(q: int, sha512: Hash, proof: Proof, stmt: Statement, dst: DomainSeparator,
                           ell: nat, n: nat)
    requires q > 0 && |stmt.points| >= PointsLen(ell, n)
  {
    RightShape(proof, ell, n) &&
    AllOk(q, stmt.points, proof.commitment,
          TranscriptChallenge(q, sha512, dst, stmt, |proof.response|, proof.commitment),
          Scalars(q, proof.response), ell, n, |proof.commitment|)
  }

  /** The first position that is not accepted does not even hold a point. */
  ghost predicate StopsAtNonPoint(q: int, sha512: Hash, proof: Proof, stmt: Statement,
                                  dst: DomainSeparator, ell: nat, n: nat)
    requires q > 0 && |stmt.points| >= PointsLen(ell, n)
  {
    RightShape(proof, ell, n) &&
    exists i: nat :: StopsAt(q, stmt.points, proof.commitment,
                        TranscriptChallenge(q, sha512, dst, stmt, |proof.response|, proof.commitment),
                        Scalars(q, proof.response), ell, n, i)
  }

  method VerifyTransferSingleParty(q: int, sha512: Hash, proof: Proof, stmt: Statement,
                                   dst: DomainSeparator, ell: nat, n: nat, hasEffective: bool, numVolun: nat)
    returns (r: Result<bool, SigmaError>)
    requires q > 1 && |stmt.points| >= PointsLen(ell, n) && ValidPoints(q, stmt.points)
    ensures hasEffective || numVolun > 0 ==> r == Err(AuditorsUnsupported)
    ensures !hasEffective && numVolun == 0 ==> (r == Ok(true) <==> Accepted(q, sha512, proof, stmt, dst, ell, n))
    ensures !hasEffective && numVolun == 0 ==>
              (r == Err(WitnessLength) <==> proof.commitment != [] && |proof.response| != WitnessLen(ell, n))
    ensures !hasEffective && numVolun == 0 ==>
              (r == Err(NotAPoint) <==> StopsAtNonPoint(q, sha512, proof, stmt, dst, ell, n))
    ensures r.Err? ==> r.error in {AuditorsUnsupported, WitnessLength, NotAPoint}
  {
    if hasEffective || numVolun > 0 { return Err(AuditorsUnsupported); }
    if |proof.commitment| == 0 { return Ok(false); }
    var sigma := Scalars(q, proof.response);
    var bcs := BcsFiatShamirInputs(dst, Ascii(TYPE_NAME), As64(|proof.response|), stmt.compressed, stmt.scalars,
                                   proof.commitment);
    var e := Challenge(q, sha512, bcs);
    var psiSigma :- PsiTransfer(q, stmt, sigma, ell, n, hasEffective, numVolun);
    var fStmt := FTransfer(q, stmt, ell, n, hasEffective, numVolun);
    if |psiSigma| != |proof.commitment| || |fStmt.value| != |proof.commitment| { return Ok(false); }
    r := CheckPositions(q, stmt.points, proof.commitment, psiSigma, fStmt.value, e, sigma, ell, n);
  }

  method CheckPositions(q: int, points: seq<int>, commitment: seq<Bytes32>, psiSigma: seq<int>, fStmt: seq<int>,
                        e: int, ghost s: seq<int>, ghost ell: nat, ghost n: nat) returns (r: Result<bool, SigmaError>)
    requires q > 1 && |points| >= PointsLen(ell, n) && |s| == WitnessLen(ell, n)
    requires |commitment| == CommitmentLen(ell, n)
    requires psiSigma == Psi(q, points, s, ell, n) && fStmt == F(q, points, ell, n)
    ensures r.Ok? || r == Err(NotAPoint)
    ensures r == Ok(true) <==> AllOk(q, points, commitment, e, s, ell, n, |commitment|)
    ensures r == Err(NotAPoint) <==> exists i: nat :: StopsAt(q, points, commitment, e, s, ell, n, i)
  {
    for i := 0 to |commitment|
      invariant AllOk(q, points, commitment, e, s, ell, n, i)
    {
      var a := Decode(q, commitment[i]);
      if a.None? {
        assert StopsAt(q, points, commitment, e, s, ell, n, i);
        assert !PositionOk(q, points, commitment, e, s, ell, n, i);
        return Err(NotAPoint);
      }
      PositionTest(q, a.value, e, FAt(points, ell, n, i));
      if psiSigma[i] != Add(q, a.value, Mul(q, fStmt[i], e)) {
        FirstFailure(q, points, commitment, e, s, ell, n, i);
        return Ok(false);
      }
      assert PositionOk(q, points, commitment, e, s, ell, n, i);
    }
    forall k: nat | k < |commitment| { OkNeverStops(q, points, commitment, e, s, ell, n, k); }
    return Ok(true);
  }

  lemma FirstFailure(q: int, points: seq<int>, commitment: seq<Bytes32>, e: int, s: seq<int>, ell: nat, n: nat, i: nat)
    requires q > 0 && |points| >= PointsLen(ell, n) && |s| == WitnessLen(ell, n)
    requires i < |commitment| == CommitmentLen(ell, n) && Decode(q, commitment[i]).Some?
    requires AllOk(q, points, commitment, e, s, ell, n, i) && !PositionOk(q, points, commitment, e, s, ell, n, i)
    ensures !AllOk(q, points, commitment, e, s, ell, n, |commitment|)
    ensures forall k: nat :: !StopsAt(q, points, commitment, e, s, ell, n, k)
  {
    forall k: nat | k < i { OkNeverStops(q, points, commitment, e, s, ell, n, k); }
    assert forall k: nat :: k > i && k < |commitment| ==> !AllOk(q, points, commitment, e, s, ell, n, k);
  }

  lemma OkNeverStops(q: int, points: seq<int>, commitment: seq<Bytes32>, e: int, s: seq<int>, ell: nat, n: nat, k: nat)
    requires q > 0 && |points| >= PointsLen(ell, n) && |s| == WitnessLen(ell, n)
    requires k < |commitment| == CommitmentLen(ell, n) && PositionOk(q, points, commitment, e, s, ell, n, k)
    ensures !StopsAt(q, points, commitment, e, s, ell, n, k)
  {
  }

  lemma PositionTest(q: int, a: int, e: int, f: int)
    requires q > 0
    ensures Add(q, a, Mul(q, f % q, e)) == (a + e * f) % q
  {
    Idem(q, f);
    MulLift(q, f % q, f, e, e);
    Idem(q, f * e);
    AddLift(q, a, a, Mul(q, f % q, e), f * e);
  }
}
