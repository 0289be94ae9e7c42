/** Amounts are conserved: what the transfer relation says about the ciphertexts of a statement. */
module Conservation {
  import opened ModArith
  import opened PrimeField
  import opened Digits
  import opened Encoding
  import opened TwistedElGamal
  import opened TransferForm
  import FiatShamir
  import TransferSigma
  import TransferProof

  // ---- what the ciphertexts of a valid statement decrypt to --------------------------------

  lemma OpenLeg(q: int, P: int, D: int, sk: int, pk: int, h: int, g: int, a: int, r: int)
    requires q > 0 && P % q == Commit(g, h, a, r) % q && D % q == (pk * r) % q && (pk * sk) % q == h % q
    ensures Opening(q, Ciphertext(P, D), sk) == Mul(q, g, a)
  {
    CongMul(q, sk, sk, D, pk * r);
    Idem(q, sk * D);
    assert sk * (pk * r) == (pk * sk) * r;
    CongMul(q, pk * sk, h, r, r);
    CongSub(q, P, g * a + h * r, Mul(q, sk, D), h * r);
  }

  /** Chunk i of the new balance decrypts under the sender's key to new_a[i]*G. */
  lemma NewBalanceOpens(q: int, points: seq<int>, w: seq<int>, ell: nat, n: nat, i: nat)
    requires q > 0 && |points| >= PointsLen(ell, n) && |w| == WitnessLen(ell, n) && Relation(q, points, w, ell, n)
    requires i < ell
    ensures Opening(q, Ciphertext(points[4 + 2 * ell + i], points[4 + 3 * ell + i]), w[0])
         == Mul(q, points[IDX_G], w[1 + i])
  {
    PositionZero(q, points, w, ell, n);
    RelationAt(q, points, w, ell, n, 1 + i);
    RelationAt(q, points, w, ell, n, 1 + ell + i);
    OpenLeg(q, points[4 + 2 * ell + i], points[4 + 3 * ell + i], w[0], points[IDX_EK_SID], points[IDX_H],
            points[IDX_G], w[1 + i], w[1 + ell + i]);
  }

  /** The sender and the recipient decrypt the same transferred amount, each with its own key. */
  lemma AmountOpens(q: int, points: seq<int>, w: seq<int>, ell: nat, n: nat, j: nat, recipientKey: int)
    requires q > 0 && |points| >= PointsLen(ell, n) && |w| == WitnessLen(ell, n) && Relation(q, points, w, ell, n)
    requires j < n && (points[IDX_EK_RID] * recipientKey) % q == points[IDX_H] % q
    ensures Opening(q, Ciphertext(points[4 + 4 * ell + j], points[4 + 4 * ell + n + j]), w[0])
         == Opening(q, Ciphertext(points[4 + 4 * ell + j], points[4 + 4 * ell + 2 * n + j]), recipientKey)
         == Mul(q, points[IDX_G], w[1 + 2 * ell + j])
  {
    PositionZero(q, points, w, ell, n);
    RelationAt(q, points, w, ell, n, 2 + 2 * ell + j);
    RelationAt(q, points, w, ell, n, 2 + 2 * ell + n + j);
    RelationAt(q, points, w, ell, n, 2 + 2 * ell + 2 * n + j);
    OpenLeg(q, points[4 + 4 * ell + j], points[4 + 4 * ell + n + j], w[0], points[IDX_EK_SID], points[IDX_H],
            points[IDX_G], w[1 + 2 * ell + j], w[1 + 2 * ell + n + j]);
    OpenLeg(q, points[4 + 4 * ell + j], points[4 + 4 * ell + 2 * n + j], recipientKey, points[IDX_EK_RID],
            points[IDX_H], points[IDX_G], w[1 + 2 * ell + j], w[1 + 2 * ell + n + j]);
  }

  lemma RelationAt(q: int, points: seq<int>, w: seq<int>, ell: nat, n: nat, i: nat)
    requires q > 0 && |points| >= PointsLen(ell, n) && |w| == WitnessLen(ell, n) && Relation(q, points, w, ell, n)
    requires i < CommitmentLen(ell, n)
    ensures PsiAt(points, w, ell, n, i) % q == FAt(points, ell, n, i) % q
  {
  }

  /** Position 0 says dk*ek = H. */
  lemma PositionZero(q: int, points: seq<int>, w: seq<int>, ell: nat, n: nat)
    requires q > 0 && |points| >= PointsLen(ell, n) && |w| == WitnessLen(ell, n) && Relation(q, points, w, ell, n)
    ensures (points[IDX_EK_SID] * w[0]) % q == points[IDX_H] % q
  {
    RelationAt(q, points, w, ell, n, 0);
  }

  // ---- conservation ------------------------------------------------------------------------

  /** The old balance decrypts chunk by chunk to old[i]*G. */
  ghost predicate OldBalanceOpens(q: int, points: seq<int>, dk: int, ell: nat, n: nat, oldChunks: seq<int>)
    requires q > 0 && |points| >= PointsLen(ell, n) && |oldChunks| == ell
  {
    forall i :: 0 <= i < ell ==>
      Opening(q, Ciphertext(points[4 + i], points[4 + ell + i]), dk) == Mul(q, points[0], oldChunks[i])
  }

  /** The old balance chunks are encryptions under the sender's key, whatever the blindings. */
  ghost predicate OldBalanceEncrypts(q: int, points: seq<int>, ell: nat, n: nat, oldChunks: seq<int>, blindings: seq<int>)
    requires q > 0 && |points| >= PointsLen(ell, n) && |oldChunks| == |blindings| == ell
  {
    forall i :: 0 <= i < ell ==>
      Ciphertext(points[4 + i], points[4 + ell + i])
      == Encrypt(q, points[0], points[1], oldChunks[i], points[2], blindings[i])
  }

  /** Then they open under the key of any valid witness, since position 0 makes it the key of ek. */
  lemma EncryptedBalanceOpens(q: int, points: seq<int>, w: seq<int>, ell: nat, n: nat, oldChunks: seq<int>,
                              blindings: seq<int>)
    requires q > 0 && |points| >= PointsLen(ell, n) && |w| == WitnessLen(ell, n) && Relation(q, points, w, ell, n)
    requires |oldChunks| == |blindings| == ell && OldBalanceEncrypts(q, points, ell, n, oldChunks, blindings)
    ensures OldBalanceOpens(q, points, w[0], ell, n, oldChunks)
  {
    PositionZero(q, points, w, ell, n);
    assert points[IDX_EK_SID] * w[0] == w[0] * points[IDX_EK_SID];
    forall i | 0 <= i < ell
      ensures Opening(q, Ciphertext(points[4 + i], points[4 + ell + i]), w[0]) == Mul(q, points[0], oldChunks[i])
    {
      OpeningOfEncryption(q, points[IDX_G], points[IDX_H], oldChunks[i], points[IDX_EK_SID], blindings[i], w[0]);
    }
  }

  function Times(g: int, s: seq<int>): (r: seq<int>)
    ensures |r| == |s| && forall i :: 0 <= i < |s| ==> r[i] == g * s[i]
  {
    seq(|s|, i requires 0 <= i < |s| => g * s[i])
  }

  lemma {:induction false} ValueTimes(base: int, g: int, s: seq<int>, k: nat)
    requires k <= |s|
    ensures Val(base, Times(g, s), k) == g * Val(base, s, k)
  {
    if k == 0 {
      assert g * 0 == 0;
    } else {
      ValueTimes(base, g, s, k - 1);
      ValStep(base, s, k);
      ValStep(base, Times(g, s), k);
      TimesStep(g, Val(base, s, k - 1), Pow(base, k - 1), s[k - 1]);
    }
  }

  lemma TimesStep(g: int, v: int, p: int, d: int)
    ensures g * (v + p * d) == g * v + p * (g * d)
  {
    assert p * (g * d) == g * (p * d);
  }

  lemma OpenChunk(q: int, P: int, D: int, dk: int, ga: int)
    requires q > 0 && Opening(q, Ciphertext(P, D), dk) == ga % q
    ensures P % q == (ga + dk * D) % q
  {
    Idem(q, dk * D);
    Idem(q, ga);
    Idem(q, P - Mul(q, dk, D));
    CongAdd(q, P - Mul(q, dk, D), ga, Mul(q, dk, D), dk * D);
  }

  /** The weighted sum of the old C chunks: G times the old balance plus dk times the D chunks. */
  lemma OldBalanceSum(q: int, points: seq<int>, dk: int, ell: nat, n: nat, oldChunks: seq<int>)
    requires q > 0 && |points| >= PointsLen(ell, n) && |oldChunks| == ell && OldBalanceOpens(q, points, dk, ell, n, oldChunks)
    ensures Value(CHUNK, OldP(points, ell, n)) % q
         == (points[IDX_G] * Value(CHUNK, oldChunks) + dk * Value(CHUNK, OldR(points, ell, n))) % q
  {
    var (P, D) := (OldP(points, ell, n), OldR(points, ell, n));
    var a := Times(points[IDX_G], oldChunks);
    forall i | 0 <= i < ell ensures P[i] % q == (a[i] + dk * D[i]) % q {
      OpenChunk(q, P[i], D[i], dk, points[IDX_G] * oldChunks[i]);
    }
    ValueLinear(q, CHUNK, a, D, dk, P, ell);
    ValueTimes(CHUNK, points[IDX_G], oldChunks, ell);
  }

  lemma CancelHandles(q: int, g: int, oldP: int, oldR: int, dk: int, oldChunks: int, spent: int)
    requires IsPrime(q) && g % q != 0
    requires oldP % q == (g * oldChunks + dk * oldR) % q && (oldR * dk + g * spent) % q == oldP % q
    ensures oldChunks % q == spent % q
  {
    assert dk * oldR == oldR * dk;
    CongSub(q, g * oldChunks + dk * oldR, oldR * dk + g * spent, oldR * dk, oldR * dk);
    Cancel(q, g, oldChunks, spent);
  }

  /** Position 2*ell+1 modulo q: the old balance is the new balance plus the amount. */
  lemma ConservedModQ(q: int, points: seq<int>, w: seq<int>, ell: nat, n: nat, oldChunks: seq<int>)
    requires IsPrime(q) && |points| >= PointsLen(ell, n) && |w| == WitnessLen(ell, n) && Relation(q, points, w, ell, n)
    requires points[IDX_G] % q != 0 && |oldChunks| == ell && OldBalanceOpens(q, points, w[0], ell, n, oldChunks)
    ensures Value(0x1_0000, oldChunks) % q
         == (Value(0x1_0000, w[1..1 + ell]) + Value(0x1_0000, w[1 + 2 * ell..1 + 2 * ell + n])) % q
  {
    OldBalanceSum(q, points, w[0], ell, n, oldChunks);
    RelationAt(q, points, w, ell, n, 2 * ell + 1);
    CancelHandles(q, points[IDX_G], Value(CHUNK, OldP(points, ell, n)), Value(CHUNK, OldR(points, ell, n)), w[0],
                  Value(CHUNK, oldChunks), Value(CHUNK, NewA(w, ell, n)) + Value(CHUNK, Amount(w, ell, n)));
  }

  // ---- what the relation says ----------------------------------------------------------------

  /** Where the parts of a witness stand. */
  lemma WitnessParts(dk: int, a: seq<int>, r: seq<int>, v: seq<int>, x: seq<int>, ell: nat, n: nat)
    requires |a| == |r| == ell && |v| == |x| == n
    ensures var w := [dk] + a + r + v + x;
            |w| == WitnessLen(ell, n) && w[0] == dk && w[1..1 + ell] == a && w[1 + 2 * ell..1 + 2 * ell + n] == v &&
            w[1 + ell..1 + 2 * ell] == r && w[1 + 2 * ell + n..1 + 2 * ell + 2 * n] == x
  {
  }

  /** The statement's ciphertexts: old and new balance under ek, the amount under ek and the recipient's key. */
  ghost predicate Encrypts(q: int, points: seq<int>, c: nat, d: nat, key: int, i: nat, value: int, blinding: int)
    requires q > 0 && |points| > 1 && c + i < |points| && d + i < |points|
  {
    points[c + i] % q == (points[0] * value + points[1] * blinding) % q && points[d + i] % q == (key * blinding) % q
  }

  lemma OldChunksOpen(q: int, points: seq<int>, dk: int, ell: nat, n: nat, before: seq<int>, s: seq<int>)
    requires q > 0 && |points| >= PointsLen(ell, n) && |before| == |s| == ell && (points[2] * dk) % q == points[1] % q
    requires forall i :: 0 <= i < ell ==> Encrypts(q, points, 4, 4 + ell, points[2], i, before[i], s[i])
    ensures OldBalanceOpens(q, points, dk, ell, n, before)
  {
    forall i | 0 <= i < ell
      ensures Opening(q, Ciphertext(points[4 + i], points[4 + ell + i]), dk) == Mul(q, points[0], before[i])
    {
      assert Encrypts(q, points, 4, 4 + ell, points[2], i, before[i], s[i]);
      OpenLeg(q, points[4 + i], points[4 + ell + i], dk, points[2], points[1], points[0], before[i], s[i]);
    }
  }

  lemma BalanceHolds(q: int, points: seq<int>, w: seq<int>, ell: nat, n: nat, before: seq<int>)
    requires q > 0 && |points| >= PointsLen(ell, n) && |w| == WitnessLen(ell, n) && |before| == ell
    requires OldBalanceOpens(q, points, w[0], ell, n, before)
    requires Value(CHUNK, before) % q == (Value(CHUNK, NewA(w, ell, n)) + Value(CHUNK, Amount(w, ell, n))) % q
    ensures Balance(points, w, ell, n) % q == Value(CHUNK, OldP(points, ell, n)) % q
  {
    var (g, R) := (points[0], Value(CHUNK, OldR(points, ell, n)));
    var spent := Value(CHUNK, NewA(w, ell, n)) + Value(CHUNK, Amount(w, ell, n));
    OldBalanceSum(q, points, w[0], ell, n, before);
    CongMul(q, g, g, Value(CHUNK, before), spent);
    CongAdd(q, g * Value(CHUNK, before), g * spent, w[0] * R, R * w[0]);
  }

  /** New chunk i is encrypted under ek with the witness's value and blinding. */
  ghost predicate NewEncrypted(q: int, points: seq<int>, w: seq<int>, ell: nat, n: nat, i: nat)
    requires q > 0 && |points| >= PointsLen(ell, n) && |w| == WitnessLen(ell, n) && i < ell
  {
    Encrypts(q, points, 4 + 2 * ell, 4 + 3 * ell, points[2], i, w[1 + i], w[1 + ell + i])
  }

  /** Amount chunk j is encrypted under ek and under the recipient's key. */
  ghost predicate AmountEncrypted(q: int, points: seq<int>, w: seq<int>, ell: nat, n: nat, j: nat)
    requires q > 0 && |points| >= PointsLen(ell, n) && |w| == WitnessLen(ell, n) && j < n
  {
    Encrypts(q, points, 4 + 4 * ell, 4 + 4 * ell + n, points[2], j, w[1 + 2 * ell + j], w[1 + 2 * ell + n + j]) &&
    Encrypts(q, points, 4 + 4 * ell, 4 + 4 * ell + 2 * n, points[3], j, w[1 + 2 * ell + j], w[1 + 2 * ell + n + j])
  }

  /** The statement's new balance and amount encrypt what the witness says. */
  ghost predicate WitnessEncrypted(q: int, points: seq<int>, w: seq<int>, ell: nat, n: nat)
    requires q > 0 && |points| >= PointsLen(ell, n) && |w| == WitnessLen(ell, n)
  {
    && (forall i :: 0 <= i < ell ==> NewEncrypted(q, points, w, ell, n, i))
    && (forall j :: 0 <= j < n ==> AmountEncrypted(q, points, w, ell, n, j))
  }

  /** Positions 1 to 2*ell hold when the new chunks are encrypted under ek. */
  lemma NewBalanceHolds(q: int, points: seq<int>, w: seq<int>, ell: nat, n: nat, i: nat)
    requires q > 0 && |points| >= PointsLen(ell, n) && |w| == WitnessLen(ell, n) && i < ell
    requires NewEncrypted(q, points, w, ell, n, i)
    ensures PsiAt(points, w, ell, n, 1 + i) % q == FAt(points, ell, n, 1 + i) % q
    ensures PsiAt(points, w, ell, n, 1 + ell + i) % q == FAt(points, ell, n, 1 + ell + i) % q
  {
  }

  /** Positions 2 + 2*ell on hold when the amount is encrypted under both keys. */
  lemma AmountHolds(q: int, points: seq<int>, w: seq<int>, ell: nat, n: nat, j: nat)
    requires q > 0 && |points| >= PointsLen(ell, n) && |w| == WitnessLen(ell, n) && j < n
    requires AmountEncrypted(q, points, w, ell, n, j)
    ensures PsiAt(points, w, ell, n, 2 + 2 * ell + j) % q == FAt(points, ell, n, 2 + 2 * ell + j) % q
    ensures PsiAt(points, w, ell, n, 2 + 2 * ell + n + j) % q == FAt(points, ell, n, 2 + 2 * ell + n + j) % q
    ensures PsiAt(points, w, ell, n, 2 + 2 * ell + 2 * n + j) % q == FAt(points, ell, n, 2 + 2 * ell + 2 * n + j) % q
  {
  }

  lemma PositionHolds(q: int, points: seq<int>, w: seq<int>, ell: nat, n: nat, i: nat)
    requires q > 0 && |points| >= PointsLen(ell, n) && |w| == WitnessLen(ell, n) && i < CommitmentLen(ell, n)
    requires WitnessEncrypted(q, points, w, ell, n) && (points[2] * w[0]) % q == points[1] % q
    requires Balance(points, w, ell, n) % q == Value(CHUNK, OldP(points, ell, n)) % q
    ensures PsiAt(points, w, ell, n, i) % q == FAt(points, ell, n, i) % q
  {
    if 1 <= i <= 2 * ell {
      NewBalanceHolds(q, points, w, ell, n, if i <= ell then i - 1 else i - 1 - ell);
    } else if 2 * ell + 2 <= i {
      var j := i - 2 - 2 * ell;
      AmountHolds(q, points, w, ell, n, if j < n then j else if j < 2 * n then j - n else j - 2 * n);
    }
  }

  /** The relation of a witness whose chunks are encrypted in the statement. */
  lemma RelationOfWitness(q: int, points: seq<int>, w: seq<int>, dk: int, a: seq<int>, v: seq<int>, before: seq<int>,
                          s: seq<int>, ell: nat, n: nat)
    requires IsPrime(q) && |points| >= PointsLen(ell, n) && points[0] % q != 0 && |w| == WitnessLen(ell, n)
    requires w[0] == dk && w[1..1 + ell] == a && w[1 + 2 * ell..1 + 2 * ell + n] == v
    requires |before| == |s| == ell && WitnessEncrypted(q, points, w, ell, n)
    requires forall i :: 0 <= i < ell ==> Encrypts(q, points, 4, 4 + ell, points[2], i, before[i], s[i])
    ensures Relation(q, points, w, ell, n) <==>
            (points[2] * dk) % q == points[1] % q &&
            Value(0x1_0000, before) % q == (Value(0x1_0000, a) + Value(0x1_0000, v)) % q
  {
    if Relation(q, points, w, ell, n) {
      PositionZero(q, points, w, ell, n);
      OldChunksOpen(q, points, w[0], ell, n, before, s);
      ConservedModQ(q, points, w, ell, n, before);
    } else if (points[2] * w[0]) % q == points[1] % q &&
              Value(CHUNK, before) % q == (Value(CHUNK, NewA(w, ell, n)) + Value(CHUNK, Amount(w, ell, n))) % q {
      OldChunksOpen(q, points, w[0], ell, n, before, s);
      BalanceHolds(q, points, w, ell, n, before);
      forall i | 0 <= i < CommitmentLen(ell, n)
        ensures PsiAt(points, w, ell, n, i) % q == FAt(points, ell, n, i) % q
      {
        PositionHolds(q, points, w, ell, n, i);
      }
    }
  }

  lemma OldFromParts(q: int, points: seq<int>, before: seq<int>, s: seq<int>, ell: nat, n: nat)
    requires q > 0 && |points| >= PointsLen(ell, n) && |before| == |s| == ell
    requires forall i :: 0 <= i < ell ==> points[4 + i] % q == (points[0] * before[i] + points[1] * s[i]) % q
    requires forall i :: 0 <= i < ell ==> points[4 + ell + i] % q == (points[2] * s[i]) % q
    ensures forall i :: 0 <= i < ell ==> Encrypts(q, points, 4, 4 + ell, points[2], i, before[i], s[i])
  {
  }

  lemma NewFromParts(q: int, points: seq<int>, w: seq<int>, a: seq<int>, r: seq<int>, ell: nat, n: nat)
    requires q > 0 && |points| >= PointsLen(ell, n) && |w| == WitnessLen(ell, n)
    requires w[1..1 + ell] == a && w[1 + ell..1 + 2 * ell] == r
    requires forall i :: 0 <= i < ell ==> points[4 + 2 * ell + i] % q == (points[0] * a[i] + points[1] * r[i]) % q
    requires forall i :: 0 <= i < ell ==> points[4 + 3 * ell + i] % q == (points[2] * r[i]) % q
    ensures forall i :: 0 <= i < ell ==> NewEncrypted(q, points, w, ell, n, i)
  {
    forall i | 0 <= i < ell ensures NewEncrypted(q, points, w, ell, n, i) {
      assert w[1 + i] == a[i] && w[1 + ell + i] == r[i];
    }
  }

  lemma AmountFromParts(q: int, points: seq<int>, w: seq<int>, v: seq<int>, x: seq<int>, ell: nat, n: nat)
    requires q > 0 && |points| >= PointsLen(ell, n) && |w| == WitnessLen(ell, n)
    requires w[1 + 2 * ell..1 + 2 * ell + n] == v && w[1 + 2 * ell + n..1 + 2 * ell + 2 * n] == x
    requires forall j :: 0 <= j < n ==> points[4 + 4 * ell + j] % q == (points[0] * v[j] + points[1] * x[j]) % q
    requires forall j :: 0 <= j < n ==> points[4 + 4 * ell + n + j] % q == (points[2] * x[j]) % q
    requires forall j :: 0 <= j < n ==> points[4 + 4 * ell + 2 * n + j] % q == (points[3] * x[j]) % q
    ensures forall j :: 0 <= j < n ==> AmountEncrypted(q, points, w, ell, n, j)
  {
    forall j | 0 <= j < n ensures AmountEncrypted(q, points, w, ell, n, j) {
      assert w[1 + 2 * ell + j] == v[j] && w[1 + 2 * ell + n + j] == x[j];
    }
  }

  /**
   The relation in terms of what the statement encrypts: the witness made of the key, the new
   chunks, their blindings, the amount and its blindings is valid if and only if the key belongs to
   ek and the old balance is the new balance plus the amount.
   */
  lemma RelationOfEncryptions(q: int, points: seq<int>, dk: int, a: seq<int>, r: seq<int>, v: seq<int>, x: seq<int>,
                              before: seq<int>, s: seq<int>, w: seq<int>, ell: nat, n: nat)
    requires IsPrime(q) && |points| >= 4 + 4 * ell + 3 * n && points[0] % q != 0
    requires |a| == |r| == |before| == |s| == ell && |v| == |x| == n && w == [dk] + a + r + v + x
    requires forall i :: 0 <= i < ell ==> points[4 + i] % q == (points[0] * before[i] + points[1] * s[i]) % q
    requires forall i :: 0 <= i < ell ==> points[4 + ell + i] % q == (points[2] * s[i]) % q
    requires forall i :: 0 <= i < ell ==> points[4 + 2 * ell + i] % q == (points[0] * a[i] + points[1] * r[i]) % q
    requires forall i :: 0 <= i < ell ==> points[4 + 3 * ell + i] % q == (points[2] * r[i]) % q
    requires forall j :: 0 <= j < n ==> points[4 + 4 * ell + j] % q == (points[0] * v[j] + points[1] * x[j]) % q
    requires forall j :: 0 <= j < n ==> points[4 + 4 * ell + n + j] % q == (points[2] * x[j]) % q
    requires forall j :: 0 <= j < n ==> points[4 + 4 * ell + 2 * n + j] % q == (points[3] * x[j]) % q
    ensures |w| == WitnessLen(ell, n)
    ensures Relation(q, points, w, ell, n) <==>
            (points[2] * dk) % q == points[1] % q &&
            Value(0x1_0000, before) % q == (Value(0x1_0000, a) + Value(0x1_0000, v)) % q
  {
    WitnessParts(dk, a, r, v, x, ell, n);
    OldFromParts(q, points, before, s, ell, n);
    NewFromParts(q, points, w, a, r, ell, n);
    AmountFromParts(q, points, w, v, x, ell, n);
    RelationOfWitness(q, points, w, dk, a, v, before, s, ell, n);
  }

  lemma {:induction false} ValueBound(s: seq<int>, m: int, k: nat)
    requires m >= 1 && k <= |s| && forall i :: 0 <= i < |s| ==> 0 <= s[i] < m
    ensures 0 <= Val(CHUNK, s, k) <= m * Pow(CHUNK, k)
  {
    if k > 0 {
      ValueBound(s, m, k - 1);
      PowPos(CHUNK, k - 1);
      ValueBoundStep(Val(CHUNK, s, k - 1), s[k - 1], m, Pow(CHUNK, k - 1));
    }
  }

  lemma ValueBoundStep(v: int, d: int, m: int, p: int)
    requires 0 <= v <= m * p && 0 <= d < m && p > 0
    ensures 0 <= v + d * p <= m * (CHUNK * p)
  {
    MulMono(p, 0, d);
    MulMono(p, d, m);
    MulMono(p, 0, m);
    assert m * (CHUNK * p) == CHUNK * (m * p);
  }

  lemma BalanceFits(oldChunks: seq<u64>, newA: seq<int>, amount: seq<int>)
    requires |oldChunks| == |newA| == 8 && |amount| == 4
    requires forall i :: 0 <= i < 8 ==> 0 <= newA[i] < CHUNK
    requires forall j :: 0 <= j < 4 ==> 0 <= amount[j] < CHUNK
    ensures 0 <= Value(CHUNK, oldChunks) < Q && 0 <= Value(CHUNK, newA) + Value(CHUNK, amount) < Q
  {
    ValueBound(oldChunks, 0x1_0000_0000_0000_0000, 8);
    ValueBound(newA, CHUNK, 8);
    ValueBound(amount, CHUNK, 4);
    assert Pow(CHUNK, 2) == 0x1_0000_0000 by { assert Pow(CHUNK, 1) == CHUNK; }
    PowAdd(CHUNK, 2, 2);
    PowAdd(CHUNK, 4, 4);
  }

  /**
   Conservation over the integers, for the shape the bridge uses (8 balance chunks, 4 amount chunks
   of 16 bits; old chunks may have grown to any 64-bit value before normalisation).
   */
  lemma Conserved(points: seq<int>, w: seq<int>, oldChunks: seq<u64>)
    requires IsPrime(Q) && |points| >= PointsLen(8, 4) && |w| == WitnessLen(8, 4) && Relation(Q, points, w, 8, 4)
    requires points[IDX_G] % Q != 0 && |oldChunks| == 8 && OldBalanceOpens(Q, points, w[0], 8, 4, oldChunks)
    requires forall i :: 1 <= i < 9 || 17 <= i < 21 ==> 0 <= w[i] < 0x1_0000
    ensures Value(0x1_0000, oldChunks) == Value(0x1_0000, w[1..9]) + Value(0x1_0000, w[17..21])
  {
    ConservedModQ(Q, points, w, 8, 4, oldChunks);
    BalanceFits(oldChunks, NewA(w, 8, 4), Amount(w, 8, 4));
    Small(Q, Value(CHUNK, oldChunks));
    Small(Q, Value(CHUNK, NewA(w, 8, 4)) + Value(CHUNK, Amount(w, 8, 4)));
  }

  /** ... and so for whatever witness two accepted proofs of one commitment contain. */
  lemma AcceptedTransferConserves(sha: Hash, sha': Hash,
                                  p: TransferSigma.Proof, p': TransferSigma.Proof, stmt: TransferSigma.Statement,
                                  dst: FiatShamir.DomainSeparator, w: seq<int>, oldChunks: seq<u64>)
    requires IsPrime(Q) && |stmt.points| >= PointsLen(8, 4) && p.commitment == p'.commitment
    requires TransferSigma.Accepted(Q, sha, p, stmt, dst, 8, 4) && TransferSigma.Accepted(Q, sha', p', stmt, dst, 8, 4)
    requires TransferProof.HonestChallenge(Q, sha, p, stmt, dst) != TransferProof.HonestChallenge(Q, sha', p', stmt, dst)
    requires w == TransferProof.Extracted(Q, TransferSigma.Scalars(Q, p.response), TransferSigma.Scalars(Q, p'.response),
                    TransferProof.HonestChallenge(Q, sha, p, stmt, dst), TransferProof.HonestChallenge(Q, sha', p', stmt, dst))
    requires stmt.points[IDX_G] % Q != 0 && |oldChunks| == 8 && OldBalanceOpens(Q, stmt.points, w[0], 8, 4, oldChunks)
    requires forall i :: 1 <= i < 9 || 17 <= i < 21 ==> 0 <= w[i] < 0x1_0000
    ensures Value(0x1_0000, oldChunks) == Value(0x1_0000, w[1..9]) + Value(0x1_0000, w[17..21])
  {
    TransferProof.AcceptedTwice(Q, sha, sha', p, p', stmt, dst, 8, 4);
    Conserved(stmt.points, w, oldChunks);
  }

  /**
   The same with a hypothesis about the ciphertexts alone: the old balance need only be encrypted
   under the statement's sender key, since position 0 makes the extracted key the key of ek.
   */
  lemma EncryptedBalanceConserved(sha: Hash, sha': Hash,
                                  p: TransferSigma.Proof, p': TransferSigma.Proof, stmt: TransferSigma.Statement,
                                  dst: FiatShamir.DomainSeparator, w: seq<int>, oldChunks: seq<u64>,
                                  blindings: seq<int>)
    requires IsPrime(Q) && |stmt.points| >= PointsLen(8, 4) && p.commitment == p'.commitment
    requires TransferSigma.Accepted(Q, sha, p, stmt, dst, 8, 4) && TransferSigma.Accepted(Q, sha', p', stmt, dst, 8, 4)
    requires TransferProof.HonestChallenge(Q, sha, p, stmt, dst) != TransferProof.HonestChallenge(Q, sha', p', stmt, dst)
    requires w == TransferProof.Extracted(Q, TransferSigma.Scalars(Q, p.response), TransferSigma.Scalars(Q, p'.response),
                    TransferProof.HonestChallenge(Q, sha, p, stmt, dst), TransferProof.HonestChallenge(Q, sha', p', stmt, dst))
    requires stmt.points[IDX_G] % Q != 0 && |oldChunks| == |blindings| == 8
    requires OldBalanceEncrypts(Q, stmt.points, 8, 4, oldChunks, blindings)
    requires forall i :: 1 <= i < 9 || 17 <= i < 21 ==> 0 <= w[i] < 0x1_0000
    ensures Value(0x1_0000, oldChunks) == Value(0x1_0000, w[1..9]) + Value(0x1_0000, w[17..21])
  {
    TransferProof.AcceptedTwice(Q, sha, sha', p, p', stmt, dst, 8, 4);
    EncryptedBalanceOpens(Q, stmt.points, w, 8, 4, oldChunks, blindings);
    Conserved(stmt.points, w, oldChunks);
  }
}
