/**
 The transfer relation of `transfer_sigma_reference.rs`, as the integer forms whose residues the
 homomorphism psi and the target f compute.
 */
module TransferForm {
  import opened ModArith
  import opened PrimeField
  import opened Digits

  const CHUNK: int := 0x1_0000
  const IDX_G: nat := 0
  const IDX_H: nat := 1
  const IDX_EK_SID: nat := 2
  const IDX_EK_RID: nat := 3

  function WitnessLen(ell: nat, n: nat): nat {
    1 + 2 * ell + 2 * n
  }

  function CommitmentLen(ell: nat, n: nat): nat {
    2 + 2 * ell + 3 * n
  }

  function PointsLen(ell: nat, n: nat): nat {
    4 + 4 * ell + 3 * n
  }

  /** The parts of a witness: [dk, new_a (ell), new_r (ell), v (n), r (n)]. */
  function NewA(w: seq<int>, ell: nat, n: nat): (r: seq<int>)
    requires |w| == WitnessLen(ell, n)
    ensures |r| == ell
  {
    w[1..1 + ell]
  }

  function Amount(w: seq<int>, ell: nat, n: nat): (r: seq<int>)
    requires |w| == WitnessLen(ell, n)
    ensures |r| == n
  {
    w[1 + 2 * ell..1 + 2 * ell + n]
  }

  function OldP(points: seq<int>, ell: nat, n: nat): (r: seq<int>)
    requires |points| >= PointsLen(ell, n)
    ensures |r| == ell
  {
    points[4..4 + ell]
  }

  function OldR(points: seq<int>, ell: nat, n: nat): (r: seq<int>)
    requires |points| >= PointsLen(ell, n)
    ensures |r| == ell
  {
    points[4 + ell..4 + 2 * ell]
  }

  /** A Pedersen commitment to a under blinding r. */
  function Commit(g: int, h: int, a: int, r: int): int {
    g * a + h * r
  }

  function BalanceOf(oldR: int, g: int, dk: int, newA: int, amount: int): int {
    oldR * dk + g * (newA + amount)
  }

  /** The balance form: dk times the old D chunks, plus G times the new chunks and the amount. */
  function Balance(points: seq<int>, w: seq<int>, ell: nat, n: nat): int
    requires |points| >= PointsLen(ell, n) && |w| == WitnessLen(ell, n)
  {
    BalanceOf(Value(CHUNK, OldR(points, ell, n)), points[IDX_G], w[0],
              Value(CHUNK, NewA(w, ell, n)), Value(CHUNK, Amount(w, ell, n)))
  }

  /** Position i of psi, for i below 2 + 2*ell + 3*n. */
  function PsiAt(points: seq<int>, w: seq<int>, ell: nat, n: nat, i: nat): int
    requires |points| >= PointsLen(ell, n) && |w| == WitnessLen(ell, n) && i < CommitmentLen(ell, n)
  {
    if i == 0 then points[IDX_EK_SID] * w[0]
    else if i <= ell then Commit(points[IDX_G], points[IDX_H], w[i], w[ell + i])
    else if i <= 2 * ell then points[IDX_EK_SID] * w[i]
    else if i == 2 * ell + 1 then Balance(points, w, ell, n)
    else if i < 2 + 2 * ell + n then Commit(points[IDX_G], points[IDX_H], w[i - 1], w[n + i - 1])
    else if i < 2 + 2 * ell + 2 * n then points[IDX_EK_SID] * w[i - 1]
    else points[IDX_EK_RID] * w[i - 1 - n]
  }

  /** Position i of the target f. */
  function FAt(points: seq<int>, ell: nat, n: nat, i: nat): int
    requires |points| >= PointsLen(ell, n) && i < CommitmentLen(ell, n)
  {
    if i == 0 then points[IDX_H]
    else if i <= 2 * ell then points[3 + 2 * ell + i]
    else if i == 2 * ell + 1 then Value(CHUNK, OldP(points, ell, n))
    else points[2 + 2 * ell + i]
  }

  /** Position 0 is the key, position 2*ell+1 the balance. */
  lemma KeyLayout(points: seq<int>, w: seq<int>, ell: nat, n: nat)
    requires |points| >= PointsLen(ell, n) && |w| == 1 + 2 * ell + 2 * n
    ensures PsiAt(points, w, ell, n, 0) == points[2] * w[0] && FAt(points, ell, n, 0) == points[1]
    ensures PsiAt(points, w, ell, n, 2 * ell + 1)
         == Value(0x1_0000, points[4 + ell..4 + 2 * ell]) * w[0] +
            points[0] * (Value(0x1_0000, w[1..1 + ell]) + Value(0x1_0000, w[1 + 2 * ell..1 + 2 * ell + n]))
    ensures FAt(points, ell, n, 2 * ell + 1) == Value(0x1_0000, points[4..4 + ell])
  {
  }

  /** Where chunk i of the new balance stands. */
  lemma BalanceLayout(points: seq<int>, w: seq<int>, ell: nat, n: nat, i: nat)
    requires |points| >= PointsLen(ell, n) && |w| == 1 + 2 * ell + 2 * n && i < ell
    ensures PsiAt(points, w, ell, n, 1 + i) == points[0] * w[1 + i] + points[1] * w[1 + ell + i]
    ensures PsiAt(points, w, ell, n, 1 + ell + i) == points[2] * w[1 + ell + i]
    ensures FAt(points, ell, n, 1 + i) == points[4 + 2 * ell + i]
    ensures FAt(points, ell, n, 1 + ell + i) == points[4 + 3 * ell + i]
  {
  }

  /** Where chunk j of the amount stands: its commitment, the sender's handle, the recipient's handle. */
  lemma AmountLayout(points: seq<int>, w: seq<int>, ell: nat, n: nat, j: nat)
    requires |points| >= PointsLen(ell, n) && |w| == 1 + 2 * ell + 2 * n && j < n
    ensures PsiAt(points, w, ell, n, 2 + 2 * ell + j)
         == points[0] * w[1 + 2 * ell + j] + points[1] * w[1 + 2 * ell + n + j]
    ensures PsiAt(points, w, ell, n, 2 + 2 * ell + n + j) == points[2] * w[1 + 2 * ell + n + j]
    ensures PsiAt(points, w, ell, n, 2 + 2 * ell + 2 * n + j) == points[3] * w[1 + 2 * ell + n + j]
    ensures FAt(points, ell, n, 2 + 2 * ell + j) == points[4 + 4 * ell + j]
    ensures FAt(points, ell, n, 2 + 2 * ell + n + j) == points[4 + 4 * ell + n + j]
    ensures FAt(points, ell, n, 2 + 2 * ell + 2 * n + j) == points[4 + 4 * ell + 2 * n + j]
  {
  }

  function Psi(q: int, points: seq<int>, w: seq<int>, ell: nat, n: nat): (r: seq<int>)
    requires q > 0 && |points| >= PointsLen(ell, n) && |w| == WitnessLen(ell, n)
    ensures |r| == CommitmentLen(ell, n)
    ensures forall i :: 0 <= i < |r| ==> 0 <= r[i] < q
  {
    seq(CommitmentLen(ell, n), i requires 0 <= i < CommitmentLen(ell, n) => PsiAt(points, w, ell, n, i) % q)
  }

  function F(q: int, points: seq<int>, ell: nat, n: nat): (r: seq<int>)
    requires q > 0 && |points| >= PointsLen(ell, n)
    ensures |r| == CommitmentLen(ell, n)
    ensures forall i :: 0 <= i < |r| ==> 0 <= r[i] < q
  {
    seq(CommitmentLen(ell, n), i requires 0 <= i < CommitmentLen(ell, n) => FAt(points, ell, n, i) % q)
  }

  /** The witness opens the statement: psi(w) = f(statement) at every position. */
  ghost predicate Relation(q: int, points: seq<int>, w: seq<int>, ell: nat, n: nat)
    requires q > 0 && |points| >= PointsLen(ell, n) && |w| == WitnessLen(ell, n)
  {
    forall i :: 0 <= i < CommitmentLen(ell, n) ==>
      PsiAt(points, w, ell, n, i) % q == FAt(points, ell, n, i) % q
  }

  /** The vector c is a + e*b, modulo q. */
  ghost predicate Combines(q: int, a: seq<int>, b: seq<int>, e: int, c: seq<int>)
    requires q > 0
  {
    |a| == |b| == |c| && forall i :: 0 <= i < |a| ==> c[i] % q == (a[i] + e * b[i]) % q
  }

  // ---- psi is linear -----------------------------------------------------------------------

  lemma ScaledStep(q: int, x: int, a: int, b: int, e: int, c: int)
    requires q > 0 && c % q == (a + e * b) % q
    ensures (x * c) % q == (x * a + e * (x * b)) % q
  {
    CongMul(q, x, x, c, a + e * b);
    assert x * (a + e * b) == x * a + e * (x * b);
  }

  /** Sums of combinations are combinations of sums. */
  lemma SumStep(q: int, a: int, b: int, c: int, a': int, b': int, c': int, e: int)
    requires q > 0 && c % q == (a + e * b) % q && c' % q == (a' + e * b') % q
    ensures (c + c') % q == (a + a' + e * (b + b')) % q
  {
    CongAdd(q, c, a + e * b, c', a' + e * b');
    assert a + e * b + (a' + e * b') == a + a' + e * (b + b');
  }

  lemma CommitStep(q: int, g: int, h: int, a: int, b: int, c: int, a': int, b': int, c': int, e: int)
    requires q > 0 && c % q == (a + e * b) % q && c' % q == (a' + e * b') % q
    ensures Commit(g, h, c, c') % q == (Commit(g, h, a, a') + e * Commit(g, h, b, b')) % q
  {
    ScaledStep(q, g, a, b, e, c);
    ScaledStep(q, h, a', b', e, c');
    SumStep(q, g * a, g * b, g * c, h * a', h * b', h * c', e);
  }

  lemma ValStep(base: int, s: seq<int>, k: nat)
    requires 0 < k <= |s|
    ensures Val(base, s, k) == Val(base, s, k - 1) + Pow(base, k - 1) * s[k - 1]
  {
  }

  lemma {:induction false} ValueLinear(q: int, base: int, a: seq<int>, b: seq<int>, e: int, c: seq<int>, k: nat)
    requires q > 0 && Combines(q, a, b, e, c) && k <= |a|
    ensures Val(base, c, k) % q == (Val(base, a, k) + e * Val(base, b, k)) % q
  {
    if k == 0 {
      assert e * 0 == 0;
    } else {
      var p := Pow(base, k - 1);
      ValueLinear(q, base, a, b, e, c, k - 1);
      ScaledStep(q, p, a[k - 1], b[k - 1], e, c[k - 1]);
      SumStep(q, Val(base, a, k - 1), Val(base, b, k - 1), Val(base, c, k - 1),
              p * a[k - 1], p * b[k - 1], p * c[k - 1], e);
      ValStep(base, a, k);
      ValStep(base, b, k);
      ValStep(base, c, k);
    }
  }

  lemma BalanceLinear(q: int, points: seq<int>, a: seq<int>, b: seq<int>, e: int, c: seq<int>, ell: nat, n: nat)
    requires q > 0 && |points| >= PointsLen(ell, n) && |a| == WitnessLen(ell, n) && Combines(q, a, b, e, c)
    ensures Balance(points, c, ell, n) % q == (Balance(points, a, ell, n) + e * Balance(points, b, ell, n)) % q
  {
    ValueLinear(q, CHUNK, NewA(a, ell, n), NewA(b, ell, n), e, NewA(c, ell, n), ell);
    ValueLinear(q, CHUNK, Amount(a, ell, n), Amount(b, ell, n), e, Amount(c, ell, n), n);
    BalanceStep(q, Value(CHUNK, OldR(points, ell, n)), points[IDX_G], a[0], b[0], c[0],
                Value(CHUNK, NewA(a, ell, n)), Value(CHUNK, NewA(b, ell, n)), Value(CHUNK, NewA(c, ell, n)),
                Value(CHUNK, Amount(a, ell, n)), Value(CHUNK, Amount(b, ell, n)), Value(CHUNK, Amount(c, ell, n)), e);
  }

  lemma BalanceStep(q: int, R: int, g: int, a: int, b: int, c: int, na: int, nb: int, nc: int,
                    va: int, vb: int, vc: int, e: int)
    requires q > 0 && c % q == (a + e * b) % q
    requires nc % q == (na + e * nb) % q && vc % q == (va + e * vb) % q
    ensures BalanceOf(R, g, c, nc, vc) % q == (BalanceOf(R, g, a, na, va) + e * BalanceOf(R, g, b, nb, vb)) % q
  {
    ScaledStep(q, R, a, b, e, c);
    SumStep(q, na, nb, nc, va, vb, vc, e);
    ScaledStep(q, g, na + va, nb + vb, e, nc + vc);
    SumStep(q, R * a, R * b, R * c, g * (na + va), g * (nb + vb), g * (nc + vc), e);
  }

  /** psi(a + e*b) = psi(a) + e*psi(b), at every position and whatever the statement. */
  lemma PsiLinear(q: int, points: seq<int>, a: seq<int>, b: seq<int>, e: int, c: seq<int>, ell: nat, n: nat, i: nat)
    requires q > 0 && |points| >= PointsLen(ell, n) && |a| == WitnessLen(ell, n) && Combines(q, a, b, e, c)
    requires i < CommitmentLen(ell, n)
    ensures PsiAt(points, c, ell, n, i) % q
         == (PsiAt(points, a, ell, n, i) + e * PsiAt(points, b, ell, n, i)) % q
  {
    var (g, h, sid, rid) := (points[IDX_G], points[IDX_H], points[IDX_EK_SID], points[IDX_EK_RID]);
    if i == 0 {
      ScaledStep(q, sid, a[0], b[0], e, c[0]);
    } else if i <= ell {
      CommitStep(q, g, h, a[i], b[i], c[i], a[ell + i], b[ell + i], c[ell + i], e);
    } else if i <= 2 * ell {
      ScaledStep(q, sid, a[i], b[i], e, c[i]);
    } else if i == 2 * ell + 1 {
      BalanceLinear(q, points, a, b, e, c, ell, n);
    } else if i < 2 + 2 * ell + n {
      CommitStep(q, g, h, a[i - 1], b[i - 1], c[i - 1], a[n + i - 1], b[n + i - 1], c[n + i - 1], e);
    } else if i < 2 + 2 * ell + 2 * n {
      ScaledStep(q, sid, a[i - 1], b[i - 1], e, c[i - 1]);
    } else {
      ScaledStep(q, rid, a[i - 1 - n], b[i - 1 - n], e, c[i - 1 - n]);
    }
  }
}
