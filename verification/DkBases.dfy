/** The positions of psi at which the secret key contributes, and the workers' parts there. */
module DkBases {
  import opened Wrappers
  import opened ModArith
  import opened PrimeField
  import opened Digits
  import opened Encoding
  import opened TransferForm
  import opened TransferSigma

  const WITNESS_LEN: nat := 25
  const COMMITMENT_LEN: nat := 30

  datatype ThresholdError = ShapeFixed | Sigma(inner: SigmaError) | NoBases | AlphaZero

  datatype DkBase = DkBase(index: nat, base: int)

  function Zeroes(n: nat): (r: seq<int>)
    ensures |r| == n && forall i :: 0 <= i < n ==> r[i] == 0
  {
    seq(n, _ => 0)
  }

  /** The witness [1, 0, 0, ...]. */
  function Unit(len: nat): (r: seq<int>)
    requires len > 0
    ensures |r| == len && r[0] == 1 && forall i :: 1 <= i < len ==> r[i] == 0
  {
    [1] + Zeroes(len - 1)
  }

  /** The coefficient of dk at position i. */
  function DkCoefficient(points: seq<int>, ell: nat, n: nat, i: nat): int
    requires |points| >= PointsLen(ell, n)
  {
    if i == 0 then points[IDX_EK_SID]
    else if i == 2 * ell + 1 then Value(CHUNK, OldR(points, ell, n))
    else 0
  }

  lemma ZeroBalance(points: seq<int>, w: seq<int>, ell: nat, n: nat)
    requires |points| >= PointsLen(ell, n) && |w| == WitnessLen(ell, n) && forall i :: 1 <= i < |w| ==> w[i] == 0
    ensures Balance(points, w, ell, n) == Value(CHUNK, OldR(points, ell, n)) * w[0]
  {
    Zeros(CHUNK, NewA(w, ell, n), ell);
    Zeros(CHUNK, Amount(w, ell, n), n);
  }

  /** psi of the unit vector isolates the key: it is zero everywhere but at positions 0 and 2*ell+1. */
  lemma PsiOfUnit(points: seq<int>, ell: nat, n: nat, i: nat)
    requires |points| >= PointsLen(ell, n) && i < CommitmentLen(ell, n)
    ensures PsiAt(points, Unit(WitnessLen(ell, n)), ell, n, i) == DkCoefficient(points, ell, n, i)
  {
    var u := Unit(WitnessLen(ell, n));
    if i == 2 * ell + 1 { ZeroBalance(points, u, ell, n); }
  }

  /** The bases are the non-zero coefficients, in ascending order of position. */
  ghost predicate AreBases(q: int, points: seq<int>, ell: nat, n: nat, bases: seq<DkBase>, upTo: nat)
    requires q > 0 && |points| >= PointsLen(ell, n)
  {
    && (forall k :: 0 <= k < |bases| ==> BaseOk(q, points, ell, n, bases[k], upTo))
    && (forall j, k :: 0 <= j < k < |bases| ==> bases[j].index < bases[k].index)
    && (forall i :: 0 <= i < upTo && DkCoefficient(points, ell, n, i) % q != 0 ==> Listed(bases, i))
  }

  ghost predicate BaseOk(q: int, points: seq<int>, ell: nat, n: nat, b: DkBase, upTo: nat)
    requires q > 0 && |points| >= PointsLen(ell, n)
  {
    b.index < upTo && b.base == DkCoefficient(points, ell, n, b.index) % q && b.base != 0
  }

  ghost predicate Listed(bases: seq<DkBase>, i: nat) {
    exists k :: 0 <= k < |bases| && bases[k].index == i
  }

  lemma ListedSnoc(bases: seq<DkBase>, b: DkBase, i: nat)
    requires Listed(bases, i) || i == b.index
    ensures Listed(bases + [b], i)
  {
    if Listed(bases, i) {
      var k :| 0 <= k < |bases| && bases[k].index == i;
      assert (bases + [b])[k].index == i;
    } else {
      assert (bases + [b])[|bases|].index == i;
    }
  }

  lemma BasesSnoc(q: int, points: seq<int>, ell: nat, n: nat, bases: seq<DkBase>, i: nat, b: DkBase)
    requires q > 0 && |points| >= PointsLen(ell, n) && AreBases(q, points, ell, n, bases, i)
    requires b == DkBase(i, DkCoefficient(points, ell, n, i) % q) && b.base != 0
    ensures AreBases(q, points, ell, n, bases + [b], i + 1)
  {
    forall k | 0 <= k <= i && DkCoefficient(points, ell, n, k) % q != 0 ensures Listed(bases + [b], k) {
      ListedSnoc(bases, b, k);
    }
    forall k | 0 <= k < |bases + [b]| ensures BaseOk(q, points, ell, n, (bases + [b])[k], i + 1) {
      assert k < |bases| ==> BaseOk(q, points, ell, n, bases[k], i);
    }
  }

  method DeriveDkBasePoints(q: int, stmt: Statement, ell: nat, n: nat, hasEffective: bool, numVolun: nat)
    returns (r: Result<seq<DkBase>, ThresholdError>)
    requires q > 1 && |stmt.points| >= PointsLen(ell, n)
    ensures r.Ok? ==> ell == 8 && n == 4 && AreBases(q, stmt.points, ell, n, r.value, CommitmentLen(ell, n)) && r.value != []
    ensures r == Err(NoBases) ==> forall i :: 0 <= i < CommitmentLen(ell, n) ==> DkCoefficient(stmt.points, ell, n, i) % q == 0
    ensures ell == 8 && n == 4 && !hasEffective && numVolun == 0 ==> r.Ok? || r == Err(NoBases)
  {
    if 1 + 2 * ell + 2 * n != WITNESS_LEN { return Err(ShapeFixed); }
    var psi := PsiTransfer(q, stmt, Unit(WITNESS_LEN), ell, n, hasEffective, numVolun);
    if psi.Err? { return Err(Sigma(psi.error)); }
    var pts := psi.value;
    if |pts| != COMMITMENT_LEN { return Err(ShapeFixed); }
    var out := [];
    for idx := 0 to |pts|
      invariant AreBases(q, stmt.points, ell, n, out, idx)
    {
      PsiOfUnit(stmt.points, ell, n, idx);
      if pts[idx] != 0 {
        BasesSnoc(q, stmt.points, ell, n, out, idx, DkBase(idx, pts[idx]));
        out := out + [DkBase(idx, pts[idx])];
      }
    }
    if out == [] { return Err(NoBases); }
    return Ok(out);
  }

  /**
   The canonical base set: positions 0 and 17, exactly when the sender's key and the weighted sum of
   the old D chunks are both non-zero; a base that is the identity is silently dropped.
   */
  lemma CanonicalBases(q: int, points: seq<int>, bases: seq<DkBase>)
    requires q > 0 && |points| >= PointsLen(8, 4) && AreBases(q, points, 8, 4, bases, CommitmentLen(8, 4))
    ensures |bases| == 2 && bases[0].index == 0 && bases[1].index == 17 <==>
            points[IDX_EK_SID] % q != 0 && Value(CHUNK, OldR(points, 8, 4)) % q != 0
    ensures forall k :: 0 <= k < |bases| ==> bases[k].index == 0 || bases[k].index == 17
  {
    Small(q, 0);
    forall k | 0 <= k < |bases| ensures bases[k].index == 0 || bases[k].index == 17 {
      assert BaseOk(q, points, 8, 4, bases[k], CommitmentLen(8, 4));
    }
    if |bases| == 2 && bases[0].index == 0 && bases[1].index == 17 {
      assert BaseOk(q, points, 8, 4, bases[0], CommitmentLen(8, 4));
      assert BaseOk(q, points, 8, 4, bases[1], CommitmentLen(8, 4));
    }
    if points[IDX_EK_SID] % q != 0 && Value(CHUNK, OldR(points, 8, 4)) % q != 0 {
      assert Listed(bases, 0) && Listed(bases, 17);
      var j :| 0 <= j < |bases| && bases[j].index == 0;
      var k :| 0 <= k < |bases| && bases[k].index == 17;
    }
  }

  /** A statement of the bridge's shape whose sender key is G and whose old D chunks are all the identity. */
  function FreshBalance(): (points: seq<int>)
    ensures |points| == PointsLen(8, 4)
    ensures forall i :: 0 <= i < |points| ==> points[i] == if i == IDX_G || i == IDX_EK_SID then 1 else 0
  {
    seq(PointsLen(8, 4), i => if i == IDX_G || i == IDX_EK_SID then 1 else 0)
  }

  /** For it position 17 is dropped: the only base set is position 0 alone. */
  lemma BaseDropped(q: int, bases: seq<DkBase>)
    requires q > 1
    ensures AreBases(q, FreshBalance(), 8, 4, bases, CommitmentLen(8, 4)) <==> bases == [DkBase(0, 1)]
  {
    var points := FreshBalance();
    Zeros(CHUNK, OldR(points, 8, 4), 8);
    Small(q, 1);
    Small(q, 0);
    if AreBases(q, points, 8, 4, bases, CommitmentLen(8, 4)) {
      assert DkCoefficient(points, 8, 4, 0) % q != 0 && Listed(bases, 0);
      forall k | 0 <= k < |bases| ensures bases[k] == DkBase(0, 1) {
        assert BaseOk(q, points, 8, 4, bases[k], CommitmentLen(8, 4));
      }
      assert bases[|bases| - 1] == bases[0];
    }
    var one := [DkBase(0, 1)];
    assert one[0].index == 0 && Listed(one, 0);
  }
}
