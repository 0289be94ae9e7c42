/** The MPC adapter: Lagrange recomputation in BigUint, decimal scalars, and distributed inversion. */
module SpdzAdapter {
  import opened Wrappers
  import opened ModArith
  import opened PrimeField
  import opened Digits
  import opened Encoding
  import opened BigUints
  import opened Decimals
  import opened Lagrange

  datatype AdapterError = InvalidInput | Internal

  /** An odd prime whose residues fit the 32 scalar bytes; the adapter's own modulus is Q. */
  ghost predicate Modulus(q: BigUint) {
    q.Valid() && IsPrime(q.ToInt()) && 2 < q.ToInt() <= Pow(BYTE, SCALAR_BYTES)
  }

  /** Reading a 32-byte scalar back from the bytes of a reduced big integer. */
  method ScalarFromBig(x: BigUint, q: int) returns (r: Result<int, AdapterError>)
    requires x.Valid() && q > 0
    ensures r == if x.ToInt() < Pow(BYTE, SCALAR_BYTES) then Ok(x.ToInt() % q) else Err(Internal)
  {
    var le := x.ToBytesLe();
    Bound(BYTE, le, |le|);
    if |le| > SCALAR_BYTES {
      LowerBound(BYTE, le, |le| - 1);
      PowMono(BYTE, SCALAR_BYTES, |le| - 1);
      return Err(Internal);
    }
    PowMono(BYTE, |le|, SCALAR_BYTES);
    while |le| < SCALAR_BYTES
      invariant |le| <= SCALAR_BYTES && Value(BYTE, le) == x.ToInt()
    {
      Append(BYTE, le, 0);
      assert 0 * Pow(BYTE, |le|) == 0;
      le := le + [0];
    }
    r := Ok(Value(BYTE, le) % q);
  }

  /** lambda_i(0) over the slots, recomputed with big integers and Fermat's exponent. */
  method ComputeLagrangeCoefficientAtZero(playerId: nat, slots: seq<nat>, q: BigUint)
    returns (r: Result<int, AdapterError>)
    requires Modulus(q) && forall i :: 0 <= i < |slots| ==> slots[i] + 1 < 0x1_0000_0000_0000_0000
    ensures playerId >= |slots| ==> r == Err(InvalidInput)
    ensures playerId < |slots| ==> r == Ok(Coefficient(q.ToInt(), Abscissae(slots), playerId))
  {
    if playerId >= |slots| {
      return Err(InvalidInput);
    }
    ghost var p, xs := q.ToInt(), Abscissae(slots);
    var xi := BigUint.FromU64(slots[playerId] + 1);
    var num := BigUint.FromU64(1);
    var den := BigUint.FromU64(1);
    for j := 0 to |slots|
      invariant num.Valid() && den.Valid()
      invariant num.ToInt() % p == Numerator(xs, playerId, j) % p
      invariant den.ToInt() % p == Denominator(xs, playerId, j) % p
    {
      if j == playerId {
        continue;
      }
      var xj := BigUint.FromU64(slots[j] + 1);
      var negXj := q.SubMod(xj, q);
      MultiplyNode(p, num.ToInt(), Numerator(xs, playerId, j), p - xs[j], -xs[j], 1);
      num := num.MulMod(negXj, q);
      var diff := xi.SubMod(xj, q);
      MultiplyNode(p, den.ToInt(), Denominator(xs, playerId, j), xs[playerId] - xs[j], xs[playerId] - xs[j], 0);
      den := den.MulMod(diff, q);
    }
    var two := BigUint.FromU64(2);
    var exponent := q.SubMod(two, q);
    Small(p, p - 2);
    var denInv := den.PowMod(exponent, q);
    var coefficient := num.MulMod(denInv, q);
    FermatIsInversion(p, den.ToInt(), Denominator(xs, playerId, |xs|));
    CongMul(p, num.ToInt(), Numerator(xs, playerId, |xs|), denInv.ToInt(), denInv.ToInt());
    r := ScalarFromBig(coefficient, q.ToInt());
    Small(p, coefficient.ToInt());
  }

  /** One factor of a product kept modulo p. */
  lemma MultiplyNode(p: int, acc: int, exact: int, factor: int, exactFactor: int, k: int)
    requires p > 0 && acc % p == exact % p && factor == exactFactor + k * p
    ensures ((acc * (factor % p)) % p) % p == (exact * exactFactor) % p
  {
    Shift(p, factor, exactFactor, k);
    Idem(p, factor);
    Idem(p, acc * (factor % p));
    CongMul(p, acc, exact, factor % p, exactFactor);
  }

  /** If inv inverts d and x = n*inv, then d*x = n. */
  lemma DivideBack(p: int, d: int, inv: int, n: int, x: int)
    requires p > 1 && (d * inv) % p == 1 && x % p == (n * inv) % p
    ensures (d * x) % p == n % p
  {
    CongMul(p, d, d, x, n * inv);
    Small(p, 1);
    CongMul(p, d * inv, 1, n, n);
    assert d * (n * inv) == (d * inv) * n;
  }

  /** den^(p-2) is field inversion, down to sending zero to zero. */
  lemma FermatIsInversion(p: int, den: int, d: int)
    requires IsPrime(p) && p > 2 && den % p == d % p
    ensures Pow(den, p - 2) % p == Invert(p, d)
  {
    var x := Pow(den, p - 2);
    Small(p, 0);
    if d % p == 0 {
      CongMul(p, den, 0, Pow(den, p - 3), Pow(den, p - 3));
      assert 0 * Pow(den, p - 3) == 0;
    } else {
      FermatInverse(p, den);
      CongMul(p, d, den, x, x);
      Cancel(p, d, x, Invert(p, d));
      Small(p, Invert(p, d));
    }
  }

  /** A decimal value in canonical or centred notation, as a scalar. */
  method ScalarFromDecimal(s: string, q: BigUint) returns (r: Result<int, AdapterError>)
    requires Modulus(q)
    ensures r == match ParseSigned(s)
                 case Some(v) => Ok(v % q.ToInt())
                 case None => Err(Internal)
  {
    ghost var p := q.ToInt();
    var trimmed := Trim(s);
    var negative := trimmed != "" && trimmed[0] == '-';
    var body := if negative then trimmed[1..] else trimmed;
    if !negative { TrimTwice(s); }
    var parsed := ParseDecimal(body);
    if parsed.None? {
      return Err(Internal);
    }
    var abs := parsed.value;
    var reduced := abs.Modulo(q);
    Idem(p, abs.ToInt());
    if negative {
      ZeroTest(reduced);
      NegateResidue(p, abs.ToInt());
      if !reduced.IsZero() {
        reduced := q.SubBig(reduced);
      }
    }
    r := ScalarFromBig(reduced, q.ToInt());
    Small(p, reduced.ToInt());
  }

  lemma TrimTwice(s: string)
    ensures Trim(Trim(s)) == Trim(s)
  {
    TrimStartStops(s);
    TrimEndStops(TrimStart(s));
    TrimNoSpace(Trim(s));
  }

  lemma {:induction false} TrimStartStops(s: string)
    ensures TrimStart(s) != "" ==> !IsSpace(TrimStart(s)[0])
  {
    if s != "" && IsSpace(s[0]) { TrimStartStops(s[1..]); }
  }

  lemma {:induction false} TrimEndStops(s: string)
    ensures TrimEnd(s) != "" ==> !IsSpace(TrimEnd(s)[|TrimEnd(s)| - 1])
    ensures TrimEnd(s) <= s
  {
    if s != "" && IsSpace(s[|s| - 1]) { TrimEndStops(s[..|s| - 1]); }
  }

  /** The decimal text of a scalar. */
  method ScalarToDecimal(s: int) returns (r: string)
    requires 0 <= s < Pow(BYTE, SCALAR_BYTES)
    ensures r == DecimalOf(s)
  {
    var bytes := BytesOf(s, SCALAR_BYTES);
    BytesOfValue(s, SCALAR_BYTES);
    var n := BigUint.FromBytesLe(bytes);
    r := ToDecimal(n);
  }

  /** Whichever of its two notations the opener prints, a scalar is read back as itself. */
  lemma EitherNotationReadsBack(q: int, s: int, printed: int)
    requires q > 0 && 0 <= s < q && (printed == s || printed == s - q)
    ensures ParseSigned(PrintSigned(printed)) == Some(printed) && printed % q == s
  {
    SignedRoundTrip(printed);
    Small(q, s);
    Shift(q, s - q, s, -1);
  }

  // ---- distributed inversion ----------------------------------------------------------------

  datatype InversionShare = InversionShare(q: int, hTimesR: int)

  /** One party's share of the inverse, with the public point that binds it to the opened m. */
  function InverseShare(p: int, h: int, m: int, r: int): Result<InversionShare, AdapterError>
    requires IsPrime(p)
  {
    if m % p == 0 then Err(Internal)
    else Ok(InversionShare(Mul(p, r, Invert(p, m)), Mul(p, h, r)))
  }

  /** The value the MPC program opens: (sum of lambda_i*dk_i) * (sum of r_i). */
  function Opened(p: int, lambdas: seq<int>, dks: seq<int>, rs: seq<int>): int
    requires p > 0 && |lambdas| == |dks|
  {
    (Dot(lambdas, dks) * Sum(rs)) % p
  }

  /**
   Distributed inversion. Parties that hold shares of dk and random r_i invert dk together: the
   points h*q_i add up to the key with dk*ek = h, and h*q_i times m is each published h*r_i.
   */
  lemma DistributedInversion(p: int, h: int, xs: seq<int>, poly: seq<int>, rs: seq<int>, m: int,
                             qs: seq<int>, hrs: seq<int>, points: seq<int>)
    requires IsPrime(p) && Distinct(p, xs) && 0 < |poly| <= |xs| == |rs| == |qs| == |hrs| == |points|
    requires m == Opened(p, Coefficients(p, xs), Evals(poly, xs), rs) && m != 0
    requires forall i :: 0 <= i < |rs| ==> InverseShare(p, h, m, rs[i]) == Ok(InversionShare(qs[i], hrs[i]))
    requires forall i :: 0 <= i < |rs| ==> points[i] == Mul(p, h, qs[i])
    ensures (poly[0] * Sum(qs)) % p == 1
    ensures (poly[0] * Sum(points)) % p == h % p
    ensures forall i :: 0 <= i < |rs| ==> Mul(p, points[i], m) == hrs[i]
  {
    Small(p, m);
    var inv := Invert(p, m);
    OpenedIsProduct(p, xs, poly, Sum(rs));
    SumOfShares(p, rs, inv, qs);
    CancelOpened(p, poly[0], Sum(rs), m, inv, Sum(qs));
    SumOfMultiples(p, h, qs, points);
    KeyFromInverse(p, poly[0], h, Sum(qs), Sum(points));
    forall i | 0 <= i < |rs| ensures Mul(p, points[i], m) == hrs[i] {
      PointBindsShare(p, h, rs[i], m, inv);
    }
  }

  /** The reconstructed secret times r is the secret times r. */
  lemma OpenedIsProduct(p: int, xs: seq<int>, poly: seq<int>, r: int)
    requires IsPrime(p) && Distinct(p, xs) && 0 < |poly| <= |xs|
    ensures (Dot(Coefficients(p, xs), Evals(poly, xs)) * r) % p == (poly[0] * r) % p
  {
    Reconstruct(p, xs, poly);
    assert Eval(poly, 0) == poly[0] by { assert 0 * Eval(poly[1..], 0) == 0; }
    CongMul(p, Dot(Coefficients(p, xs), Evals(poly, xs)), poly[0], r, r);
  }

  lemma KeyFromInverse(p: int, dk: int, h: int, q: int, ek: int)
    requires p > 1 && (dk * q) % p == 1 && ek % p == (h * q) % p
    ensures (dk * ek) % p == h % p
  {
    DivideBack(p, dk, q, h, ek);
  }

  lemma {:induction false} SumOfShares(p: int, rs: seq<int>, inv: int, qs: seq<int>)
    requires p > 0 && |rs| == |qs| && forall i :: 0 <= i < |rs| ==> qs[i] == Mul(p, rs[i], inv)
    ensures Sum(qs) % p == (inv * Sum(rs)) % p
  {
    var exact := Scaled(inv, rs);
    forall i | 0 <= i < |rs| ensures qs[i] % p == exact[i] % p {
      Idem(p, rs[i] * inv);
      assert rs[i] * inv == inv * rs[i];
    }
    SumCong(p, qs, exact);
    SumScale(rs, exact, inv);
  }

  /** From dk*r = m and m*inv = 1: dk times inv*r is 1. */
  lemma CancelOpened(p: int, dk: int, r: int, m: int, inv: int, sum: int)
    requires p > 1 && (dk * r) % p == m % p && (m * inv) % p == 1 && sum % p == (inv * r) % p
    ensures (dk * sum) % p == 1
  {
    CongMul(p, dk, dk, sum, inv * r);
    CongMul(p, dk * r, m, inv, inv);
    assert dk * (inv * r) == (dk * r) * inv;
  }

  lemma PointBindsShare(p: int, h: int, r: int, m: int, inv: int)
    requires p > 1 && (m * inv) % p == 1
    ensures Mul(p, Mul(p, h, Mul(p, r, inv)), m) == Mul(p, h, r)
  {
    Idem(p, r * inv);
    MulLift(p, h, h, Mul(p, r, inv), r * inv);
    Idem(p, h * (r * inv));
    assert h * (r * inv) == (h * r) * inv;
    DivideBack(p, m, inv, h * r, Mul(p, h, Mul(p, r, inv)));
  }
}
