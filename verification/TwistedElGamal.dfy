/** Twisted ElGamal encryption, its additively shared form, and the proof of a share. */
module TwistedElGamal {
  import opened Wrappers
  import opened ModArith
  import opened PrimeField
  import opened Digits
  import opened Encoding

  datatype ElGamalError = BadPublicKey | LengthMismatch | NoPartials | RecipientMismatch

  /** C = v*G + r*H and D = r*pk. */
  datatype Ciphertext = Ciphertext(c: int, d: int)

  function Encrypt(q: int, g: int, h: int, v: int, pk: int, r: int): Ciphertext
    requires q > 0
  {
    Ciphertext(Add(q, Mul(q, g, v), Mul(q, h, r)), Mul(q, pk, r))
  }

  function EncryptWithPk(q: int, g: int, h: int, v: u64, pk: seq<u8>, r: int): Result<Ciphertext, ElGamalError>
    requires q > 0
  {
    match Decode(q, pk)
    case Some(point) => Ok(Encrypt(q, g, h, v, point, r))
    case None => Err(BadPublicKey)
  }

  function EncryptChunksWithPk(q: int, g: int, h: int, chunks: seq<u64>, pk: seq<u8>, blindings: seq<int>)
    : (r: Result<seq<Ciphertext>, ElGamalError>)
    requires q > 0
    ensures r.Ok? ==> |r.value| == |chunks| == |blindings|
    ensures r.Ok? ==> forall i :: 0 <= i < |chunks| ==>
              EncryptWithPk(q, g, h, chunks[i], pk, blindings[i]) == Ok(r.value[i])
  {
    if |chunks| != |blindings| then Err(LengthMismatch)
    else if chunks != [] && Decode(q, pk).None? then Err(BadPublicKey)
    else Ok(seq(|chunks|, i requires 0 <= i < |chunks| =>
      Encrypt(q, g, h, chunks[i], Decode(q, pk).value, blindings[i])))
  }

  /** C - sk*D: what remains of a ciphertext without its blinding. */
  function Opening(q: int, ct: Ciphertext, sk: int): int
    requires q > 0
  {
    Sub(q, ct.c, Mul(q, sk, ct.d))
  }

  lemma CiphertextParts(q: int, g: int, h: int, v: int, pk: int, r: int)
    requires q > 0
    ensures Encrypt(q, g, h, v, pk, r).c % q == (g * v + h * r) % q
    ensures Encrypt(q, g, h, v, pk, r).d % q == (pk * r) % q
  {
    Idem(q, g * v);
    Idem(q, h * r);
    Idem(q, pk * r);
    AddLift(q, Mul(q, g, v), g * v, Mul(q, h, r), h * r);
    Idem(q, g * v + h * r);
  }

  /** Decryption: with sk*pk = H, the opening of an encryption of v is v*G, whatever the blinding. */
  lemma OpeningOfEncryption(q: int, g: int, h: int, v: int, pk: int, r: int, sk: int)
    requires q > 0 && (sk * pk) % q == h % q
    ensures Opening(q, Encrypt(q, g, h, v, pk, r), sk) == Mul(q, g, v)
  {
    var ct := Encrypt(q, g, h, v, pk, r);
    CiphertextParts(q, g, h, v, pk, r);
    CongMul(q, sk, sk, ct.d, pk * r);
    Idem(q, sk * ct.d);
    assert sk * (pk * r) == (sk * pk) * r;
    CongMul(q, sk * pk, h, r, r);
    CongSub(q, ct.c, g * v + h * r, Mul(q, sk, ct.d), h * r);
  }

  /** Chunks encrypted together decrypt one by one: each opening is chunk times G, and nothing else is. */
  lemma ChunksDecrypt(q: int, g: int, h: int, chunks: seq<u64>, pk: seq<u8>, blindings: seq<int>, sk: int, i: nat, v: int)
    requires IsPrime(q) && g % q != 0 && i < |chunks| && 0 <= v < q && chunks[i] as int < q
    requires EncryptChunksWithPk(q, g, h, chunks, pk, blindings).Ok?
    requires (sk * Decode(q, pk).value) % q == h % q
    ensures Opening(q, EncryptChunksWithPk(q, g, h, chunks, pk, blindings).value[i], sk) == Mul(q, g, v)
       <==> v == chunks[i]
  {
    OpeningOfEncryption(q, g, h, chunks[i], Decode(q, pk).value, blindings[i], sk);
    if Mul(q, g, chunks[i]) == Mul(q, g, v) {
      Cancel(q, g, chunks[i], v);
      Small(q, v);
      Small(q, chunks[i]);
    }
  }

  // ---- shared randomness -------------------------------------------------------------------

  /** One party's part of a ciphertext under shared randomness; the recipient leg is optional. */
  datatype Partial = Partial(c: int, dSender: int, dRecip: Option<int>)

  datatype Aggregate = Aggregate(c: int, dSender: int, dRecip: Option<int>)

  function Scaled(q: int, point: Option<int>, r: int): Option<int>
    requires q > 0
  {
    match point
    case Some(p) => Some(Mul(q, p, r))
    case None => None
  }

  function ComputePartial(q: int, h: int, r: int, ekSender: int, ekRecip: Option<int>): Partial
    requires q > 0
  {
    Partial(Mul(q, h, r), Mul(q, ekSender, r), Scaled(q, ekRecip, r))
  }

  function ValueOf(o: Option<int>): int {
    if o.Some? then o.value else 0
  }

  method AggregatePartials(q: int, partials: seq<Partial>, v: u64, g: int, ekRecip: Option<int>)
    returns (r: Result<Aggregate, ElGamalError>)
    requires q > 0
    ensures r == Err(NoPartials) <==> partials == []
    ensures r.Ok? <==> partials != [] && forall i :: 0 <= i < |partials| ==> partials[i].dRecip.Some? == ekRecip.Some?
    ensures r.Err? && partials != [] ==> r == Err(RecipientMismatch)
    ensures r.Ok? ==> r.value.c == (g * v + Sum(seq(|partials|, i requires 0 <= i < |partials| => partials[i].c))) % q
    ensures r.Ok? ==> r.value.dSender == Sum(seq(|partials|, i requires 0 <= i < |partials| => partials[i].dSender)) % q
    ensures r.Ok? ==> r.value.dRecip.Some? == ekRecip.Some?
    ensures r.Ok? && ekRecip.Some? ==>
              r.value.dRecip.value == Sum(seq(|partials|, i requires 0 <= i < |partials| => ValueOf(partials[i].dRecip))) % q
  {
    if partials == [] { return Err(NoPartials); }
    var wantRecip := partials[0].dRecip.Some?;
    for i := 0 to |partials|
      invariant forall k :: 0 <= k < i ==> partials[k].dRecip.Some? == wantRecip
    {
      if partials[i].dRecip.Some? != wantRecip { return Err(RecipientMismatch); }
    }
    if wantRecip != ekRecip.Some? { return Err(RecipientMismatch); }
    ghost var cs := seq(|partials|, i requires 0 <= i < |partials| => partials[i].c);
    ghost var ss := seq(|partials|, i requires 0 <= i < |partials| => partials[i].dSender);
    ghost var rs := seq(|partials|, i requires 0 <= i < |partials| => ValueOf(partials[i].dRecip));
    var cSum, dSenderSum, dRecipSum := 0, 0, if wantRecip then Some(0) else None;
    Small(q, 0);
    for i := 0 to |partials|
      invariant cSum == Sum(cs[..i]) % q && dSenderSum == Sum(ss[..i]) % q
      invariant dRecipSum.Some? == wantRecip && (wantRecip ==> dRecipSum.value == Sum(rs[..i]) % q)
    {
      AddNext(q, cs, i);
      AddNext(q, ss, i);
      AddNext(q, rs, i);
      cSum := Add(q, cSum, partials[i].c);
      dSenderSum := Add(q, dSenderSum, partials[i].dSender);
      if dRecipSum.Some? && partials[i].dRecip.Some? {
        dRecipSum := Some(Add(q, dRecipSum.value, partials[i].dRecip.value));
      }
    }
    assert cs[..|partials|] == cs && ss[..|partials|] == ss && rs[..|partials|] == rs;
    Idem(q, g * v);
    Idem(q, Sum(cs));
    AddLift(q, Mul(q, g, v), g * v, cSum, Sum(cs));
    return Ok(Aggregate(Add(q, Mul(q, g, v), cSum), dSenderSum, dRecipSum));
  }

  lemma AddNext(q: int, s: seq<int>, i: nat)
    requires q > 0 && i < |s|
    ensures Add(q, Sum(s[..i]) % q, s[i]) == Sum(s[..i + 1]) % q
  {
    SumPrefix(s, i);
    Idem(q, Sum(s[..i]));
    AddLift(q, Sum(s[..i]) % q, Sum(s[..i]), s[i], s[i]);
  }

  /** The partials of parties that hold additive shares of the randomness. */
  ghost predicate ArePartials(q: int, h: int, rs: seq<int>, ekSender: int, ekRecip: Option<int>, partials: seq<Partial>)
    requires q > 0
  {
    |partials| == |rs| &&
    forall i :: 0 <= i < |rs| ==> partials[i] == ComputePartial(q, h, rs[i], ekSender, ekRecip)
  }

  /**
   The shared form refines the single-party one: partials of shares r_j aggregate to the encryption
   under the sum of the r_j, for the sender and for the recipient alike.
   */
  lemma AggregateIsEncryption(q: int, g: int, h: int, v: int, rs: seq<int>, ekSender: int, ekRecip: Option<int>,
                              partials: seq<Partial>, total: Aggregate, cs: seq<int>, ss: seq<int>, ds: seq<int>)
    requires q > 0 && ArePartials(q, h, rs, ekSender, ekRecip, partials)
    requires |cs| == |ss| == |ds| == |rs|
    requires forall i :: 0 <= i < |rs| ==>
               cs[i] == partials[i].c && ss[i] == partials[i].dSender && ds[i] == ValueOf(partials[i].dRecip)
    requires total.c == (g * v + Sum(cs)) % q && total.dSender == Sum(ss) % q
    requires total.dRecip == if ekRecip.Some? then Some(Sum(ds) % q) else None
    ensures Encrypt(q, g, h, v, ekSender, Sum(rs)) == Ciphertext(total.c, total.dSender)
    ensures ekRecip.Some? ==> Encrypt(q, g, h, v, ekRecip.value, Sum(rs)) == Ciphertext(total.c, total.dRecip.value)
  {
    LegSums(q, h, rs, ekSender, ekRecip, partials, cs, ss, ds);
    EncryptionFromSums(q, g, h, v, ekSender, Sum(rs), Sum(cs), Sum(ss));
    if ekRecip.Some? { EncryptionFromSums(q, g, h, v, ekRecip.value, Sum(rs), Sum(cs), Sum(ds)); }
  }

  lemma LegSums(q: int, h: int, rs: seq<int>, ekSender: int, ekRecip: Option<int>, partials: seq<Partial>,
                cs: seq<int>, ss: seq<int>, ds: seq<int>)
    requires q > 0 && ArePartials(q, h, rs, ekSender, ekRecip, partials) && |cs| == |ss| == |ds| == |rs|
    requires forall i :: 0 <= i < |rs| ==>
               cs[i] == partials[i].c && ss[i] == partials[i].dSender && ds[i] == ValueOf(partials[i].dRecip)
    ensures Sum(cs) % q == (h * Sum(rs)) % q && Sum(ss) % q == (ekSender * Sum(rs)) % q
    ensures ekRecip.Some? ==> Sum(ds) % q == (ekRecip.value * Sum(rs)) % q
  {
    forall i | 0 <= i < |rs| ensures cs[i] == Mul(q, h, rs[i]) && ss[i] == Mul(q, ekSender, rs[i]) {
      assert partials[i] == ComputePartial(q, h, rs[i], ekSender, ekRecip);
    }
    SumOfMultiples(q, h, rs, cs);
    SumOfMultiples(q, ekSender, rs, ss);
    if ekRecip.Some? {
      forall i | 0 <= i < |rs| ensures ds[i] == Mul(q, ekRecip.value, rs[i]) {
        assert partials[i] == ComputePartial(q, h, rs[i], ekSender, ekRecip);
      }
      SumOfMultiples(q, ekRecip.value, rs, ds);
    }
  }

  lemma EncryptionFromSums(q: int, g: int, h: int, v: int, pk: int, r: int, cSum: int, dSum: int)
    requires q > 0 && cSum % q == (h * r) % q && dSum % q == (pk * r) % q
    ensures Encrypt(q, g, h, v, pk, r) == Ciphertext((g * v + cSum) % q, dSum % q)
  {
    Idem(q, g * v);
    Idem(q, h * r);
    AddLift(q, Mul(q, g, v), g * v, Mul(q, h, r), cSum);
  }

  /** The aggregation run on honest partials: it succeeds, with the single-party ciphertext. */
  method AggregateHonest(q: int, g: int, h: int, v: u64, rs: seq<int>, ekSender: int, ekRecip: Option<int>,
                         partials: seq<Partial>) returns (total: Aggregate)
    requires q > 0 && rs != [] && ArePartials(q, h, rs, ekSender, ekRecip, partials)
    ensures Encrypt(q, g, h, v, ekSender, Sum(rs)) == Ciphertext(total.c, total.dSender)
    ensures total.dRecip.Some? == ekRecip.Some?
    ensures ekRecip.Some? ==> Encrypt(q, g, h, v, ekRecip.value, Sum(rs)) == Ciphertext(total.c, total.dRecip.value)
  {
    var r := AggregatePartials(q, partials, v, g, ekRecip);
    total := r.value;
    AggregateIsEncryption(q, g, h, v, rs, ekSender, ekRecip, partials, total,
                          seq(|partials|, i requires 0 <= i < |partials| => partials[i].c),
                          seq(|partials|, i requires 0 <= i < |partials| => partials[i].dSender),
                          seq(|partials|, i requires 0 <= i < |partials| => ValueOf(partials[i].dRecip)));
  }

  // ---- proof of a share --------------------------------------------------------------------

  const RSHARE_POK_DOMAIN: string := "EUNOMA_M4B_RSHARE_POK_V1"

  /** Multi-base Schnorr proof that one scalar underlies all legs of a partial. */
  datatype Pok = Pok(a: Partial, z: int)

  function OptionalBytes(point: Option<int>): seq<u8> {
    if point.Some? && point.value >= 0 then Encode(point.value) else []
  }

  function LegBytes(p: Partial): seq<u8>
    requires p.c >= 0 && p.dSender >= 0
  {
    Encode(p.c) + Encode(p.dSender) + OptionalBytes(p.dRecip)
  }

  /** The challenge binds the context, the nonce points and the partial. */
  function PokChallenge(q: int, sha512: Hash, bind: seq<u8>, a: Partial, p: Partial): (e: int)
    requires q > 0 && a.c >= 0 && a.dSender >= 0 && p.c >= 0 && p.dSender >= 0
    ensures 0 <= e < q
  {
    DecodeReduced(q, sha512(Ascii(RSHARE_POK_DOMAIN) + bind + LegBytes(a) + LegBytes(p)))
  }

  function ProvePok(q: int, sha512: Hash, h: int, r: int, k: int, ekSender: int, ekRecip: Option<int>,
                    bind: seq<u8>): Pok
    requires q > 0
  {
    var a := ComputePartial(q, h, k, ekSender, ekRecip);
    var p := ComputePartial(q, h, r, ekSender, ekRecip);
    var e := PokChallenge(q, sha512, bind, a, p);
    Pok(a, Add(q, k, Mul(q, e, r)))
  }

  /** base * z = a + d * e. */
  predicate LegHolds(q: int, base: int, z: int, a: int, d: int, e: int)
    requires q > 0
  {
    Mul(q, base, z) == Add(q, a, Mul(q, d, e))
  }

  /** All three presences agree and every leg holds, for a given challenge. */
  predicate LegsHold(q: int, h: int, pok: Pok, p: Partial, ekSender: int, ekRecip: Option<int>, e: int)
    requires q > 0
  {
    && pok.a.dRecip.Some? == p.dRecip.Some? == ekRecip.Some?
    && LegHolds(q, h, pok.z, pok.a.c, p.c, e)
    && LegHolds(q, ekSender, pok.z, pok.a.dSender, p.dSender, e)
    && (ekRecip.Some? ==> LegHolds(q, ekRecip.value, pok.z, pok.a.dRecip.value, p.dRecip.value, e))
  }

  /** The verifier, leg by leg. */
  function VerifyPok(q: int, sha512: Hash, h: int, pok: Pok, p: Partial, ekSender: int,
                     ekRecip: Option<int>, bind: seq<u8>): (ok: bool)
    requires q > 0 && pok.a.c >= 0 && pok.a.dSender >= 0 && p.c >= 0 && p.dSender >= 0
    ensures ok <==> LegsHold(q, h, pok, p, ekSender, ekRecip, PokChallenge(q, sha512, bind, pok.a, p))
  {
    if pok.a.dRecip.Some? != p.dRecip.Some? then false
    else if ekRecip.Some? != p.dRecip.Some? then false
    else
      var e := PokChallenge(q, sha512, bind, pok.a, p);
      if Mul(q, h, pok.z) != Add(q, pok.a.c, Mul(q, p.c, e)) then false
      else if Mul(q, ekSender, pok.z) != Add(q, pok.a.dSender, Mul(q, p.dSender, e)) then false
      else if ekRecip.Some? && Mul(q, ekRecip.value, pok.z) != Add(q, pok.a.dRecip.value, Mul(q, p.dRecip.value, e)) then false
      else true
  }

  lemma HonestLeg(q: int, base: int, k: int, r: int, e: int)
    requires q > 0
    ensures LegHolds(q, base, Add(q, k, Mul(q, e, r)), Mul(q, base, k), Mul(q, base, r), e)
  {
    var z := Add(q, k, Mul(q, e, r));
    Idem(q, e * r);
    AddLift(q, k, k, Mul(q, e, r), e * r);
    Idem(q, k + e * r);
    MulLift(q, base, base, z, k + e * r);
    Idem(q, base * k);
    Idem(q, base * r);
    MulLift(q, Mul(q, base, r), base * r, e, e);
    Idem(q, (base * r) * e);
    AddLift(q, Mul(q, base, k), base * k, Mul(q, Mul(q, base, r), e), (base * r) * e);
    assert base * (k + e * r) == base * k + (base * r) * e;
  }

  /** Completeness: the proof of any share, made with any nonce, verifies against its partial. */
  lemma HonestPokVerifies(q: int, sha512: Hash, h: int, r: int, k: int, ekSender: int,
                          ekRecip: Option<int>, bind: seq<u8>)
    requires q > 0
    ensures VerifyPok(q, sha512, h, ProvePok(q, sha512, h, r, k, ekSender, ekRecip, bind),
                      ComputePartial(q, h, r, ekSender, ekRecip), ekSender, ekRecip, bind)
  {
    var a := ComputePartial(q, h, k, ekSender, ekRecip);
    var p := ComputePartial(q, h, r, ekSender, ekRecip);
    var e := PokChallenge(q, sha512, bind, a, p);
    HonestLeg(q, h, k, r, e);
    HonestLeg(q, ekSender, k, r, e);
    if ekRecip.Some? { HonestLeg(q, ekRecip.value, k, r, e); }
  }

  lemma LegLift(q: int, base: int, z: int, a: int, d: int, e: int)
    requires q > 0 && LegHolds(q, base, z, a, d, e)
    ensures (base * z) % q == (a + d * e) % q
  {
    Idem(q, d * e);
    AddLift(q, a, a, Mul(q, d, e), d * e);
  }

  lemma LegDifference(q: int, base: int, z: int, y: int, a: int, d: int, e: int, f: int)
    requires q > 0 && (base * z) % q == (a + d * e) % q && (base * y) % q == (a + d * f) % q
    ensures ((e - f) * d) % q == (base * (z - y)) % q
  {
    CongSub(q, base * z, a + d * e, base * y, a + d * f);
    assert base * z - base * y == base * (z - y);
    assert d * e - d * f == (e - f) * d;
  }

  lemma DivideLeg(q: int, c: int, inv: int, d: int, base: int, x: int)
    requires q > 1 && (c * inv) % q == 1 && (c * d) % q == (base * x) % q
    ensures (base * (x * inv)) % q == d % q
  {
    UndoMul(q, inv, c, d);
    CongMul(q, c * d, base * x, inv, inv);
    assert inv * (c * d) == (c * d) * inv;
    assert (base * x) * inv == base * (x * inv);
  }

  lemma ExtractLeg(q: int, base: int, z: int, y: int, a: int, d: int, e: int, f: int, inv: int)
    requires IsPrime(q) && 0 <= d < q && ((e - f) * inv) % q == 1
    requires LegHolds(q, base, z, a, d, e) && LegHolds(q, base, y, a, d, f)
    ensures Mul(q, base, ((z - y) * inv) % q) == d
  {
    LegLift(q, base, z, a, d, e);
    LegLift(q, base, y, a, d, f);
    LegDifference(q, base, z, y, a, d, e, f);
    DivideLeg(q, e - f, inv, d, base, z - y);
    Idem(q, (z - y) * inv);
    MulLift(q, base, base, ((z - y) * inv) % q, (z - y) * inv);
    Small(q, d);
  }

  /**
   Extraction: two accepted proofs with the same nonce points, under different challenges, give one
   scalar whose partial this is, on every base.
   */
  lemma PokExtract(q: int, h: int, pok: Pok, pok': Pok, p: Partial, ekSender: int, ekRecip: Option<int>, e: int, f: int)
    requires IsPrime(q) && 0 <= p.c < q && 0 <= p.dSender < q && (p.dRecip.Some? ==> 0 <= p.dRecip.value < q)
    requires pok.a == pok'.a && (e - f) % q != 0
    requires LegsHold(q, h, pok, p, ekSender, ekRecip, e) && LegsHold(q, h, pok', p, ekSender, ekRecip, f)
    ensures p == ComputePartial(q, h, ((pok.z - pok'.z) * Invert(q, e - f)) % q, ekSender, ekRecip)
  {
    var inv := Invert(q, e - f);
    ExtractLeg(q, h, pok.z, pok'.z, pok.a.c, p.c, e, f, inv);
    ExtractLeg(q, ekSender, pok.z, pok'.z, pok.a.dSender, p.dSender, e, f, inv);
    if ekRecip.Some? {
      ExtractLeg(q, ekRecip.value, pok.z, pok'.z, pok.a.dRecip.value, p.dRecip.value, e, f, inv);
    }
  }
}
