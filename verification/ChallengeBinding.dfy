/** What the challenges are hashed from, byte by byte, and that they bind all of it. */
module ChallengeBinding {
  import opened ModArith
  import opened PrimeField
  import opened Digits
  import opened Encoding
  import opened Bcs
  import opened BcsMessages
  import opened FiatShamir
  import opened TransferForm
  import opened TransferSigma
  import opened TransferProof
  import TwistedElGamal
  import Prng

  // ---- the bytes ---------------------------------------------------------------------------

  /** A list of 32-byte vectors, each after its length. */
  function Listed32(list: seq<Bytes32>): seq<u8> {
    if list == [] then [] else [32] + list[0] + Listed32(list[1..])
  }

  lemma {:induction false} ListedVectors(list: seq<Bytes32>)
    ensures WriteAll(Vectors(list)) == Listed32(list)
  {
    if list != [] {
      ListedVectors(list[1..]);
      assert Vectors(list)[1..] == Vectors(list[1..]);
      assert Write(Vectors(list)[0]) == [32] + list[0];
    }
  }

  /** The type name in ASCII: 0x1::sigma_protocol_transfer::Transfer. */
  lemma TypeNameBytes()
    ensures Ascii(TYPE_NAME) == [
              0x30, 0x78, 0x31, 0x3A, 0x3A, 0x73, 0x69, 0x67, 0x6D, 0x61, 0x5F, 0x70, 0x72, 0x6F, 0x74, 0x6F, 0x63, 0x6F,
              0x6C, 0x5F, 0x74, 0x72, 0x61, 0x6E, 0x73, 0x66, 0x65, 0x72, 0x3A, 0x3A, 0x54, 0x72, 0x61, 0x6E, 0x73, 0x66,
              0x65, 0x72]
  {
  }

  /** The challenge of a transfer: two rounds of SHA-512, the second over the first and a zero byte. */
  lemma ChallengeIs(q: int, sha512: Hash, dst: DomainSeparator, stmt: Statement, k: nat, commitment: seq<Bytes32>)
    requires q > 0 && k < 0x1_0000_0000_0000_0000
    requires |dst.protocolId| < 0x1_0000_0000 && |dst.sessionId| < 0x1_0000_0000
    requires |stmt.compressed| < 0x1_0000_0000 && |stmt.scalars| < 0x1_0000_0000 && |commitment| < 0x1_0000_0000
    ensures TranscriptChallenge(q, sha512, dst, stmt, k, commitment)
         == Value(0x100, sha512(sha512(
              [0] + dst.contractAddress + [dst.chainId] + (Uleb(|dst.protocolId|) + dst.protocolId) +
              (Uleb(|dst.sessionId|) + dst.sessionId) +
              ([38] +
               [0x30, 0x78, 0x31, 0x3A, 0x3A, 0x73, 0x69, 0x67, 0x6D, 0x61, 0x5F, 0x70, 0x72, 0x6F, 0x74, 0x6F, 0x63, 0x6F,
                0x6C, 0x5F, 0x74, 0x72, 0x61, 0x6E, 0x73, 0x66, 0x65, 0x72, 0x3A, 0x3A, 0x54, 0x72, 0x61, 0x6E, 0x73, 0x66,
                0x65, 0x72]) +
              BytesOf(k, 8) + (Uleb(|stmt.compressed|) + Listed32(stmt.compressed)) +
              (Uleb(|stmt.scalars|) + Listed32(stmt.scalars)) + (Uleb(|commitment|) + Listed32(commitment))) + [0])) % q
  {
    TypeNameBytes();
    ListedVectors(stmt.compressed);
    ListedVectors(stmt.scalars);
    ListedVectors(commitment);
    Small(WORD, |dst.protocolId|);
    Small(WORD, |dst.sessionId|);
    Small(WORD, |stmt.compressed|);
    Small(WORD, |stmt.scalars|);
    Small(WORD, |commitment|);
    Small(0x1_0000_0000_0000_0000, k);
  }

  // ---- binding -----------------------------------------------------------------------------

  function Zero64(): (r: seq<u8>)
    ensures |r| == 64 && forall i :: 0 <= i < 64 ==> r[i] == 0
  {
    seq<u8>(64, _ => 0)
  }

  /** The number one in 64 little-endian bytes. */
  function One64(): (r: seq<u8>)
    ensures |r| == 64 && r[0] == 1 && forall i :: 1 <= i < 64 ==> r[i] == 0
  {
    [1] + seq<u8>(63, _ => 0)
  }

  lemma ValuesOf64()
    ensures Value(BYTE, Zero64()) == 0 && Value(BYTE, One64()) == 1
  {
    Zeros(BYTE, Zero64(), 64);
    SameDigits(BYTE, One64()[0 := 0], Zero64(), 64);
    Update(BYTE, One64(), 0, 0, 64);
  }

  /** A hash that tells one input from all others. */
  function Telling(b: seq<u8>): Hash {
    x => if x == b || x == One64() + [0] then One64() else Zero64()
  }

  lemma TellsApart(q: int, b: seq<u8>, b': seq<u8>)
    requires q > 1 && b != b' && |b| != 65 && |b'| != 65
    ensures Challenge(q, Telling(b), b) == 1 && Challenge(q, Telling(b), b') == 0
  {
    ValuesOf64();
    Small(q, 0);
    Small(q, 1);
    assert (Zero64() + [0])[0] == 0 && (One64() + [0])[0] == 1;
  }

  lemma PreimageIsLong(dst: DomainSeparator, k: u64, points: seq<Bytes32>, scalars: seq<Bytes32>, commitment: seq<Bytes32>)
    ensures |FiatShamirBytes(dst, Ascii(TYPE_NAME), k, points, scalars, commitment)| > 65
  {
    assert |Ascii(TYPE_NAME)| == 38;
  }

  /**
   The challenge binds its transcript: if two transcripts differ in the domain, the number of
   responses, the statement or the commitment, then some hash gives them different challenges.
   */
  lemma ChallengeBinds(q: int, d: DomainSeparator, s: Statement, k: u64, c: seq<Bytes32>,
                       d': DomainSeparator, s': Statement, k': u64, c': seq<Bytes32>) returns (sha512: Hash)
    requires q > 1 && Encodable(d, Ascii(TYPE_NAME), s.compressed, s.scalars, c)
    requires Encodable(d', Ascii(TYPE_NAME), s'.compressed, s'.scalars, c')
    requires d != d' || s.compressed != s'.compressed || s.scalars != s'.scalars || k != k' || c != c'
    ensures forall x :: |sha512(x)| == 64
    ensures TranscriptChallenge(q, sha512, d, s, k, c) == 1 && TranscriptChallenge(q, sha512, d', s', k', c') == 0
  {
    var t := Ascii(TYPE_NAME);
    var b, b' := FiatShamirBytes(d, t, k, s.compressed, s.scalars, c), FiatShamirBytes(d', t, k', s'.compressed, s'.scalars, c');
    if b == b' {
      FiatShamirInjective(d, t, k, s.compressed, s.scalars, c, d', t, k', s'.compressed, s'.scalars, c');
    }
    PreimageIsLong(d, k, s.compressed, s.scalars, c);
    PreimageIsLong(d', k', s'.compressed, s'.scalars, c');
    TellsApart(q, b, b');
    Small(0x1_0000_0000_0000_0000, k);
    Small(0x1_0000_0000_0000_0000, k');
    sha512 := Telling(b);
  }

  /** The verifier checks every position with the challenge of the proof's own commitment. */
  lemma VerifierChallenge(q: int, sha512: Hash, proof: Proof, stmt: Statement, dst: DomainSeparator, ell: nat, n: nat)
    requires q > 0 && |stmt.points| >= PointsLen(ell, n)
    ensures Accepted(q, sha512, proof, stmt, dst, ell, n) <==>
            |proof.response| == 1 + 2 * ell + 2 * n && |proof.commitment| == 2 + 2 * ell + 3 * n &&
            forall i :: 0 <= i < |proof.commitment| ==>
              PositionOk(q, stmt.points, proof.commitment,
                         TranscriptChallenge(q, sha512, dst, stmt, |proof.response|, proof.commitment),
                         Scalars(q, proof.response), ell, n, i)
  {
  }

  /** The check: psi of the response is the commitment plus the challenge times the target. */
  lemma VerifierEquation(q: int, points: seq<int>, commitment: seq<Bytes32>, e: int, s: seq<int>, ell: nat, n: nat, i: nat)
    requires q > 0 && |points| >= PointsLen(ell, n) && |s| == WitnessLen(ell, n)
    requires i < |commitment| == CommitmentLen(ell, n)
    ensures PositionOk(q, points, commitment, e, s, ell, n, i) <==>
            Value(0x100, commitment[i]) < q &&
            PsiAt(points, s, ell, n, i) % q == (Value(0x100, commitment[i]) + e * FAt(points, ell, n, i)) % q
  {
  }

  /** ... so two proofs with different commitments are checked with different challenges, for some hash. */
  lemma VerifierBinds(q: int, p: Proof, p': Proof, stmt: Statement, dst: DomainSeparator) returns (sha512: Hash)
    requires q > 1 && p.commitment != p'.commitment && |p.response| == |p'.response| < WORD
    requires Encodable(dst, Ascii(TYPE_NAME), stmt.compressed, stmt.scalars, p.commitment)
    requires |p'.commitment| < WORD
    ensures HonestChallenge(q, sha512, p, stmt, dst) != HonestChallenge(q, sha512, p', stmt, dst)
  {
    sha512 := ChallengeBinds(q, dst, stmt, |p.response|, p.commitment, dst, stmt, |p'.response|, p'.commitment);
  }

  /** Prover and verifier together: an honest proof is accepted if and only if the witness is valid or the challenge zero. */
  method ProveAndVerify(q: int, sha512: Hash, w: seq<int>, stmt: Statement, alpha: seq<int>, dst: DomainSeparator,
                        ell: nat, n: nat) returns (accepted: bool)
    requires IsPrime(q) && q <= Pow(BYTE, SCALAR_BYTES)
    requires |stmt.points| >= PointsLen(ell, n) && ValidPoints(q, stmt.points) && |w| == |alpha| == WitnessLen(ell, n)
    ensures accepted <==>
            Relation(q, stmt.points, w, ell, n) ||
            TranscriptChallenge(q, sha512, dst, stmt, |w|, Compressed(Psi(q, stmt.points, alpha, ell, n))) == 0
  {
    var proof := ProveTransferSingleParty(q, sha512, w, stmt, alpha, dst, ell, n, false, 0);
    CompleteExactly(q, sha512, w, alpha, proof.value, stmt, dst, ell, n);
    var verdict := VerifyTransferSingleParty(q, sha512, proof.value, stmt, dst, ell, n, false, 0);
    return verdict.Ok? && verdict.value;
  }

  // ---- the proof of a share ----------------------------------------------------------------

  /** A nonce or partial whose points are residues. */
  predicate Reduced(q: int, p: TwistedElGamal.Partial) {
    0 <= p.c < q && 0 <= p.dSender < q && (p.dRecip.Some? ==> 0 <= p.dRecip.value < q)
  }

  /** The challenge of a share proof: one round, over the domain, the context, the nonce points and the partial's. */
  lemma PokChallengeIs(q: int, sha512: Hash, bind: seq<u8>, a: TwistedElGamal.Partial, p: TwistedElGamal.Partial)
    requires 0 < q && Reduced(q, a) && Reduced(q, p)
    ensures TwistedElGamal.PokChallenge(q, sha512, bind, a, p)
         == Value(0x100, sha512(Ascii("EUNOMA_M4B_RSHARE_POK_V1") + bind +
              (BytesOf(a.c, 32) + BytesOf(a.dSender, 32) + (if a.dRecip.Some? then BytesOf(a.dRecip.value, 32) else [])) +
              (BytesOf(p.c, 32) + BytesOf(p.dSender, 32) + (if p.dRecip.Some? then BytesOf(p.dRecip.value, 32) else [])))) % q
  {
  }

  lemma EncodeInjective(q: int, x: int, y: int)
    requires 0 <= x < q <= Pow(BYTE, SCALAR_BYTES) && 0 <= y < q && Encode(x) == Encode(y)
    ensures x == y
  {
    EncodeDecode(q, x);
    EncodeDecode(q, y);
  }

  lemma LegsDetermine(q: int, a: TwistedElGamal.Partial, a': TwistedElGamal.Partial)
    requires 0 < q <= Pow(BYTE, SCALAR_BYTES) && Reduced(q, a) && Reduced(q, a')
    requires TwistedElGamal.LegBytes(a) == TwistedElGamal.LegBytes(a')
    ensures a == a'
  {
    var b, b' := TwistedElGamal.LegBytes(a), TwistedElGamal.LegBytes(a');
    assert b[..32] == Encode(a.c) && b'[..32] == Encode(a'.c);
    assert b[32..64] == Encode(a.dSender) && b'[32..64] == Encode(a'.dSender);
    EncodeInjective(q, a.c, a'.c);
    EncodeInjective(q, a.dSender, a'.dSender);
    assert b[64..] == TwistedElGamal.OptionalBytes(a.dRecip) && b'[64..] == TwistedElGamal.OptionalBytes(a'.dRecip);
    if a.dRecip.Some? && a'.dRecip.Some? { EncodeInjective(q, a.dRecip.value, a'.dRecip.value); }
  }

  function PokPreimage(bind: seq<u8>, a: TwistedElGamal.Partial, p: TwistedElGamal.Partial): seq<u8>
    requires a.c >= 0 && a.dSender >= 0 && p.c >= 0 && p.dSender >= 0
  {
    Ascii(TwistedElGamal.RSHARE_POK_DOMAIN) + bind + TwistedElGamal.LegBytes(a) + TwistedElGamal.LegBytes(p)
  }

  /** Contexts of one length and legs whose presence agrees, as the verifier demands, are determined by the bytes. */
  lemma PokPreimageInjective(q: int, bind: seq<u8>, a: TwistedElGamal.Partial, p: TwistedElGamal.Partial,
                             bind': seq<u8>, a': TwistedElGamal.Partial, p': TwistedElGamal.Partial)
    requires 0 < q <= Pow(BYTE, SCALAR_BYTES) && Reduced(q, a) && Reduced(q, p) && Reduced(q, a') && Reduced(q, p')
    requires |bind| == |bind'| && a.dRecip.Some? == p.dRecip.Some? && a'.dRecip.Some? == p'.dRecip.Some?
    requires PokPreimage(bind, a, p) == PokPreimage(bind', a', p')
    ensures bind == bind' && a == a' && p == p'
  {
    var (d, legs, legs') := (Ascii(TwistedElGamal.RSHARE_POK_DOMAIN), TwistedElGamal.LegBytes(a), TwistedElGamal.LegBytes(a'));
    var (b, b') := (PokPreimage(bind, a, p), PokPreimage(bind', a', p'));
    var (m, n) := (|d|, |d| + |bind|);
    assert b[m..n] == bind && b'[m..n] == bind';
    assert |legs| + |TwistedElGamal.LegBytes(p)| == |legs'| + |TwistedElGamal.LegBytes(p')|;
    assert b[n..n + |legs|] == legs && b'[n..n + |legs|] == legs';
    assert b[n + |legs|..] == TwistedElGamal.LegBytes(p) && b'[n + |legs|..] == TwistedElGamal.LegBytes(p');
    LegsDetermine(q, a, a');
    LegsDetermine(q, p, p');
  }

  /** ... so the challenge binds the context, the nonce points and the partial. */
  lemma PokChallengeBinds(q: int, bind: seq<u8>, a: TwistedElGamal.Partial, p: TwistedElGamal.Partial,
                          bind': seq<u8>, a': TwistedElGamal.Partial, p': TwistedElGamal.Partial) returns (sha512: Hash)
    requires 1 < q <= Pow(BYTE, SCALAR_BYTES) && Reduced(q, a) && Reduced(q, p) && Reduced(q, a') && Reduced(q, p')
    requires |bind| == |bind'| && a.dRecip.Some? == p.dRecip.Some? && a'.dRecip.Some? == p'.dRecip.Some?
    requires bind != bind' || a != a' || p != p'
    ensures forall x :: |sha512(x)| == 64
    ensures TwistedElGamal.PokChallenge(q, sha512, bind, a, p) == 1
    ensures TwistedElGamal.PokChallenge(q, sha512, bind', a', p') == 0
  {
    var b, b' := PokPreimage(bind, a, p), PokPreimage(bind', a', p');
    if b == b' { PokPreimageInjective(q, bind, a, p, bind', a', p'); }
    assert |b| != 65 && |b'| != 65 by {
      assert |Ascii(TwistedElGamal.RSHARE_POK_DOMAIN)| == 24 && |b| >= 24 + 128 && |b'| >= 24 + 128;
    }
    ValuesOf64();
    Small(q, 0);
    Small(q, 1);
    sha512 := Telling(b);
  }

  // ---- the generator -----------------------------------------------------------------------

  lemma {:induction false} ZeroBytes(n: nat)
    ensures |BytesOf(0, n)| == n && forall i :: 0 <= i < n ==> BytesOf(0, n)[i] == 0
  {
    if n > 0 { ZeroBytes(n - 1); }
  }

  /** The blocks of the stream: the seed followed by the counter, big-endian in eight bytes. */
  lemma BlockIs(sha256: Prng.Digest, seed: seq<u8>, low: u8, next: u8)
    ensures Prng.Block(sha256, seed, 0x100 * next + low) == sha256(seed + [0, 0, 0, 0, 0, 0, next, low])
  {
    var i := 0x100 * next + low;
    Small(0x1_0000_0000_0000_0000, i);
    assert i % BYTE == low && i / BYTE == next && next % BYTE == next && next / BYTE == 0;
    ZeroBytes(6);
    assert BytesOf(i, 8) == [low] + BytesOf(next, 7);
    assert BytesOf(next, 7) == [next] + BytesOf(0, 6);
    assert Prng.Reversed(BytesOf(i, 8)) == [0, 0, 0, 0, 0, 0, next, low];
  }

  /** The stream starts with block 0. */
  lemma FirstBlock(sha256: Prng.Digest, seed: seq<u8>)
    ensures Prng.Stream(sha256, seed, 0, 32) == sha256(seed + [0, 0, 0, 0, 0, 0, 0, 0])
    ensures Prng.Stream(sha256, seed, 32, 32) == sha256(seed + [0, 0, 0, 0, 0, 0, 0, 1])
  {
    BlockIs(sha256, seed, 0, 0);
    BlockIs(sha256, seed, 1, 0);
  }
}
