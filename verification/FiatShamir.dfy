/** The Rust BCS writers, and the bytes from which the transfer challenge is hashed. */
module FiatShamir {
  import opened Wrappers
  import opened ModArith
  import opened PrimeField
  import opened Digits
  import opened Encoding
  import opened Bcs
  import opened BcsMessages

  datatype DomainSeparator =
    DomainSeparator(contractAddress: Bytes32, chainId: u8, protocolId: seq<u8>, sessionId: seq<u8>)

  method WriteUleb128(out: seq<u8>, value: u32) returns (r: seq<u8>)
    ensures r == out + Uleb(value)
  {
    r := out;
    var v: u32 := value;
    while v >= 0x80
      invariant r + Uleb(v) == out + Uleb(value)
    {
      Small(WORD, v);
      ConcatAssoc(r, [v % 0x80 + 0x80], Uleb(v / 0x80));
      r := r + [v % 0x80 + 0x80];
      v := v / 0x80;
    }
    Small(0x80, v);
    r := r + [v % 0x80];
  }

  /** A byte vector: its length is cast to 32 bits before it is written. */
  function Vector(b: seq<u8>): seq<u8> {
    Uleb(|b| % WORD) + b
  }

  function VectorList(list: seq<Bytes32>): seq<u8> {
    Uleb(|list| % WORD) + WriteAll(Vectors(list))
  }

  method WriteByteVector(out: seq<u8>, bytes: seq<u8>) returns (r: seq<u8>)
    ensures r == out + Vector(bytes)
  {
    r := WriteUleb128(out, |bytes| % WORD);
    r := r + bytes;
  }

  method WriteByteVectors(out: seq<u8>, list: seq<Bytes32>) returns (r: seq<u8>)
    ensures r == out + VectorList(list)
  {
    r := WriteUleb128(out, |list| % WORD);
    ghost var base := r;
    for i := 0 to |list|
      invariant r == base + WriteAll(Vectors(list)[..i])
    {
      Small(WORD, |list[i]|);
      WriteAllPrefix(Vectors(list), i);
      ConcatAssoc(base, WriteAll(Vectors(list)[..i]), Write(Vectors(list)[i]));
      r := WriteByteVector(r, list[i]);
    }
    assert Vectors(list)[..|list|] == Vectors(list);
    ConcatAssoc(out, Uleb(|list| % WORD), WriteAll(Vectors(list)));
  }

  function DomainBytes(dst: DomainSeparator): seq<u8> {
    [0] + dst.contractAddress + [dst.chainId] + Vector(dst.protocolId) + Vector(dst.sessionId)
  }

  /** What the challenge of a transfer is derived from. */
  function FiatShamirBytes(dst: DomainSeparator, typeName: seq<u8>, k: u64, points: seq<Bytes32>,
                           scalars: seq<Bytes32>, commitment: seq<Bytes32>): seq<u8>
  {
    DomainBytes(dst) + Vector(typeName) + BytesOf(k, 8) + VectorList(points) + VectorList(scalars) +
    VectorList(commitment)
  }

  method WriteDomain(out: seq<u8>, dst: DomainSeparator) returns (r: seq<u8>)
    requires out == []
    ensures r == DomainBytes(dst)
  {
    r := WriteUleb128(out, 0);
    r := r + dst.contractAddress;
    r := r + [dst.chainId];
    r := WriteByteVector(r, dst.protocolId);
    r := WriteByteVector(r, dst.sessionId);
  }

  method BcsFiatShamirInputs(dst: DomainSeparator, typeName: seq<u8>, k: u64, points: seq<Bytes32>,
                             scalars: seq<Bytes32>, commitment: seq<Bytes32>) returns (out: seq<u8>)
    ensures out == FiatShamirBytes(dst, typeName, k, points, scalars, commitment)
  {
    out := WriteDomain([], dst);
    out := WriteByteVector(out, typeName);
    out := out + BytesOf(k, 8);
    out := WriteByteVectors(out, points);
    out := WriteByteVectors(out, scalars);
    out := WriteByteVectors(out, commitment);
  }

  function DomainFields(dst: DomainSeparator): (fs: seq<Field>)
    ensures |fs| == 5
  {
    [U8(0)] + [Fixed(dst.contractAddress)] + [U8(dst.chainId)] + [Bytes(dst.protocolId)] + [Bytes(dst.sessionId)]
  }

  /** The same as a record of fields. */
  function FiatShamirFields(dst: DomainSeparator, typeName: seq<u8>, k: u64, points: seq<Bytes32>,
                            scalars: seq<Bytes32>, commitment: seq<Bytes32>): (fs: seq<Field>)
    ensures |fs| == 10
  {
    DomainFields(dst) + [Bytes(typeName)] + [U64(k)] + [List(Vectors(points))] + [List(Vectors(scalars))] +
    [List(Vectors(commitment))]
  }

  function FiatShamirKinds(): (ks: seq<Kind>)
    ensures |ks| == 10
  {
    [KU8, KFixed(32), KU8, KBytes, KBytes, KBytes, KU64, KList(KBytes), KList(KBytes), KList(KBytes)]
  }

  lemma DomainIsRecord(dst: DomainSeparator)
    requires |dst.protocolId| < WORD && |dst.sessionId| < WORD
    ensures DomainBytes(dst) == WriteAll(DomainFields(dst))
  {
    Small(WORD, |dst.protocolId|);
    Small(WORD, |dst.sessionId|);
    var f1 := [U8(0)];
    var f2 := f1 + [Fixed(dst.contractAddress)];
    var f3 := f2 + [U8(dst.chainId)];
    WriteSnoc(f1, Fixed(dst.contractAddress));
    WriteSnoc(f2, U8(dst.chainId));
    WriteSnoc(f3, Bytes(dst.protocolId));
    WriteSnoc(f3 + [Bytes(dst.protocolId)], Bytes(dst.sessionId));
  }

  lemma VectorListIsField(list: seq<Bytes32>)
    requires |list| < WORD
    ensures VectorList(list) == Write(List(Vectors(list)))
  {
    Small(WORD, |list|);
  }

  predicate Encodable(dst: DomainSeparator, typeName: seq<u8>, points: seq<Bytes32>, scalars: seq<Bytes32>,
                      commitment: seq<Bytes32>)
  {
    && |dst.protocolId| < WORD && |dst.sessionId| < WORD && |typeName| < WORD
    && |points| < WORD && |scalars| < WORD && |commitment| < WORD
  }

  lemma FiatShamirIsRecord(dst: DomainSeparator, typeName: seq<u8>, k: u64, points: seq<Bytes32>,
                           scalars: seq<Bytes32>, commitment: seq<Bytes32>)
    requires Encodable(dst, typeName, points, scalars, commitment)
    ensures FiatShamirBytes(dst, typeName, k, points, scalars, commitment)
         == WriteAll(FiatShamirFields(dst, typeName, k, points, scalars, commitment))
  {
    var f5 := DomainFields(dst);
    var f6 := f5 + [Bytes(typeName)];
    var f7 := f6 + [U64(k)];
    var f8 := f7 + [List(Vectors(points))];
    DomainIsRecord(dst);
    Small(WORD, |typeName|);
    VectorListIsField(points);
    VectorListIsField(scalars);
    VectorListIsField(commitment);
    WriteSnoc(f5, Bytes(typeName));
    WriteSnoc(f6, U64(k));
    WriteSnoc(f7, List(Vectors(points)));
    WriteSnoc(f8, List(Vectors(scalars)));
    WriteSnoc(f8 + [List(Vectors(scalars))], List(Vectors(commitment)));
  }

  /** The fields that a challenge's preimage consists of. */
  ghost predicate Parts(fs: seq<Field>, dst: DomainSeparator, typeName: seq<u8>, k: u64, points: seq<Bytes32>,
                        scalars: seq<Bytes32>, commitment: seq<Bytes32>)
  {
    && |fs| == 10
    && fs[0] == U8(0) && fs[1] == Fixed(dst.contractAddress) && fs[2] == U8(dst.chainId)
    && fs[3] == Bytes(dst.protocolId) && fs[4] == Bytes(dst.sessionId)
    && fs[5] == Bytes(typeName) && fs[6] == U64(k)
    && fs[7] == List(Vectors(points)) && fs[8] == List(Vectors(scalars)) && fs[9] == List(Vectors(commitment))
  }

  lemma FieldsParts(dst: DomainSeparator, typeName: seq<u8>, k: u64, points: seq<Bytes32>,
                    scalars: seq<Bytes32>, commitment: seq<Bytes32>)
    ensures Parts(FiatShamirFields(dst, typeName, k, points, scalars, commitment),
                  dst, typeName, k, points, scalars, commitment)
  {
  }

  lemma PartsFit(fs: seq<Field>, dst: DomainSeparator, typeName: seq<u8>, k: u64, points: seq<Bytes32>,
                 scalars: seq<Bytes32>, commitment: seq<Bytes32>)
    requires Parts(fs, dst, typeName, k, points, scalars, commitment)
    requires Encodable(dst, typeName, points, scalars, commitment)
    ensures AllFit(fs) && HasKinds(fs, FiatShamirKinds())
  {
    VectorsShape(points);
    VectorsShape(scalars);
    VectorsShape(commitment);
  }

  /** One preimage, one transcript: the challenge binds the domain, the statement and the commitment. */
  lemma FiatShamirInjective(d: DomainSeparator, t: seq<u8>, k: u64, xs: seq<Bytes32>, ss: seq<Bytes32>,
                            cs: seq<Bytes32>, d': DomainSeparator, t': seq<u8>, k': u64,
                            xs': seq<Bytes32>, ss': seq<Bytes32>, cs': seq<Bytes32>)
    requires Encodable(d, t, xs, ss, cs) && Encodable(d', t', xs', ss', cs')
    requires FiatShamirBytes(d, t, k, xs, ss, cs) == FiatShamirBytes(d', t', k', xs', ss', cs')
    ensures d == d' && t == t' && k == k' && xs == xs' && ss == ss' && cs == cs'
  {
    var fs, fs' := FiatShamirFields(d, t, k, xs, ss, cs), FiatShamirFields(d', t', k', xs', ss', cs');
    FiatShamirIsRecord(d, t, k, xs, ss, cs);
    FiatShamirIsRecord(d', t', k', xs', ss', cs');
    FieldsParts(d, t, k, xs, ss, cs);
    FieldsParts(d', t', k', xs', ss', cs');
    PartsFit(fs, d, t, k, xs, ss, cs);
    PartsFit(fs', d', t', k', xs', ss', cs');
    RecordsInjective(FiatShamirKinds(), fs, fs');
  }
}
