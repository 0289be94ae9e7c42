/** The attestation messages and the confidential-transfer payload, written by the BCS writer. */
module BcsMessages {
  import opened Wrappers
  import opened Digits
  import opened Encoding
  import opened Bcs

  datatype WriteError = U8OutOfRange | U64OutOfRange | UlebOutOfRange | AddressLength

  const DOMAIN_DEPOSIT_BIND_V2: string := "EUNOMA_DEPOSIT_BIND_V3"
  const DOMAIN_WITHDRAW_ATTESTATION_V2: string := "EUNOMA_WITHDRAW_ATTESTATION_V2"

  predicate IsU64(v: int) {
    0 <= v < 0x1_0000_0000_0000_0000
  }

  lemma IsU64Is(v: int)
    ensures IsU64(v) <==> 0 <= v <= 18446744073709551615
  {
  }

  function Vectors(bs: seq<seq<u8>>): (r: seq<Field>)
    ensures |r| == |bs| && forall i :: 0 <= i < |bs| ==> r[i] == Bytes(bs[i])
  {
    seq(|bs|, i requires 0 <= i < |bs| => Bytes(bs[i]))
  }

  function VectorLists(bss: seq<seq<seq<u8>>>): (r: seq<Field>)
    ensures |r| == |bss| && forall i :: 0 <= i < |bss| ==> r[i] == List(Vectors(bss[i]))
  {
    seq(|bss|, i requires 0 <= i < |bss| => List(Vectors(bss[i])))
  }

  function NumberOf(f: Field): int {
    match f
    case U8(v) => v
    case U64(v) => v
    case _ => 0
  }

  function BytesIn(f: Field): seq<u8> {
    match f
    case Fixed(raw) => raw
    case Bytes(b) => b
    case _ => []
  }

  function VectorsIn(f: Field): seq<seq<u8>> {
    match f
    case List(items) => seq(|items|, i requires 0 <= i < |items| => BytesIn(items[i]))
    case _ => []
  }

  function VectorListsIn(f: Field): seq<seq<seq<u8>>> {
    match f
    case List(items) => seq(|items|, i requires 0 <= i < |items| => VectorsIn(items[i]))
    case _ => []
  }

  lemma VectorsShape(bs: seq<seq<u8>>)
    ensures HasKind(List(Vectors(bs)), KList(KBytes)) && VectorsIn(List(Vectors(bs))) == bs
  {
    forall i | 0 <= i < |bs| ensures HasKind(Vectors(bs)[i], KBytes) {}
  }

  lemma VectorListsShape(bss: seq<seq<seq<u8>>>)
    ensures HasKind(List(VectorLists(bss)), KList(KList(KBytes))) && VectorListsIn(List(VectorLists(bss))) == bss
  {
    forall i | 0 <= i < |bss| ensures HasKind(VectorLists(bss)[i], KList(KBytes)) { VectorsShape(bss[i]); }
    forall i | 0 <= i < |bss| { VectorsShape(bss[i]); }
  }

  lemma VectorsForth(f: Field)
    requires HasKind(f, KList(KBytes))
    ensures List(Vectors(VectorsIn(f))) == f
  {
    forall i | 0 <= i < |f.items| ensures Vectors(VectorsIn(f))[i] == f.items[i] {
      assert HasKind(f.items[i], KBytes);
    }
    assert Vectors(VectorsIn(f)) == f.items;
  }

  lemma VectorListsForth(f: Field)
    requires HasKind(f, KList(KList(KBytes)))
    ensures List(VectorLists(VectorListsIn(f))) == f
  {
    forall i | 0 <= i < |f.items| ensures VectorLists(VectorListsIn(f))[i] == f.items[i] {
      VectorsForth(f.items[i]);
    }
    assert VectorLists(VectorListsIn(f)) == f.items;
  }

  lemma {:induction false} WriteAllAppend(fs: seq<Field>, gs: seq<Field>)
    ensures WriteAll(fs + gs) == WriteAll(fs) + WriteAll(gs)
  {
    if fs == [] {
      assert [] + gs == gs;
    } else {
      WriteAllAppend(fs[1..], gs);
      assert (fs + gs)[1..] == fs[1..] + gs;
      WriteAllStep(fs, WriteAll(gs));
    }
  }

  lemma WriteAllPrefix(fs: seq<Field>, i: nat)
    requires i < |fs|
    ensures WriteAll(fs[..i + 1]) == WriteAll(fs[..i]) + Write(fs[i])
  {
    WriteAllAppend(fs[..i], [fs[i]]);
    assert [fs[i]][1..] == [];
    assert fs[..i + 1] == fs[..i] + [fs[i]];
  }

  /** Writing a record that ends in one more field. */
  lemma WriteSnoc(fs: seq<Field>, f: Field)
    ensures WriteAll(fs + [f]) == WriteAll(fs) + Write(f)
  {
    WriteAllAppend(fs, [f]);
  }

  /** The concatenation of chunks of bytes. */
  function Joined(chunks: seq<seq<u8>>): seq<u8> {
    if chunks == [] then [] else chunks[0] + Joined(chunks[1..])
  }

  lemma {:induction false} JoinedSnoc(chunks: seq<seq<u8>>, c: seq<u8>)
    ensures Joined(chunks + [c]) == Joined(chunks) + c
  {
    if chunks == [] {
      assert chunks + [c] == [c] && [c][1..] == [];
    } else {
      JoinedSnoc(chunks[1..], c);
      assert (chunks + [c])[1..] == chunks[1..] + [c];
      ConcatAssoc(chunks[0], Joined(chunks[1..]), c);
    }
  }

  /** Byte vectors, each after its length. */
  function Prefixed(list: seq<seq<u8>>): seq<u8> {
    if list == [] then [] else Uleb(|list[0]|) + list[0] + Prefixed(list[1..])
  }

  /** Lists of byte vectors, each after its length. */
  function PrefixedLists(lists: seq<seq<seq<u8>>>): seq<u8> {
    if lists == [] then [] else Uleb(|lists[0]|) + Prefixed(lists[0]) + PrefixedLists(lists[1..])
  }

  lemma {:induction false} PrefixedIs(list: seq<seq<u8>>)
    ensures WriteAll(Vectors(list)) == Prefixed(list)
  {
    if list != [] {
      PrefixedIs(list[1..]);
      assert Vectors(list)[1..] == Vectors(list[1..]);
    }
  }

  lemma {:induction false} PrefixedListsIs(lists: seq<seq<seq<u8>>>)
    ensures WriteAll(VectorLists(lists)) == PrefixedLists(lists)
  {
    if lists != [] {
      PrefixedListsIs(lists[1..]);
      PrefixedIs(lists[0]);
      assert VectorLists(lists)[1..] == VectorLists(lists[1..]);
    }
  }

  /** The bytes of a record that opens with a short vector open with that vector's length. */
  lemma WriteAllFirst(fs: seq<Field>)
    requires fs != [] && fs[0].Bytes? && |fs[0].b| < 0x80
    ensures WriteAll(fs) != [] && WriteAll(fs)[0] == |fs[0].b|
  {
  }

  lemma {:induction false} ReadRecordKinds(ks: seq<Kind>, s: seq<u8>)
    ensures ReadRecord(ks, s).Some? ==> |ReadRecord(ks, s).value.0| == |ks|
  {
    if ks != [] && ReadRecord(ks, s).Some? { ReadRecordKinds(ks[1..], Read(ks[0], s).value.1); }
  }

  lemma ByteStep(parts: seq<u8>, remaining: nat, n: nat)
    ensures parts + BytesOf(remaining, n + 1) == parts + [remaining % 0x100] + BytesOf(remaining / 0x100, n)
  {
  }

  /** The byte buffer of the encoders; `fields` and `chunks` record what has been written so far. */
  class Writer {
    var parts: seq<u8>
    ghost var fields: seq<Field>
    ghost var chunks: seq<seq<u8>>

    ghost predicate Valid()
      reads this
    {
      parts == WriteAll(fields) && parts == Joined(chunks)
    }

    constructor ()
      ensures Valid() && fields == [] && chunks == []
    {
      parts, fields, chunks := [], [], [];
    }

    method WriteBytesRaw(bytes: seq<u8>)
      modifies this`parts
      ensures parts == old(parts) + bytes
    {
      for i := 0 to |bytes|
        invariant parts == old(parts) + bytes[..i]
      {
        parts := parts + [bytes[i]];
      }
    }

    ghost method Record(f: Field, chunk: seq<u8>)
      requires parts == WriteAll(fields) + Write(f) && parts == Joined(chunks) + chunk
      modifies this`fields, this`chunks
      ensures Valid() && fields == old(fields) + [f] && chunks == old(chunks) + [chunk]
    {
      WriteAllAppend(fields, [f]);
      JoinedSnoc(chunks, chunk);
      assert [f][1..] == [];
      fields, chunks := fields + [f], chunks + [chunk];
    }

    method WriteU8(value: int) returns (o: Outcome<WriteError>)
      requires Valid()
      modifies this
      ensures Valid() && (o.Pass? <==> 0 <= value < 0x100)
      ensures fields == if o.Pass? then old(fields) + [U8(value)] else old(fields)
      ensures o.Pass? ==> chunks == old(chunks) + [[value]]
    {
      if value < 0 || value > 0xff {
        return Fail(U8OutOfRange);
      }
      parts := parts + [value];
      Record(U8(value), [value]);
      return Pass;
    }

    method WriteU64(value: int) returns (o: Outcome<WriteError>)
      requires Valid()
      modifies this
      ensures Valid() && (o.Pass? <==> IsU64(value))
      ensures fields == if o.Pass? then old(fields) + [U64(value)] else old(fields)
      ensures o.Pass? ==> chunks == old(chunks) + [BytesOf(value, 8)]
    {
      if !IsU64(value) {
        return Fail(U64OutOfRange);
      }
      var remaining := value;
      ghost var all := parts + BytesOf(value, 8);
      for i := 0 to 8
        invariant remaining >= 0 && parts + BytesOf(remaining, 8 - i) == all
        invariant fields == old(fields) && chunks == old(chunks)
      {
        ByteStep(parts, remaining, 7 - i);
        parts := parts + [remaining % 0x100];
        remaining := remaining / 0x100;
      }
      Record(U64(value), BytesOf(value, 8));
      return Pass;
    }

    method WriteUleb128(value: int) returns (o: Outcome<WriteError>)
      modifies this`parts
      ensures o.Pass? <==> value >= 0
      ensures parts == if value >= 0 then old(parts) + Uleb(value) else old(parts)
    {
      if value < 0 {
        return Fail(UlebOutOfRange);
      }
      var remaining := value;
      while remaining >= 0x80
        invariant remaining >= 0 && parts + Uleb(remaining) == old(parts) + Uleb(value)
      {
        parts := parts + [remaining % 0x80 + 0x80];
        remaining := (remaining % WORD) / 0x80;
      }
      parts := parts + [remaining];
      return Pass;
    }

    method WriteVector(bytes: seq<u8>)
      requires Valid()
      modifies this
      ensures Valid() && fields == old(fields) + [Bytes(bytes)]
      ensures chunks == old(chunks) + [Uleb(|bytes|) + bytes]
    {
      var _ := WriteUleb128(|bytes|);
      WriteBytesRaw(bytes);
      Record(Bytes(bytes), Uleb(|bytes|) + bytes);
    }

    /** A list of vectors, before it is recorded as a field. */
    method WriteVectors(list: seq<seq<u8>>)
      modifies this`parts
      ensures parts == old(parts) + Write(List(Vectors(list)))
    {
      var _ := WriteUleb128(|list|);
      ghost var base := parts;
      for i := 0 to |list|
        invariant parts == base + WriteAll(Vectors(list)[..i])
      {
        ghost var before := parts;
        var _ := WriteUleb128(|list[i]|);
        WriteBytesRaw(list[i]);
        ConcatAssoc(before, Uleb(|list[i]|), list[i]);
        WriteAllPrefix(Vectors(list), i);
        ConcatAssoc(base, WriteAll(Vectors(list)[..i]), Write(Vectors(list)[i]));
      }
      assert Vectors(list)[..|list|] == Vectors(list);
      ConcatAssoc(old(parts), Uleb(|list|), WriteAll(Vectors(list)));
    }

    method WriteVectorVector(list: seq<seq<u8>>)
      requires Valid()
      modifies this
      ensures Valid() && fields == old(fields) + [List(Vectors(list))]
      ensures chunks == old(chunks) + [Uleb(|list|) + Prefixed(list)]
    {
      PrefixedIs(list);
      WriteVectors(list);
      Record(List(Vectors(list)), Uleb(|list|) + Prefixed(list));
    }

    method WriteVectorVectorVector(lists: seq<seq<seq<u8>>>)
      requires Valid()
      modifies this
      ensures Valid() && fields == old(fields) + [List(VectorLists(lists))]
      ensures chunks == old(chunks) + [Uleb(|lists|) + PrefixedLists(lists)]
    {
      PrefixedListsIs(lists);
      ghost var fs := VectorLists(lists);
      var _ := WriteUleb128(|lists|);
      ghost var base := parts;
      for i := 0 to |lists|
        invariant parts == base + WriteAll(fs[..i]) && fields == old(fields) && chunks == old(chunks)
      {
        WriteVectors(lists[i]);
        WriteAllPrefix(fs, i);
        ConcatAssoc(base, WriteAll(fs[..i]), Write(fs[i]));
      }
      assert fs[..|lists|] == fs;
      ConcatAssoc(old(parts), Uleb(|lists|), WriteAll(fs));
      Record(List(fs), Uleb(|lists|) + PrefixedLists(lists));
    }

    method WriteAddress(bytes: seq<u8>) returns (o: Outcome<WriteError>)
      requires Valid()
      modifies this
      ensures Valid() && (o.Pass? <==> |bytes| == 32)
      ensures fields == if o.Pass? then old(fields) + [Fixed(bytes)] else old(fields)
      ensures o.Pass? ==> chunks == old(chunks) + [bytes]
    {
      if |bytes| != 32 {
        return Fail(AddressLength);
      }
      WriteBytesRaw(bytes);
      Record(Fixed(bytes), bytes);
      return Pass;
    }

    method Finish() returns (bytes: seq<u8>)
      ensures bytes == parts
    {
      bytes := parts;
    }
  }

  /** The deposit attestation. */
  datatype Deposit = Deposit(
    chainId: int, bridge: seq<u8>, vault: seq<u8>, assetType: seq<u8>, operatorSetVersion: int, dkgEpoch: int,
    rosterHash: seq<u8>, frostGroupPubkey: seq<u8>, commitment: seq<u8>, amountTag: seq<u8>,
    caPayloadHash: seq<u8>, depositNonce: seq<u8>, expirySecs: int, circuitVersionsHash: seq<u8>,
    userAddr: seq<u8>)

  /** What the encoder accepts. */
  predicate DepositValid(m: Deposit) {
    && 0 <= m.chainId < 0x100
    && |m.bridge| == 32
    && |m.vault| == 32
    && |m.assetType| == 32
    && IsU64(m.operatorSetVersion)
    && IsU64(m.dkgEpoch)
    && IsU64(m.expirySecs)
    && |m.userAddr| == 32
  }

  function DepositKind(i: nat): Kind {
    if i == 1 then KU8
    else if 2 <= i <= 4 || i == 15 then KFixed(32)
    else if 5 <= i <= 6 || i == 13 then KU64
    else KBytes
  }

  function DepositKinds(): (ks: seq<Kind>)
    ensures |ks| == 16 && forall i :: 0 <= i < 16 ==> ks[i] == DepositKind(i)
  {
    seq(16, i requires 0 <= i < 16 => DepositKind(i))
  }

  function DepositFields(m: Deposit): (fs: seq<Field>)
    ensures |fs| == 16
  {
    [] + [Bytes(Ascii(DOMAIN_DEPOSIT_BIND_V2))] + [U8(m.chainId)] + [Fixed(m.bridge)] + [Fixed(m.vault)] +
    [Fixed(m.assetType)] + [U64(m.operatorSetVersion)] + [U64(m.dkgEpoch)] + [Bytes(m.rosterHash)] +
    [Bytes(m.frostGroupPubkey)] + [Bytes(m.commitment)] + [Bytes(m.amountTag)] + [Bytes(m.caPayloadHash)] +
    [Bytes(m.depositNonce)] + [U64(m.expirySecs)] + [Bytes(m.circuitVersionsHash)] + [Fixed(m.userAddr)]
  }

  function DepositFromFields(fs: seq<Field>): Deposit
    requires |fs| == 16
  {
    Deposit(
      NumberOf(fs[1]), BytesIn(fs[2]), BytesIn(fs[3]), BytesIn(fs[4]), NumberOf(fs[5]), NumberOf(fs[6]),
      BytesIn(fs[7]), BytesIn(fs[8]), BytesIn(fs[9]), BytesIn(fs[10]), BytesIn(fs[11]), BytesIn(fs[12]),
      NumberOf(fs[13]), BytesIn(fs[14]), BytesIn(fs[15]))
  }

  method EncodeDeposit(m: Deposit) returns (r: Result<seq<u8>, WriteError>)
    ensures r.Ok? <==> DepositValid(m)
    ensures r.Ok? ==> r.value == WriteAll(DepositFields(m))
    ensures r.Ok? ==> r.value == Joined(
              [] + [[22] + Ascii("EUNOMA_DEPOSIT_BIND_V3")] + [[m.chainId]] + [m.bridge] + [m.vault] + [m.assetType] +
              [BytesOf(m.operatorSetVersion, 8)] + [BytesOf(m.dkgEpoch, 8)] + [Uleb(|m.rosterHash|) + m.rosterHash] +
              [Uleb(|m.frostGroupPubkey|) + m.frostGroupPubkey] + [Uleb(|m.commitment|) + m.commitment] +
              [Uleb(|m.amountTag|) + m.amountTag] + [Uleb(|m.caPayloadHash|) + m.caPayloadHash] +
              [Uleb(|m.depositNonce|) + m.depositNonce] + [BytesOf(m.expirySecs, 8)] +
              [Uleb(|m.circuitVersionsHash|) + m.circuitVersionsHash] + [m.userAddr])
  {
    var w := new Writer();
    w.WriteVector(Ascii(DOMAIN_DEPOSIT_BIND_V2));
    :- w.WriteU8(m.chainId);
    :- w.WriteAddress(m.bridge);
    :- w.WriteAddress(m.vault);
    :- w.WriteAddress(m.assetType);
    :- w.WriteU64(m.operatorSetVersion);
    :- w.WriteU64(m.dkgEpoch);
    w.WriteVector(m.rosterHash);
    w.WriteVector(m.frostGroupPubkey);
    w.WriteVector(m.commitment);
    w.WriteVector(m.amountTag);
    w.WriteVector(m.caPayloadHash);
    w.WriteVector(m.depositNonce);
    :- w.WriteU64(m.expirySecs);
    w.WriteVector(m.circuitVersionsHash);
    :- w.WriteAddress(m.userAddr);
    var bytes := w.Finish();
    r := Ok(bytes);
  }

  /** The withdraw attestation. */
  datatype Withdraw = Withdraw(
    chainId: int, bridge: seq<u8>, vault: seq<u8>, assetType: seq<u8>, operatorSetVersion: int, dkgEpoch: int,
    rosterHash: seq<u8>, frostGroupPubkey: seq<u8>, root: seq<u8>, nullifierHash: seq<u8>, recipient: seq<u8>,
    recipientHash: seq<u8>, amountTag: seq<u8>, caPayloadHash: seq<u8>, requestHash: seq<u8>,
    vaultSequence: int, expirySecs: int, circuitVersionsHash: seq<u8>)

  /** What the encoder accepts. */
  predicate WithdrawValid(m: Withdraw) {
    && 0 <= m.chainId < 0x100
    && |m.bridge| == 32
    && |m.vault| == 32
    && |m.assetType| == 32
    && IsU64(m.operatorSetVersion)
    && IsU64(m.dkgEpoch)
    && |m.recipient| == 32
    && IsU64(m.vaultSequence)
    && IsU64(m.expirySecs)
  }

  function WithdrawKind(i: nat): Kind {
    if i == 1 then KU8
    else if 2 <= i <= 4 || i == 11 then KFixed(32)
    else if 5 <= i <= 6 || 16 <= i <= 17 then KU64
    else KBytes
  }

  function WithdrawKinds(): (ks: seq<Kind>)
    ensures |ks| == 19 && forall i :: 0 <= i < 19 ==> ks[i] == WithdrawKind(i)
  {
    seq(19, i requires 0 <= i < 19 => WithdrawKind(i))
  }

  function WithdrawFields(m: Withdraw): (fs: seq<Field>)
    ensures |fs| == 19
  {
    [] + [Bytes(Ascii(DOMAIN_WITHDRAW_ATTESTATION_V2))] + [U8(m.chainId)] + [Fixed(m.bridge)] +
    [Fixed(m.vault)] + [Fixed(m.assetType)] + [U64(m.operatorSetVersion)] + [U64(m.dkgEpoch)] +
    [Bytes(m.rosterHash)] + [Bytes(m.frostGroupPubkey)] + [Bytes(m.root)] + [Bytes(m.nullifierHash)] +
    [Fixed(m.recipient)] + [Bytes(m.recipientHash)] + [Bytes(m.amountTag)] + [Bytes(m.caPayloadHash)] +
    [Bytes(m.requestHash)] + [U64(m.vaultSequence)] + [U64(m.expirySecs)] + [Bytes(m.circuitVersionsHash)]
  }

  function WithdrawFromFields(fs: seq<Field>): Withdraw
    requires |fs| == 19
  {
    Withdraw(
      NumberOf(fs[1]), BytesIn(fs[2]), BytesIn(fs[3]), BytesIn(fs[4]), NumberOf(fs[5]), NumberOf(fs[6]),
      BytesIn(fs[7]), BytesIn(fs[8]), BytesIn(fs[9]), BytesIn(fs[10]), BytesIn(fs[11]), BytesIn(fs[12]),
      BytesIn(fs[13]), BytesIn(fs[14]), BytesIn(fs[15]), NumberOf(fs[16]), NumberOf(fs[17]), BytesIn(fs[18]))
  }

  method EncodeWithdraw(m: Withdraw) returns (r: Result<seq<u8>, WriteError>)
    ensures r.Ok? <==> WithdrawValid(m)
    ensures r.Ok? ==> r.value == WriteAll(WithdrawFields(m))
    ensures r.Ok? ==> r.value == Joined(
              [] + [[30] + Ascii("EUNOMA_WITHDRAW_ATTESTATION_V2")] + [[m.chainId]] + [m.bridge] + [m.vault] +
              [m.assetType] + [BytesOf(m.operatorSetVersion, 8)] + [BytesOf(m.dkgEpoch, 8)] +
              [Uleb(|m.rosterHash|) + m.rosterHash] + [Uleb(|m.frostGroupPubkey|) + m.frostGroupPubkey] +
              [Uleb(|m.root|) + m.root] + [Uleb(|m.nullifierHash|) + m.nullifierHash] + [m.recipient] +
              [Uleb(|m.recipientHash|) + m.recipientHash] + [Uleb(|m.amountTag|) + m.amountTag] +
              [Uleb(|m.caPayloadHash|) + m.caPayloadHash] + [Uleb(|m.requestHash|) + m.requestHash] +
              [BytesOf(m.vaultSequence, 8)] + [BytesOf(m.expirySecs, 8)] +
              [Uleb(|m.circuitVersionsHash|) + m.circuitVersionsHash])
  {
    var w := new Writer();
    w.WriteVector(Ascii(DOMAIN_WITHDRAW_ATTESTATION_V2));
    :- w.WriteU8(m.chainId);
    :- w.WriteAddress(m.bridge);
    :- w.WriteAddress(m.vault);
    :- w.WriteAddress(m.assetType);
    :- w.WriteU64(m.operatorSetVersion);
    :- w.WriteU64(m.dkgEpoch);
    w.WriteVector(m.rosterHash);
    w.WriteVector(m.frostGroupPubkey);
    w.WriteVector(m.root);
    w.WriteVector(m.nullifierHash);
    :- w.WriteAddress(m.recipient);
    w.WriteVector(m.recipientHash);
    w.WriteVector(m.amountTag);
    w.WriteVector(m.caPayloadHash);
    w.WriteVector(m.requestHash);
    :- w.WriteU64(m.vaultSequence);
    :- w.WriteU64(m.expirySecs);
    w.WriteVector(m.circuitVersionsHash);
    var bytes := w.Finish();
    r := Ok(bytes);
  }

  /** The confidential-transfer payload that is hashed into a withdraw attestation. */
  datatype CaPayload = CaPayload(
    assetType: seq<u8>, to: seq<u8>, newBalanceP: seq<seq<u8>>, newBalanceR: seq<seq<u8>>,
    newBalanceREffAud: seq<seq<u8>>, amountP: seq<seq<u8>>, amountRSender: seq<seq<u8>>,
    amountRRecip: seq<seq<u8>>, amountREffAud: seq<seq<u8>>, ekVolunAuds: seq<seq<u8>>,
    amountRVolunAuds: seq<seq<seq<u8>>>, zkrpNewBalance: seq<u8>, zkrpAmount: seq<u8>,
    sigmaProtoComm: seq<seq<u8>>, sigmaProtoResp: seq<seq<u8>>, memo: seq<u8>)

  /** What the encoder accepts. */
  predicate CaPayloadValid(m: CaPayload) {
    && |m.assetType| == 32
    && |m.to| == 32
  }

  function CaPayloadKind(i: nat): Kind {
    if 0 <= i <= 1 then KFixed(32)
    else if i == 10 then KList(KList(KBytes))
    else if 11 <= i <= 12 || i == 15 then KBytes
    else KList(KBytes)
  }

  function CaPayloadKinds(): (ks: seq<Kind>)
    ensures |ks| == 16 && forall i :: 0 <= i < 16 ==> ks[i] == CaPayloadKind(i)
  {
    seq(16, i requires 0 <= i < 16 => CaPayloadKind(i))
  }

  function CaPayloadFields(m: CaPayload): (fs: seq<Field>)
    ensures |fs| == 16
  {
    [] + [Fixed(m.assetType)] + [Fixed(m.to)] + [List(Vectors(m.newBalanceP))] +
    [List(Vectors(m.newBalanceR))] + [List(Vectors(m.newBalanceREffAud))] + [List(Vectors(m.amountP))] +
    [List(Vectors(m.amountRSender))] + [List(Vectors(m.amountRRecip))] + [List(Vectors(m.amountREffAud))] +
    [List(Vectors(m.ekVolunAuds))] + [List(VectorLists(m.amountRVolunAuds))] + [Bytes(m.zkrpNewBalance)] +
    [Bytes(m.zkrpAmount)] + [List(Vectors(m.sigmaProtoComm))] + [List(Vectors(m.sigmaProtoResp))] +
    [Bytes(m.memo)]
  }

  function CaPayloadFromFields(fs: seq<Field>): CaPayload
    requires |fs| == 16
  {
    CaPayload(
      BytesIn(fs[0]), BytesIn(fs[1]), VectorsIn(fs[2]), VectorsIn(fs[3]), VectorsIn(fs[4]), VectorsIn(fs[5]),
      VectorsIn(fs[6]), VectorsIn(fs[7]), VectorsIn(fs[8]), VectorsIn(fs[9]), VectorListsIn(fs[10]),
      BytesIn(fs[11]), BytesIn(fs[12]), VectorsIn(fs[13]), VectorsIn(fs[14]), BytesIn(fs[15]))
  }

  ghost predicate CaPayloadParts(fs: seq<Field>, m: CaPayload) {
    && |fs| == 16
    && fs[0] == Fixed(m.assetType)
    && fs[1] == Fixed(m.to)
    && fs[2] == List(Vectors(m.newBalanceP))
    && fs[3] == List(Vectors(m.newBalanceR))
    && fs[4] == List(Vectors(m.newBalanceREffAud))
    && fs[5] == List(Vectors(m.amountP))
    && fs[6] == List(Vectors(m.amountRSender))
    && fs[7] == List(Vectors(m.amountRRecip))
    && fs[8] == List(Vectors(m.amountREffAud))
    && fs[9] == List(Vectors(m.ekVolunAuds))
    && fs[10] == List(VectorLists(m.amountRVolunAuds))
    && fs[11] == Bytes(m.zkrpNewBalance)
    && fs[12] == Bytes(m.zkrpAmount)
    && fs[13] == List(Vectors(m.sigmaProtoComm))
    && fs[14] == List(Vectors(m.sigmaProtoResp))
    && fs[15] == Bytes(m.memo)
  }

  lemma CaPayloadFieldsParts(m: CaPayload)
    ensures CaPayloadParts(CaPayloadFields(m), m)
  {
  }

  method EncodeCaPayload(m: CaPayload) returns (r: Result<seq<u8>, WriteError>)
    ensures r.Ok? <==> CaPayloadValid(m)
    ensures r.Ok? ==> r.value == WriteAll(CaPayloadFields(m))
    ensures r.Ok? ==> r.value == Joined(
              [] + [m.assetType] + [m.to] + [Uleb(|m.newBalanceP|) + Prefixed(m.newBalanceP)] +
              [Uleb(|m.newBalanceR|) + Prefixed(m.newBalanceR)] +
              [Uleb(|m.newBalanceREffAud|) + Prefixed(m.newBalanceREffAud)] +
              [Uleb(|m.amountP|) + Prefixed(m.amountP)] + [Uleb(|m.amountRSender|) + Prefixed(m.amountRSender)] +
              [Uleb(|m.amountRRecip|) + Prefixed(m.amountRRecip)] +
              [Uleb(|m.amountREffAud|) + Prefixed(m.amountREffAud)] +
              [Uleb(|m.ekVolunAuds|) + Prefixed(m.ekVolunAuds)] +
              [Uleb(|m.amountRVolunAuds|) + PrefixedLists(m.amountRVolunAuds)] +
              [Uleb(|m.zkrpNewBalance|) + m.zkrpNewBalance] + [Uleb(|m.zkrpAmount|) + m.zkrpAmount] +
              [Uleb(|m.sigmaProtoComm|) + Prefixed(m.sigmaProtoComm)] +
              [Uleb(|m.sigmaProtoResp|) + Prefixed(m.sigmaProtoResp)] + [Uleb(|m.memo|) + m.memo])
  {
    var w := new Writer();
    :- w.WriteAddress(m.assetType);
    :- w.WriteAddress(m.to);
    w.WriteVectorVector(m.newBalanceP);
    w.WriteVectorVector(m.newBalanceR);
    w.WriteVectorVector(m.newBalanceREffAud);
    w.WriteVectorVector(m.amountP);
    w.WriteVectorVector(m.amountRSender);
    w.WriteVectorVector(m.amountRRecip);
    w.WriteVectorVector(m.amountREffAud);
    w.WriteVectorVector(m.ekVolunAuds);
    w.WriteVectorVectorVector(m.amountRVolunAuds);
    w.WriteVector(m.zkrpNewBalance);
    w.WriteVector(m.zkrpAmount);
    w.WriteVectorVector(m.sigmaProtoComm);
    w.WriteVectorVector(m.sigmaProtoResp);
    w.WriteVector(m.memo);
    var bytes := w.Finish();
    r := Ok(bytes);
  }

  lemma DepositShape(m: Deposit)
    requires DepositValid(m)
    ensures HasKinds(DepositFields(m), DepositKinds())
  {
  }

  lemma DepositParsed(m: Deposit)
    ensures DepositFromFields(DepositFields(m)) == m
  {
  }

  lemma DepositAccepted(fs: seq<Field>)
    requires HasKinds(fs, DepositKinds()) && AllFit(fs)
    ensures DepositValid(DepositFromFields(fs))
  {
  }

  lemma DepositBack(fs: seq<Field>)
    requires HasKinds(fs, DepositKinds())
    requires fs[0] == Bytes(Ascii(DOMAIN_DEPOSIT_BIND_V2))
    ensures DepositFields(DepositFromFields(fs)) == fs
  {
  }

  /** The deposit attestation in a byte string, if it is one. */
  function DecodeDeposit(s: seq<u8>): Option<Deposit> {
    match ReadRecord(DepositKinds(), s)
    case Some((fs, rest)) =>
      ReadRecordKinds(DepositKinds(), s);
      if fs[0] == Bytes(Ascii(DOMAIN_DEPOSIT_BIND_V2)) && rest == [] then Some(DepositFromFields(fs)) else None
    case None => None
  }

  /** Decoding inverts encoding for every message the encoder accepts whose vectors are shorter than 2^32. */
  lemma DepositDecodeEncode(m: Deposit)
    requires DepositValid(m) && AllFit(DepositFields(m))
    ensures DecodeDeposit(WriteAll(DepositFields(m))) == Some(m)
  {
    DepositShape(m);
    DepositParsed(m);
    ReadWriteRecord(DepositKinds(), DepositFields(m), []);
    assert WriteAll(DepositFields(m)) + [] == WriteAll(DepositFields(m));
  }

  /** ... and encoding inverts decoding: a byte string that decodes is the encoding of what it decodes to. */
  lemma DepositEncodeDecode(s: seq<u8>)
    requires DecodeDeposit(s).Some?
    ensures var m := DecodeDeposit(s).value; DepositValid(m) && WriteAll(DepositFields(m)) == s
  {
    var (fs, rest) := ReadRecord(DepositKinds(), s).value;
    WriteReadRecord(DepositKinds(), s, fs, rest);
    DepositAccepted(fs);
    DepositBack(fs);
    assert WriteAll(fs) + [] == WriteAll(fs);
  }

  lemma WithdrawShape(m: Withdraw)
    requires WithdrawValid(m)
    ensures HasKinds(WithdrawFields(m), WithdrawKinds())
  {
  }

  lemma WithdrawParsed(m: Withdraw)
    ensures WithdrawFromFields(WithdrawFields(m)) == m
  {
  }

  lemma WithdrawAccepted(fs: seq<Field>)
    requires HasKinds(fs, WithdrawKinds()) && AllFit(fs)
    ensures WithdrawValid(WithdrawFromFields(fs))
  {
  }

  lemma WithdrawBack(fs: seq<Field>)
    requires HasKinds(fs, WithdrawKinds())
    requires fs[0] == Bytes(Ascii(DOMAIN_WITHDRAW_ATTESTATION_V2))
    ensures WithdrawFields(WithdrawFromFields(fs)) == fs
  {
  }

  /** The withdraw attestation in a byte string, if it is one. */
  function DecodeWithdraw(s: seq<u8>): Option<Withdraw> {
    match ReadRecord(WithdrawKinds(), s)
    case Some((fs, rest)) =>
      ReadRecordKinds(WithdrawKinds(), s);
      if fs[0] == Bytes(Ascii(DOMAIN_WITHDRAW_ATTESTATION_V2)) && rest == [] then Some(WithdrawFromFields(fs)) else None
    case None => None
  }

  /** Decoding inverts encoding for every message the encoder accepts whose vectors are shorter than 2^32. */
  lemma WithdrawDecodeEncode(m: Withdraw)
    requires WithdrawValid(m) && AllFit(WithdrawFields(m))
    ensures DecodeWithdraw(WriteAll(WithdrawFields(m))) == Some(m)
  {
    WithdrawShape(m);
    WithdrawParsed(m);
    ReadWriteRecord(WithdrawKinds(), WithdrawFields(m), []);
    assert WriteAll(WithdrawFields(m)) + [] == WriteAll(WithdrawFields(m));
  }

  /** ... and encoding inverts decoding: a byte string that decodes is the encoding of what it decodes to. */
  lemma WithdrawEncodeDecode(s: seq<u8>)
    requires DecodeWithdraw(s).Some?
    ensures var m := DecodeWithdraw(s).value; WithdrawValid(m) && WriteAll(WithdrawFields(m)) == s
  {
    var (fs, rest) := ReadRecord(WithdrawKinds(), s).value;
    WriteReadRecord(WithdrawKinds(), s, fs, rest);
    WithdrawAccepted(fs);
    WithdrawBack(fs);
    assert WriteAll(fs) + [] == WriteAll(fs);
  }

  lemma CaPayloadShape(m: CaPayload)
    requires CaPayloadValid(m)
    ensures HasKinds(CaPayloadFields(m), CaPayloadKinds())
  {
    forall bs: seq<seq<u8>> { VectorsShape(bs); }
    VectorListsShape(m.amountRVolunAuds);
  }

  lemma CaPayloadFromParts(fs: seq<Field>, m: CaPayload)
    requires CaPayloadParts(fs, m)
    ensures CaPayloadFromFields(fs) == m
  {
    forall bs: seq<seq<u8>> { VectorsShape(bs); }
    VectorListsShape(m.amountRVolunAuds);
  }

  lemma CaPayloadSameParts(fs: seq<Field>, gs: seq<Field>, m: CaPayload)
    requires CaPayloadParts(fs, m) && CaPayloadParts(gs, m)
    ensures fs == gs
  {
  }

  lemma CaPayloadPartsBack(fs: seq<Field>)
    requires HasKinds(fs, CaPayloadKinds())
    ensures CaPayloadValid(CaPayloadFromFields(fs)) && CaPayloadParts(fs, CaPayloadFromFields(fs))
  {
    forall i | 2 <= i < 10 ensures List(Vectors(VectorsIn(fs[i]))) == fs[i] { VectorsForth(fs[i]); }
    VectorListsForth(fs[10]);
    VectorsForth(fs[13]);
    VectorsForth(fs[14]);
  }

  /** The confidential-transfer payload in a byte string, if it is one. */
  function DecodeCaPayload(s: seq<u8>): Option<CaPayload> {
    match ReadRecord(CaPayloadKinds(), s)
    case Some((fs, rest)) =>
      ReadRecordKinds(CaPayloadKinds(), s);
      if rest == [] then Some(CaPayloadFromFields(fs)) else None
    case None => None
  }

  /** Decoding inverts encoding for every message the encoder accepts whose vectors are shorter than 2^32. */
  lemma CaPayloadDecodeEncode(m: CaPayload)
    requires CaPayloadValid(m) && AllFit(CaPayloadFields(m))
    ensures DecodeCaPayload(WriteAll(CaPayloadFields(m))) == Some(m)
  {
    CaPayloadShape(m);
    CaPayloadFieldsParts(m);
    CaPayloadFromParts(CaPayloadFields(m), m);
    ReadWriteRecord(CaPayloadKinds(), CaPayloadFields(m), []);
    assert WriteAll(CaPayloadFields(m)) + [] == WriteAll(CaPayloadFields(m));
  }

  /** ... and encoding inverts decoding: a byte string that decodes is the encoding of what it decodes to. */
  lemma CaPayloadEncodeDecode(s: seq<u8>)
    requires DecodeCaPayload(s).Some?
    ensures var m := DecodeCaPayload(s).value; CaPayloadValid(m) && WriteAll(CaPayloadFields(m)) == s
  {
    var (fs, rest) := ReadRecord(CaPayloadKinds(), s).value;
    WriteReadRecord(CaPayloadKinds(), s, fs, rest);
    CaPayloadPartsBack(fs);
    CaPayloadFieldsParts(CaPayloadFromFields(fs));
    CaPayloadSameParts(fs, CaPayloadFields(CaPayloadFromFields(fs)), CaPayloadFromFields(fs));
    assert WriteAll(fs) + [] == WriteAll(fs);
  }

  /** No byte string is both a deposit and a withdraw attestation, whatever the messages. */
  lemma DomainsDisjoint(d: Deposit, w: Withdraw)
    ensures WriteAll(DepositFields(d)) != WriteAll(WithdrawFields(w))
  {
    WriteAllFirst(DepositFields(d));
    WriteAllFirst(WithdrawFields(w));
    assert DepositFields(d)[0] == Bytes(Ascii(DOMAIN_DEPOSIT_BIND_V2));
    assert WithdrawFields(w)[0] == Bytes(Ascii(DOMAIN_WITHDRAW_ATTESTATION_V2));
  }
}
