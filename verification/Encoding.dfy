/** The 32-byte little-endian encoding of scalars and, residues standing for them, of points. */
module Encoding {
  import opened Wrappers
  import opened ModArith
  import opened PrimeField
  import opened Digits

  /** A hash function, about which nothing is assumed. */
  type Hash = seq<u8> -> seq<u8>

  type Bytes32 = b: seq<u8> | |b| == 32 witness seq(32, _ => 0)

  const BYTE: int := 0x100
  const SCALAR_BYTES: nat := 32

  /** The little-endian encoding of s in n bytes. */
  function BytesOf(s: int, n: nat): (r: seq<u8>)
    requires s >= 0
    ensures |r| == n
  {
    if n == 0 then [] else [s % BYTE] + BytesOf(s / BYTE, n - 1)
  }

  lemma {:induction false} BytesOfValue(s: int, n: nat)
    requires 0 <= s < Pow(BYTE, n)
    ensures Value(BYTE, BytesOf(s, n)) == s
  {
    if n > 0 {
      var rest := BytesOf(s / BYTE, n - 1);
      BytesOfValue(s / BYTE, n - 1);
      Split(BYTE, BytesOf(s, n), 1, n - 1);
      assert BytesOf(s, n)[1..] == rest;
      assert Val(BYTE, BytesOf(s, n), 1) == Val(BYTE, BytesOf(s, n), 0) + (s % BYTE) * Pow(BYTE, 0);
      assert Pow(BYTE, 1) == BYTE * Pow(BYTE, 0);
    }
  }

  /** UTF-8 of an ASCII string. */
  function Ascii(s: string): (r: seq<u8>)
    ensures |r| == |s| && forall i :: 0 <= i < |s| && s[i] as int < 0x80 ==> r[i] == s[i] as int
  {
    seq(|s|, i requires 0 <= i < |s| => if s[i] as int < 0x80 then s[i] as int else 0)
  }

  function Encode(x: int): (r: seq<u8>)
    requires x >= 0
    ensures |r| == SCALAR_BYTES
  {
    BytesOf(x, SCALAR_BYTES)
  }

  /** Canonical decoding: the one encoding of each residue, anything else refused. */
  function Decode(q: int, bytes: seq<u8>): Option<int> {
    if |bytes| == SCALAR_BYTES && Value(BYTE, bytes) < q then Some(Value(BYTE, bytes)) else None
  }

  /** Reducing decoding, which accepts every byte string. */
  function DecodeReduced(q: int, bytes: seq<u8>): int
    requires q > 0
  {
    Value(BYTE, bytes) % q
  }

  lemma EncodeDecode(q: int, x: int)
    requires 0 <= x < q <= Pow(BYTE, SCALAR_BYTES)
    ensures Decode(q, Encode(x)) == Some(x) && DecodeReduced(q, Encode(x)) == x
  {
    BytesOfValue(x, SCALAR_BYTES);
    Small(q, x);
  }

  lemma DecodeEncode(q: int, bytes: seq<u8>)
    requires q <= Pow(BYTE, SCALAR_BYTES) && Decode(q, bytes).Some?
    ensures 0 <= Value(BYTE, bytes) && Encode(Value(BYTE, bytes)) == bytes
  {
    Bound(BYTE, bytes, |bytes|);
    BytesOfValue(Value(BYTE, bytes), SCALAR_BYTES);
    Unambiguous(BYTE, Encode(Value(BYTE, bytes)), bytes);
  }
}
