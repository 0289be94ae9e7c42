/** The counter-mode byte stream and the rejection sampling of scalars from it. */
module Prng {
  import opened Wrappers
  import opened ModArith
  import opened PrimeField
  import opened Digits
  import opened Encoding

  type Digest = seq<u8> -> Bytes32

  const BLOCK: nat := 32

  function Reversed(s: seq<u8>): (r: seq<u8>)
    ensures |r| == |s| && forall i :: 0 <= i < |s| ==> r[i] == s[|s| - 1 - i]
  {
    seq(|s|, i requires 0 <= i < |s| => s[|s| - 1 - i])
  }

  /** The number that big-endian bytes denote. */
  function BeValue(s: seq<u8>): int {
    Value(BYTE, Reversed(s))
  }

  /** Comparison byte by byte from the most significant end is comparison of the numbers. */
  method BigintBeGt(a: Bytes32, b: Bytes32) returns (gt: bool)
    ensures gt <==> BeValue(a) > BeValue(b)
  {
    for i := 0 to 32
      invariant a[..i] == b[..i]
    {
      if a[i] > b[i] {
        FirstDifference(b, a, i);
        return true;
      }
      if a[i] < b[i] {
        FirstDifference(a, b, i);
        return false;
      }
    }
    assert a[..32] == a && b[..32] == b;
    return false;
  }

  lemma FirstDifference(a: Bytes32, b: Bytes32, i: nat)
    requires i < 32 && a[..i] == b[..i] && a[i] < b[i]
    ensures BeValue(a) < BeValue(b)
  {
    var (s, t) := (Reversed(a), Reversed(b));
    forall j | 31 - i < j < 32 ensures s[j] == t[j] {
      assert a[..i][31 - j] == b[..i][31 - j];
    }
    Lexicographic(BYTE, s, t, 31 - i, 32);
  }

  // ---- the stream --------------------------------------------------------------------------

  /** Block i of the stream: the digest of the seed and the big-endian counter. */
  function Block(sha256: Digest, seed: seq<u8>, i: nat): Bytes32 {
    sha256(seed + Reversed(BytesOf(i % 0x1_0000_0000_0000_0000, 8)))
  }

  /** Byte k of the stream. */
  function StreamByte(sha256: Digest, seed: seq<u8>, k: nat): u8 {
    Block(sha256, seed, k / BLOCK)[k % BLOCK]
  }

  /** Bytes from up to but not including to. */
  function Stream(sha256: Digest, seed: seq<u8>, from: nat, n: nat): (r: seq<u8>)
    ensures |r| == n && forall i :: 0 <= i < n ==> r[i] == StreamByte(sha256, seed, from + i)
  {
    seq<u8>(n, i requires 0 <= i < n => StreamByte(sha256, seed, from + i))
  }

  class CounterPrng {
    const sha256: Digest
    const seed: seq<u8>
    var blocks: seq<Bytes32>
    var consumed: nat

    ghost predicate Valid()
      reads this
    {
      forall i :: 0 <= i < |blocks| ==> blocks[i] == Block(sha256, seed, i)
    }

    constructor (sha256: Digest, seed: seq<u8>)
      ensures Valid() && this.sha256 == sha256 && this.seed == seed && consumed == 0
    {
      this.sha256, this.seed := sha256, seed;
      blocks, consumed := [], 0;
    }

    method EnsureBlock(idx: nat)
      requires Valid()
      modifies this`blocks
      ensures Valid() && idx < |blocks|
    {
      while |blocks| <= idx
        invariant Valid()
        decreases idx + 1 - |blocks|
      {
        var counter := Reversed(BytesOf(|blocks| % 0x1_0000_0000_0000_0000, 8));
        blocks := blocks + [sha256(seed + counter)];
      }
    }

    /** Whatever has been cached, reading continues the one stream that the seed determines. */
    method Read(n: nat) returns (buf: seq<u8>)
      requires Valid()
      modifies this
      ensures Valid() && consumed == old(consumed) + n
      ensures buf == Stream(sha256, seed, old(consumed), n)
    {
      buf := [];
      for i := 0 to n
        invariant Valid() && consumed == old(consumed) + i && |buf| == i
        invariant forall k :: 0 <= k < i ==> buf[k] == StreamByte(sha256, seed, old(consumed) + k)
      {
        var blockIdx := consumed / BLOCK;
        var inBlock := consumed % BLOCK;
        EnsureBlock(blockIdx);
        buf := buf + [blocks[blockIdx][inBlock]];
        consumed := consumed + 1;
      }
    }

    method Skip(n: nat)
      requires Valid()
      modifies this`consumed
      ensures Valid() && consumed == old(consumed) + n
    {
      consumed := consumed + n;
    }

    /**
     One round of the sampling loop. It accepts numbers up to and including q, as the reference does,
     so the scalar is the number itself except that q becomes zero.
     */
    method TryNextScalar(q: int, order: Bytes32) returns (scalar: Option<int>)
      requires Valid() && q > 0 && BeValue(order) == q
      modifies this
      ensures Valid() && consumed == old(consumed) + 32
      ensures var v := BeValue(Stream(sha256, seed, old(consumed), 32));
              scalar == if v > q then None else if v == q then Some(0) else Some(v)
    {
      var be := Read(32);
      var above := BigintBeGt(be, order);
      if above { return None; }
      var le := Reversed(be);
      ghost var v := Value(BYTE, le);
      Bound(BYTE, le, 32);
      if v == q { Unique(q, 1, 0); } else { Small(q, v); }
      return Some(DecodeReduced(q, le));
    }
  }

  /** Skipping bytes and reading them lead to the same continuation. */
  lemma StreamSplits(sha256: Digest, seed: seq<u8>, from: nat, m: nat, n: nat)
    ensures Stream(sha256, seed, from, m + n) == Stream(sha256, seed, from, m) + Stream(sha256, seed, from + m, n)
  {
    var (all, a, b) := (Stream(sha256, seed, from, m + n), Stream(sha256, seed, from, m), Stream(sha256, seed, from + m, n));
    forall i | 0 <= i < m + n ensures all[i] == (a + b)[i] {
      if i >= m { assert (a + b)[i] == b[i - m] && from + m + (i - m) == from + i; }
    }
  }
}
