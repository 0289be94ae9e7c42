/** Splitting an amount into chunks and recomposing it. */
module Chunks {
  import opened Wrappers
  import opened ModArith
  import opened PrimeField
  import opened Digits

  const U128: int := 0x1_0000_0000_0000_0000_0000_0000_0000_0000

  type u128 = x: int | 0 <= x < U128

  /** ShiftOverflow stands for the panic of a shift by 128 or more. */
  datatype ChunkError = BadChunkBits | DoesNotFit | ChunksOverflow | ShiftOverflow

  lemma DivMod(a: int, b: int)
    requires a >= 0 && b > 0
    ensures a / b >= 0 && 0 <= a % b < b && a == b * (a / b) + a % b
  {
    if a / b < 0 { MulMono(b, a / b, -1); }
  }

  lemma MixedRadix(b: int, p: int, d: int, r: int, s: int)
    requires b > 0 && p > 0 && 0 <= r < p && 0 <= s < b
    ensures b * (p * d + r) + s == d * (b * p) + (b * r + s) && 0 <= b * r + s < b * p
  {
    MulMono(b, r, p - 1);
    MulMono(b, 0, r);
    assert b * (p - 1) == b * p - b;
    assert b * (p * d + r) == b * (p * d) + b * r;
    assert b * (p * d) == d * (b * p);
  }

  lemma DivDiv(a: int, b: int, p: int)
    requires a >= 0 && b > 0 && p > 0
    ensures b * p > 0 && (a / b) / p == a / (b * p)
  {
    DivMod(a, b);
    DivMod(a / b, p);
    MixedRadix(b, p, (a / b) / p, (a / b) % p, a % b);
    Unique(b * p, (a / b) / p, b * ((a / b) % p) + a % b);
  }

  /** 2^(bits * i) as a power of the chunk base. */
  lemma ShiftIsPower(bits: nat, i: nat)
    ensures bits * i >= 0 && Pow(2, bits * i) == Pow(Pow(2, bits), i)
  {
    PowMul(2, bits, i);
  }

  /** The digits of an amount: as many as asked for, each below the base, and worth the amount. */
  ghost predicate IsSplit(chunks: seq<int>, amount: int, count: nat, b: int) {
    |chunks| == count && InBase(b, chunks) && Value(b, chunks) == amount
  }

  /** No shift is refused: the width is allowed and the last chunk starts below bit 128. */
  predicate ShiftsAllowed(count: nat, bits: nat) {
    0 < bits <= 64 && (count > 0 ==> bits * (count - 1) < 128)
  }

  method ChunkedAmountToChunks(amount: u128, count: nat, bits: nat) returns (r: Result<seq<int>, ChunkError>)
    ensures r == Err(BadChunkBits) <==> bits == 0 || bits > 64
    ensures 0 < bits <= 64 ==> (r == Err(DoesNotFit) <==> count * bits < 128 && amount as int >= Pow(Pow(2, bits), count))
    ensures 0 < bits <= 64 && r != Err(DoesNotFit) ==> (r == Err(ShiftOverflow) <==> !ShiftsAllowed(count, bits))
    ensures r.Ok? ==> IsSplit(r.value, amount, count, Pow(2, bits))
    ensures r.Err? ==> r.error != ChunksOverflow
  {
    if bits == 0 || bits > 64 { return Err(BadChunkBits); }
    ghost var b := Pow(2, bits);
    PowPos(2, bits);
    ShiftIsPower(bits, count);
    assert bits * count == count * bits;
    if count * bits < 128 && amount as int >= Pow(2, count * bits) { return Err(DoesNotFit); }
    Fits(amount, count, bits);
    var mask := Pow(2, bits) - 1;
    var chunks := [];
    assert amount / Pow(b, 0) == amount;
    for i := 0 to count
      invariant |chunks| == i && (i > 0 ==> bits * (i - 1) < 128)
      invariant InBase(b, chunks)
      invariant Pow(b, i) > 0 && Value(b, chunks) + Pow(b, i) * (amount / Pow(b, i)) == amount
    {
      if bits * i >= 128 {
        MulMono(bits, i, count - 1);
        return Err(ShiftOverflow);
      }
      ShiftIsPower(bits, i);
      var shifted := amount / Pow(2, bits * i);
      NextChunk(b, chunks, amount, i, shifted);
      chunks := chunks + [shifted % (mask + 1)];
    }
    NothingLeft(Value(b, chunks), amount, Pow(b, count));
    return Ok(chunks);
  }

  lemma Fits(amount: u128, count: nat, bits: nat)
    requires 0 < bits && (count * bits < 128 ==> amount as int < Pow(Pow(2, bits), count))
    ensures amount as int < Pow(Pow(2, bits), count)
  {
    if count * bits >= 128 {
      Pow2At128();
      assert count * bits == bits * count;
      ShiftIsPower(bits, count);
      PowMono(2, 128, bits * count);
    }
  }

  lemma NextChunk(b: int, chunks: seq<int>, amount: int, i: nat, shifted: int)
    requires b > 0 && |chunks| == i && InBase(b, chunks) && amount >= 0
    requires Pow(b, i) > 0 && shifted == amount / Pow(b, i) && Value(b, chunks) + Pow(b, i) * shifted == amount
    ensures InBase(b, chunks + [shifted % b]) && Pow(b, i + 1) > 0
    ensures Value(b, chunks + [shifted % b]) + Pow(b, i + 1) * (amount / Pow(b, i + 1)) == amount
  {
    PowPos(b, i + 1);
    DivMod(amount, Pow(b, i));
    DivMod(shifted, b);
    Append(b, chunks, shifted % b);
    DivDiv(amount, Pow(b, i), b);
    Peel(b, Pow(b, i), shifted, shifted / b, shifted % b);
    assert Pow(b, i) * b == Pow(b, i + 1);
  }

  lemma Peel(b: int, p: int, shifted: int, h: int, d: int)
    requires shifted == b * h + d
    ensures p * shifted == d * p + (b * p) * h
  {
    assert p * (b * h + d) == p * (b * h) + p * d;
    assert p * (b * h) == (b * p) * h;
  }

  lemma NothingLeft(v: int, amount: int, p: int)
    requires 0 <= amount < p && v + p * (amount / p) == amount
    ensures v == amount
  {
    Unique(p, 0, amount);
  }

  lemma Pow2At128()
    ensures Pow(2, 128) == U128
  {
    PowersOfTwo();
    PowAdd(2, 64, 64);
  }

  /** The sum of the k low chunks as the shifts compute them: a bit shifted past 2^128 is lost. */
  function ShiftedSum(chunks: seq<u64>, bits: nat, k: nat): (r: int)
    requires k <= |chunks|
    ensures r >= 0
  {
    if k == 0 then 0 else ShiftedSum(chunks, bits, k - 1) + (chunks[k - 1] * Pow(Pow(2, bits), k - 1)) % U128
  }

  /** What recomposition returns, if it returns. */
  function Recomposed(chunks: seq<u64>, bits: nat): Option<u128> {
    var sum := ShiftedSum(chunks, bits, |chunks|);
    if ShiftsAllowed(|chunks|, bits) && sum < U128 then Some(sum) else None
  }

  /** The chunks' exact value comes back if and only if the shifts are allowed and it fits in 128 bits. */
  method ChunksToAmount(chunks: seq<u64>, bits: nat) returns (r: Result<u128, ChunkError>)
    ensures r == Err(BadChunkBits) <==> bits == 0 || bits > 64
    ensures r.Err? ==> r.error != DoesNotFit
    ensures match Recomposed(chunks, bits) case Some(amount) => r == Ok(amount) case None => r.Err?
    ensures r.Ok? && r.value == Value(Pow(2, bits), chunks) <==>
            ShiftsAllowed(|chunks|, bits) && Value(Pow(2, bits), chunks) < U128
  {
    RecomposeExactly(chunks, bits);
    if bits == 0 || bits > 64 { return Err(BadChunkBits); }
    var acc: u128 := 0;
    for i := 0 to |chunks|
      invariant acc == ShiftedSum(chunks, bits, i) && (i > 0 ==> bits * (i - 1) < 128)
    {
      if bits * i >= 128 {
        MulMono(bits, i, |chunks| - 1);
        return Err(ShiftOverflow);
      }
      ShiftIsPower(bits, i);
      var term := (chunks[i] * Pow(2, bits * i)) % U128;
      if acc + term >= U128 {
        SumGrows(chunks, bits, i + 1, |chunks|);
        return Err(ChunksOverflow);
      }
      acc := acc + term;
    }
    return Ok(acc);
  }

  lemma {:induction false} SumGrows(chunks: seq<u64>, bits: nat, j: nat, k: nat)
    requires j <= k <= |chunks|
    ensures ShiftedSum(chunks, bits, j) <= ShiftedSum(chunks, bits, k)
  {
    if j < k { SumGrows(chunks, bits, j, k - 1); }
  }

  lemma {:induction false} SumIsValue(chunks: seq<u64>, bits: nat, k: nat)
    requires k <= |chunks| && Val(Pow(2, bits), chunks, k) < U128
    ensures 0 <= Val(Pow(2, bits), chunks, k) == ShiftedSum(chunks, bits, k)
  {
    if k > 0 {
      var b := Pow(2, bits);
      PowPos(2, bits);
      PowPos(b, k - 1);
      SumStep(Val(b, chunks, k - 1), chunks[k - 1], Pow(b, k - 1)) by { ValNonneg(b, chunks, k - 1); }
      SumIsValue(chunks, bits, k - 1);
    }
  }

  lemma SumStep(v: int, d: int, p: int)
    requires v >= 0 && d >= 0 && p > 0 && v + d * p < U128
    ensures v < U128 && 0 <= d * p && (d * p) % U128 == d * p
  {
    MulMono(p, 0, d);
    Small(U128, d * p);
  }

  lemma {:induction false} ValNonneg(b: int, s: seq<u64>, k: nat)
    requires b > 0 && k <= |s|
    ensures Val(b, s, k) >= 0
  {
    if k > 0 {
      ValNonneg(b, s, k - 1);
      PowPos(b, k - 1);
      MulMono(Pow(b, k - 1), 0, s[k - 1]);
    }
  }

  /** Recomposition returns the value of the chunks exactly when the shifts are allowed and it fits in 128 bits. */
  lemma RecomposeExactly(chunks: seq<u64>, bits: nat)
    ensures Recomposed(chunks, bits).Some? && Recomposed(chunks, bits).value == Value(Pow(2, bits), chunks)
       <==> ShiftsAllowed(|chunks|, bits) && Value(Pow(2, bits), chunks) < U128
  {
    if Value(Pow(2, bits), chunks) < U128 { SumIsValue(chunks, bits, |chunks|); }
  }

  /** It does not report chunks that do not fit: eight chunks, the last of them 2^16, come back as zero. */
  lemma RecomposeTruncates()
    ensures Recomposed([0, 0, 0, 0, 0, 0, 0, 0x1_0000], 16) == Some(0)
    ensures Value(Pow(2, 16), [0, 0, 0, 0, 0, 0, 0, 0x1_0000]) == U128
  {
    var chunks: seq<u64> := [0, 0, 0, 0, 0, 0, 0, 0x1_0000];
    ZeroSum(chunks, 16, 7);
    Pow2At128();
    PowMul(2, 16, 7);
    PowAdd(2, 112, 16);
    assert Pow(2, 16) == 0x1_0000 by { assert Pow(2, 2) == 4; PowAdd(2, 2, 2); PowAdd(2, 4, 4); PowAdd(2, 8, 8); }
    assert 0x1_0000 * Pow(Pow(2, 16), 7) == U128;
    Unique(U128, 1, 0);
    Zeros(Pow(2, 16), chunks, 7);
  }

  lemma {:induction false} ZeroSum(chunks: seq<u64>, bits: nat, k: nat)
    requires k <= |chunks| && forall i :: 0 <= i < k ==> chunks[i] == 0
    ensures ShiftedSum(chunks, bits, k) == 0
  {
    if k > 0 {
      ZeroSum(chunks, bits, k - 1);
      assert chunks[k - 1] * Pow(Pow(2, bits), k - 1) == 0;
    }
  }

  /** Recomposing a split gives back the amount. */
  lemma SplitRecompose(amount: u128, count: nat, bits: nat, chunks: seq<u64>)
    requires IsSplit(chunks, amount, count, Pow(2, bits))
    ensures ShiftedSum(chunks, bits, count) == amount
    ensures ShiftsAllowed(count, bits) ==> Recomposed(chunks, bits) == Some(amount)
  {
    SumIsValue(chunks, bits, count);
  }

  /** Splitting a recomposed amount gives back the chunks, provided each fits its width. */
  lemma RecomposeSplit(chunks: seq<u64>, bits: nat, again: seq<int>)
    requires 0 < bits && bits * |chunks| <= 128 && InBase(Pow(2, bits), chunks)
    requires IsSplit(again, ShiftedSum(chunks, bits, |chunks|), |chunks|, Pow(2, bits))
    ensures again == chunks
  {
    var b := Pow(2, bits);
    PowPos(2, bits);
    Bound(b, chunks, |chunks|);
    ShiftIsPower(bits, |chunks|);
    Pow2At128();
    PowMono(2, bits * |chunks|, 128);
    SumIsValue(chunks, bits, |chunks|);
    Unambiguous(b, again, chunks);
  }
}
