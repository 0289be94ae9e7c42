/** Value commitments of range proofs under additively shared blindings. */
module RangeCommitments {
  import opened Wrappers
  import opened ModArith
  import opened Digits
  import opened Encoding

  datatype RangeError = LengthMismatch | Empty

  function Point(q: int, g: int, h: int, v: int, r: int): (p: int)
    requires q > 0
    ensures 0 <= p < q
  {
    Add(q, Mul(q, g, v), Mul(q, h, r))
  }

  /** The commitments v_i*G + r_i*H of a single party. */
  function AptosCommit(q: int, g: int, h: int, values: seq<u64>, blindings: seq<int>): Result<seq<Bytes32>, RangeError>
    requires q > 0
  {
    if |values| != |blindings| then Err(LengthMismatch)
    else Ok(seq(|values|, i requires 0 <= i < |values| => Encode(Point(q, g, h, values[i], blindings[i]))))
  }

  /** One party's blinding points. */
  function ComputePartial(q: int, h: int, shares: seq<int>): (r: Result<seq<int>, RangeError>)
    requires q > 0
  {
    if shares == [] then Err(Empty) else Ok(seq(|shares|, i requires 0 <= i < |shares| => Mul(q, h, shares[i])))
  }

  /** The entries of every party for chunk i. */
  function Column(rows: seq<seq<int>>, i: nat): (r: seq<int>)
    requires forall p :: 0 <= p < |rows| ==> i < |rows[p]|
    ensures |r| == |rows|
  {
    seq(|rows|, p requires 0 <= p < |rows| => rows[p][i])
  }

  predicate Rectangular(rows: seq<seq<int>>, width: nat) {
    forall p :: 0 <= p < |rows| ==> |rows[p]| == width
  }

  /** The sum of the first p parties' entries for chunk i. */
  function Running(q: int, rows: seq<seq<int>>, i: nat, p: nat): int
    requires q > 0 && p <= |rows| && forall r :: 0 <= r < |rows| ==> i < |rows[r]|
  {
    Sum(Column(rows, i)[..p]) % q
  }

  method AggregateBlindingShares(q: int, shares: seq<seq<int>>) returns (r: Result<seq<int>, RangeError>)
    requires q > 0
    ensures r == Err(Empty) <==> shares == [] || shares[0] == []
    ensures r.Ok? <==> shares != [] && shares[0] != [] && Rectangular(shares, |shares[0]|)
    ensures r.Ok? ==> |r.value| == |shares[0]|
    ensures r.Ok? ==> forall i :: 0 <= i < |r.value| ==> r.value[i] == Sum(Column(shares, i)) % q
  {
    if shares == [] { return Err(Empty); }
    var chunkCount := |shares[0]|;
    if chunkCount == 0 { return Err(Empty); }
    for p := 0 to |shares|
      invariant Rectangular(shares[..p], chunkCount)
    {
      if |shares[p]| != chunkCount { return Err(LengthMismatch); }
    }
    var out := new int[chunkCount](_ => 0);
    Small(q, 0);
    for p := 0 to |shares|
      invariant forall i :: 0 <= i < chunkCount ==> out[i] == Running(q, shares, i, p)
    {
      AddShares(q, out, shares, p);
    }
    forall i | 0 <= i < chunkCount ensures out[i] == Sum(Column(shares, i)) % q {
      assert Column(shares, i)[..|shares|] == Column(shares, i);
    }
    return Ok(out[..]);
  }

  /** Adds party p's shares to the running sums. */
  method AddShares(q: int, out: array<int>, shares: seq<seq<int>>, p: nat)
    requires q > 0 && p < |shares| && Rectangular(shares, out.Length)
    requires forall i :: 0 <= i < out.Length ==> out[i] == Running(q, shares, i, p)
    modifies out
    ensures forall i :: 0 <= i < out.Length ==> out[i] == Running(q, shares, i, p + 1)
  {
    for i := 0 to out.Length
      invariant forall k :: 0 <= k < i ==> out[k] == Running(q, shares, k, p + 1)
      invariant forall k :: i <= k < out.Length ==> out[k] == Running(q, shares, k, p)
    {
      NextShare(q, shares, i, p);
      var sum := Add(q, out[i], shares[p][i]);
      out[i] := sum;
    }
  }

  lemma NextShare(q: int, rows: seq<seq<int>>, i: nat, p: nat)
    requires q > 0 && p < |rows| && forall r :: 0 <= r < |rows| ==> i < |rows[r]|
    ensures Add(q, Running(q, rows, i, p), rows[p][i]) == Running(q, rows, i, p + 1)
  {
    var s := Column(rows, i);
    SumPrefix(s, p);
    Idem(q, Sum(s[..p]));
    AddLift(q, Sum(s[..p]) % q, Sum(s[..p]), s[p], s[p]);
  }

  /** The sum of all parties' points for chunk i. */
  method ColumnSum(q: int, partials: seq<seq<int>>, i: nat) returns (hSum: int)
    requires q > 0 && forall p :: 0 <= p < |partials| ==> i < |partials[p]|
    ensures hSum == Sum(Column(partials, i)) % q
  {
    hSum := 0;
    Small(q, 0);
    for p := 0 to |partials|
      invariant hSum == Sum(Column(partials, i)[..p]) % q
    {
      NextShare(q, partials, i, p);
      hSum := Add(q, hSum, partials[p][i]);
    }
    assert Column(partials, i)[..|partials|] == Column(partials, i);
  }

  /** v*G plus all parties' points for chunk i, compressed. */
  function Aggregated(q: int, g: int, partials: seq<seq<int>>, v: int, i: nat): Bytes32
    requires q > 0 && forall p :: 0 <= p < |partials| ==> i < |partials[p]|
  {
    Encode((g * v + Sum(Column(partials, i))) % q)
  }

  method AggregateChunk(q: int, g: int, partials: seq<seq<int>>, v: u64, i: nat) returns (c: Bytes32)
    requires q > 0 && forall p :: 0 <= p < |partials| ==> i < |partials[p]|
    ensures c == Aggregated(q, g, partials, v, i)
  {
    var hSum := ColumnSum(q, partials, i);
    WithValue(q, g, v, Sum(Column(partials, i)));
    c := Encode(Add(q, Mul(q, g, v), hSum));
  }

  method AggregatePartialRangeCommitments(q: int, g: int, partials: seq<seq<int>>, values: seq<u64>)
    returns (r: Result<seq<Bytes32>, RangeError>)
    requires q > 0
    ensures r == Err(Empty) <==> partials == [] || partials[0] == []
    ensures r.Ok? <==> partials != [] && partials[0] != [] && Rectangular(partials, |partials[0]|) &&
                       |values| == |partials[0]|
    ensures r.Ok? ==> |r.value| == |values|
    ensures r.Ok? ==> forall i :: 0 <= i < |values| ==> r.value[i] == Aggregated(q, g, partials, values[i], i)
  {
    if partials == [] { return Err(Empty); }
    var chunkCount := |partials[0]|;
    if chunkCount == 0 { return Err(Empty); }
    for p := 0 to |partials|
      invariant Rectangular(partials[..p], chunkCount)
    {
      if |partials[p]| != chunkCount { return Err(LengthMismatch); }
    }
    if |values| != chunkCount { return Err(LengthMismatch); }
    var out: seq<Bytes32> := [];
    for i := 0 to chunkCount
      invariant |out| == i
      invariant forall k :: 0 <= k < i ==> out[k] == Aggregated(q, g, partials, values[k], k)
    {
      var c := AggregateChunk(q, g, partials, values[i], i);
      out := out + [c];
    }
    return Ok(out);
  }

  lemma WithValue(q: int, g: int, v: int, sum: int)
    requires q > 0
    ensures Add(q, Mul(q, g, v), sum % q) == (g * v + sum) % q
  {
    Idem(q, g * v);
    Idem(q, sum);
    AddLift(q, Mul(q, g, v), g * v, sum % q, sum);
  }

  lemma SharedPoint(q: int, g: int, h: int, v: int, rs: seq<int>, points: seq<int>)
    requires q > 0 && |points| == |rs| && forall p :: 0 <= p < |rs| ==> points[p] == Mul(q, h, rs[p])
    ensures (g * v + Sum(points)) % q == Point(q, g, h, v, Sum(rs) % q)
  {
    SumOfMultiples(q, h, rs, points);
    Idem(q, Sum(rs));
    MulLift(q, h, h, Sum(rs) % q, Sum(rs));
    Idem(q, g * v);
    Idem(q, h * Sum(rs));
    AddLift(q, Mul(q, g, v), g * v, Mul(q, h, Sum(rs) % q), Sum(points));
  }

  /**
   The commitments aggregated from the parties' points are those of a single party that holds the
   aggregated blindings, byte for byte, for any number of parties and chunks.
   */
  method AggregateBoth(q: int, g: int, h: int, values: seq<u64>, shares: seq<seq<int>>, partials: seq<seq<int>>)
    returns (blindings: seq<int>, commitments: seq<Bytes32>)
    requires q > 0 && shares != [] && shares[0] != [] && Rectangular(shares, |values|) && |partials| == |shares|
    requires forall p :: 0 <= p < |shares| ==> ComputePartial(q, h, shares[p]) == Ok(partials[p])
    ensures AptosCommit(q, g, h, values, blindings) == Ok(commitments)
  {
    assert Rectangular(partials, |values|) by {
      forall p | 0 <= p < |shares| ensures |partials[p]| == |values| {
        assert ComputePartial(q, h, shares[p]) == Ok(partials[p]);
      }
    }
    var b := AggregateBlindingShares(q, shares);
    var c := AggregatePartialRangeCommitments(q, g, partials, values);
    blindings, commitments := b.value, c.value;
    forall i | 0 <= i < |values| ensures commitments[i] == Encode(Point(q, g, h, values[i], blindings[i])) {
      SharedChunk(q, g, h, values[i], shares, partials, i);
    }
    assert AptosCommit(q, g, h, values, blindings).value == commitments;
  }

  lemma SharedChunk(q: int, g: int, h: int, v: int, shares: seq<seq<int>>, partials: seq<seq<int>>, i: nat)
    requires q > 0 && |partials| == |shares|
    requires forall p :: 0 <= p < |shares| ==> i < |shares[p]| && ComputePartial(q, h, shares[p]) == Ok(partials[p])
    ensures forall p :: 0 <= p < |shares| ==> i < |partials[p]|
    ensures (g * v + Sum(Column(partials, i))) % q == Point(q, g, h, v, Sum(Column(shares, i)) % q)
  {
    forall p | 0 <= p < |shares| ensures i < |partials[p]| && partials[p][i] == Mul(q, h, shares[p][i]) {
      assert ComputePartial(q, h, shares[p]) == Ok(partials[p]);
    }
    SharedPoint(q, g, h, v, Column(shares, i), Column(partials, i));
  }
}
