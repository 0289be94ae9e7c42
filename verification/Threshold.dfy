/**
 The coordinator's assembly of a threshold proof: the workers' parts at the key-bearing positions,
 the user's parts everywhere else.
 */
module Threshold {
  import opened Wrappers
  import opened ModArith
  import opened PrimeField
  import opened Digits
  import opened Encoding
  import opened Lagrange
  import opened TransferForm
  import opened TransferSigma
  import opened DkBases

  datatype DkPartial = DkPartial(index: nat, commitment: Bytes32)
  datatype Contribution = Contribution(slot: nat, partials: seq<DkPartial>)
  datatype AssemblyError = PartialMissing | AggregationFailed | UserLengthInvalid | WorkerSumMissing |
                           EmptyInput | BadScalarLength

  // ---- addition of compressed points -------------------------------------------------------

  function Decoded(q: int, bs: seq<Bytes32>): (r: seq<int>)
    ensures |r| == |bs|
  {
    seq(|bs|, i requires 0 <= i < |bs| => if Decode(q, bs[i]).Some? then Decode(q, bs[i]).value else 0)
  }

  /** The sum of compressed points; an empty list or an encoding that is not a point is an error. */
  function AggregatePoints(q: int, bs: seq<Bytes32>): Option<Bytes32>
    requires q > 0
  {
    if bs == [] || exists i :: 0 <= i < |bs| && Decode(q, bs[i]).None? then None
    else Some(Encode(Sum(Decoded(q, bs)) % q))
  }

  lemma DecodedOfCompressed(q: int, points: seq<int>)
    requires 0 < q <= Pow(BYTE, SCALAR_BYTES) && forall i :: 0 <= i < |points| ==> 0 <= points[i] < q
    ensures Decoded(q, Compressed(points)) == points
    ensures forall i :: 0 <= i < |points| ==> Decode(q, Compressed(points)[i]).Some?
  {
    forall i | 0 <= i < |points| ensures Decode(q, Compressed(points)[i]) == Some(points[i]) {
      EncodeDecode(q, points[i]);
    }
  }

  lemma AggregateOfCompressed(q: int, points: seq<int>)
    requires 0 < q <= Pow(BYTE, SCALAR_BYTES) && points != [] && forall i :: 0 <= i < |points| ==> 0 <= points[i] < q
    ensures AggregatePoints(q, Compressed(points)) == Some(Encode(Sum(points) % q))
  {
    DecodedOfCompressed(q, points);
  }

  // ---- the workers' sum at one position ----------------------------------------------------

  function Find(contributions: seq<Contribution>, slot: nat): Option<Contribution> {
    if contributions == [] then None
    else if contributions[0].slot == slot then Some(contributions[0])
    else Find(contributions[1..], slot)
  }

  function FindPartial(partials: seq<DkPartial>, index: nat): Option<Bytes32> {
    if partials == [] then None
    else if partials[0].index == index then Some(partials[0].commitment)
    else FindPartial(partials[1..], index)
  }

  /** The partials at `index` of the slots, in slot order; None when a contribution lacks one. */
  function Collect(slots: seq<nat>, contributions: seq<Contribution>, index: nat): Option<seq<Bytes32>> {
    if slots == [] then Some([])
    else
      var n := |slots| - 1;
      match Collect(slots[..n], contributions, index)
      case None => None
      case Some(bs) =>
        match Find(contributions, slots[n])
        case None => Some(bs)
        case Some(entry) =>
          match FindPartial(entry.partials, index)
          case None => None
          case Some(b) => Some(bs + [b])
  }

  function WorkerSum(q: int, slots: seq<nat>, contributions: seq<Contribution>, index: nat): Result<Bytes32, AssemblyError>
    requires q > 0
  {
    match Collect(slots, contributions, index)
    case None => Err(PartialMissing)
    case Some(bs) =>
      match AggregatePoints(q, bs)
      case None => Err(AggregationFailed)
      case Some(b) => Ok(b)
  }

  lemma {:induction false} CollectMonotone(slots: seq<nat>, contributions: seq<Contribution>, index: nat, i: nat)
    requires i <= |slots| && Collect(slots[..i], contributions, index).None?
    ensures Collect(slots, contributions, index).None?
    decreases |slots| - i
  {
    if i < |slots| {
      assert slots[..i + 1][..i] == slots[..i];
      CollectMonotone(slots, contributions, index, i + 1);
    } else {
      assert slots[..i] == slots;
    }
  }

  method SumWorkers(q: int, slots: seq<nat>, contributions: seq<Contribution>, index: nat)
    returns (r: Result<Bytes32, AssemblyError>)
    requires q > 0
    ensures r == WorkerSum(q, slots, contributions, index)
  {
    var partials := [];
    for i := 0 to |slots|
      invariant Collect(slots[..i], contributions, index) == Some(partials)
    {
      assert slots[..i + 1][..i] == slots[..i];
      var entry := Find(contributions, slots[i]);
      if entry.Some? {
        var partial := FindPartial(entry.value.partials, index);
        if partial.None? {
          CollectMonotone(slots, contributions, index, i + 1);
          return Err(PartialMissing);
        }
        partials := partials + [partial.value];
      }
    }
    assert slots[..|slots|] == slots;
    var sum := AggregatePoints(q, partials);
    if sum.None? { return Err(AggregationFailed); }
    return Ok(sum.value);
  }

  // ---- A_full ------------------------------------------------------------------------------

  /** What position i of the assembled commitment must be. */
  ghost predicate PositionIs(q: int, indices: seq<nat>, slots: seq<nat>, contributions: seq<Contribution>,
                             user: seq<Bytes32>, i: nat, b: Bytes32)
    requires q > 0 && |user| == 29 && i < 30
  {
    if i == 0 then WorkerSum(q, slots, contributions, 0) == Ok(b)
    else if i in indices then
      WorkerSum(q, slots, contributions, i).Ok? &&
      AggregatePoints(q, [user[i - 1], WorkerSum(q, slots, contributions, i).value]) == Some(b)
    else b == user[i - 1]
  }

  /** The first position whose partials do not add up, and why. */
  ghost predicate FirstFailing(q: int, indices: seq<nat>, slots: seq<nat>, contributions: seq<Contribution>, k: nat,
                               error: AssemblyError)
    requires q > 0
  {
    && k < |indices| && WorkerSum(q, slots, contributions, indices[k]) == Err(error)
    && forall j :: 0 <= j < k ==> WorkerSum(q, slots, contributions, indices[j]).Ok?
  }

  method SumAllWorkers(q: int, indices: seq<nat>, slots: seq<nat>, contributions: seq<Contribution>)
    returns (r: Result<map<nat, Bytes32>, AssemblyError>)
    requires q > 0
    ensures r.Ok? <==> forall idx :: idx in indices ==> WorkerSum(q, slots, contributions, idx).Ok?
    ensures r.Err? ==> exists k :: FirstFailing(q, indices, slots, contributions, k, r.error)
    ensures r.Ok? ==> forall idx :: idx in r.value <==> idx in indices
    ensures r.Ok? ==> forall idx :: idx in indices ==> WorkerSum(q, slots, contributions, idx) == Ok(r.value[idx])
  {
    var sums := map[];
    for k := 0 to |indices|
      invariant forall idx :: idx in sums <==> idx in indices[..k]
      invariant forall idx :: idx in sums ==> WorkerSum(q, slots, contributions, idx) == Ok(sums[idx])
    {
      var sum := SumWorkers(q, slots, contributions, indices[k]);
      if sum.Err? {
        assert indices[k] in indices;
        assert FirstFailing(q, indices, slots, contributions, k, sum.error);
        return Err(sum.error);
      }
      sums := sums[indices[k] := sum.value];
      assert indices[..k + 1] == indices[..k] + [indices[k]];
    }
    assert indices[..|indices|] == indices;
    return Ok(sums);
  }

  /** Why an assembly is refused: its first fault, in the order of the checks. */
  ghost predicate RefusedWith(q: int, indices: seq<nat>, slots: seq<nat>, contributions: seq<Contribution>,
                              user: seq<Bytes32>, error: AssemblyError)
    requires q > 0
  {
    if exists idx :: idx in indices && WorkerSum(q, slots, contributions, idx).Err? then
      exists k :: FirstFailing(q, indices, slots, contributions, k, error)
    else if |user| != 29 then error == UserLengthInvalid
    else if 0 !in indices then error == WorkerSumMissing
    else error == AggregationFailed
  }

  /** Stitches the workers' and the user's parts into one 30-point commitment. */
  method AssembleCommitments(q: int, indices: seq<nat>, slots: seq<nat>, contributions: seq<Contribution>,
                             user: seq<Bytes32>) returns (r: Result<seq<Bytes32>, AssemblyError>)
    requires q > 0
    ensures r.Ok? ==> |user| == 29 && |r.value| == 30
    ensures r.Ok? ==> forall i :: 0 <= i < 30 ==> PositionIs(q, indices, slots, contributions, user, i, r.value[i])
    ensures r.Err? ==> RefusedWith(q, indices, slots, contributions, user, r.error)
    ensures r.Err? <==>
      |user| != 29 || 0 !in indices || (exists idx :: idx in indices && WorkerSum(q, slots, contributions, idx).Err?) ||
      exists i :: 1 <= i < 30 && i in indices && SharedFails(q, slots, contributions, user, i)
  {
    var sums := SumAllWorkers(q, indices, slots, contributions);
    if sums.Err? { return Err(sums.error); }
    var workerSumByIndex := sums.value;
    if |user| != 29 { return Err(UserLengthInvalid); }
    var full: seq<Bytes32> := [];
    for i := 0 to 30
      invariant |full| == i && (i > 0 ==> 0 in indices)
      invariant forall k :: 0 <= k < i ==> PositionIs(q, indices, slots, contributions, user, k, full[k])
      invariant forall k :: 1 <= k < i && k in indices ==> !SharedFails(q, slots, contributions, user, k)
    {
      if i == 0 {
        if 0 !in workerSumByIndex { return Err(WorkerSumMissing); }
        full := full + [workerSumByIndex[0]];
      } else if i in indices {
        var sum := AggregatePoints(q, [user[i - 1], workerSumByIndex[i]]);
        if sum.None? {
          assert SharedFails(q, slots, contributions, user, i);
          return Err(AggregationFailed);
        }
        full := full + [sum.value];
      } else {
        full := full + [user[i - 1]];
      }
    }
    return Ok(full);
  }

  ghost predicate SharedFails(q: int, slots: seq<nat>, contributions: seq<Contribution>, user: seq<Bytes32>, i: nat)
    requires q > 0
  {
    1 <= i <= |user| && WorkerSum(q, slots, contributions, i).Ok? &&
    AggregatePoints(q, [user[i - 1], WorkerSum(q, slots, contributions, i).value]).None?
  }

  // ---- s[0] --------------------------------------------------------------------------------

  function LeValues(bs: seq<seq<u8>>): (r: seq<int>)
    ensures |r| == |bs|
  {
    seq(|bs|, i requires 0 <= i < |bs| => Value(BYTE, bs[i]))
  }

  /** Adds 32-byte scalars modulo the group order. */
  method AggregateScalarsModN(q: int, inputs: seq<seq<u8>>) returns (r: Result<Bytes32, AssemblyError>)
    requires q > 0
    ensures r == Err(EmptyInput) <==> inputs == []
    ensures r.Ok? <==> inputs != [] && forall i :: 0 <= i < |inputs| ==> |inputs[i]| == 32
    ensures r.Ok? ==> r.value == Encode(Sum(LeValues(inputs)) % q)
  {
    if |inputs| == 0 { return Err(EmptyInput); }
    var sum := 0;
    Small(q, 0);
    ghost var values := LeValues(inputs);
    for i := 0 to |inputs|
      invariant sum == Sum(values[..i]) % q && forall k :: 0 <= k < i ==> |inputs[k]| == 32
    {
      if |inputs[i]| != 32 { return Err(BadScalarLength); }
      SumPrefix(values, i);
      Idem(q, Sum(values[..i]));
      AddLift(q, sum, Sum(values[..i]), values[i], values[i]);
      sum := (sum + Value(BYTE, inputs[i])) % q;
    }
    assert values[..|inputs|] == values;
    return Ok(Encode(sum));
  }
}
