/** Assembly of the CA registration transcript from the contributions of the selected slots. */
module CaRegistration {
  import opened Wrappers
  import Decimals

  const DEOPERATOR_THRESHOLD: nat := 5
  const DEOPERATOR_COUNT: nat := 7
  const FINAL_DOMAIN: string := "EUNOMA_CA_REGISTRATION_V2_FINAL_V1"

  datatype RegistrationError = UnderQuorum | UnknownSlot | DuplicateSlot | StaleDkgEpoch | InvalidShape

  /** A slot that is no integer is outside the range, like any negative one. */
  datatype Contribution = Contribution(slot: int, commitment: string, response: string, round1: string, round2: string)

  datatype Input = Input(dkgEpoch: string, selectedSlots: seq<int>, verifierSlot: int, hashes: seq<string>, chainId: int,
                         contributions: seq<Contribution>)

  datatype Transcript = Transcript(selectedSlots: seq<int>, contributions: seq<Contribution>, transcriptHash: string)

  // ---- hex -------------------------------------------------------------------------------

  /** How a string is read as 32 bytes of hex: its normal form, or nothing. */
  type Hex = string -> Option<string>

  function OrEmpty(o: Option<string>): string {
    if o.Some? then o.value else ""
  }

  predicate AllHex(hex: Hex, hs: seq<string>) {
    forall i :: 0 <= i < |hs| ==> hex(hs[i]).Some?
  }

  predicate HexOk(hex: Hex, c: Contribution) {
    hex(c.commitment).Some? && hex(c.response).Some? && hex(c.round1).Some? && hex(c.round2).Some?
  }

  function Normalize(hex: Hex, c: Contribution): (r: Contribution)
    ensures r.slot == c.slot
  {
    Contribution(c.slot, OrEmpty(hex(c.commitment)), OrEmpty(hex(c.response)), OrEmpty(hex(c.round1)),
                 OrEmpty(hex(c.round2)))
  }

  function NormalizeAll(hex: Hex, cs: seq<Contribution>): (r: seq<Contribution>)
    ensures |r| == |cs| && forall i :: 0 <= i < |cs| ==> r[i] == Normalize(hex, cs[i])
  {
    seq(|cs|, i requires 0 <= i < |cs| => Normalize(hex, cs[i]))
  }

  // ---- sorting by slot ---------------------------------------------------------------------

  function Insert<T>(x: T, s: seq<T>, key: T -> int): (r: seq<T>)
    ensures multiset(r) == multiset(s) + multiset{x}
  {
    if s == [] || key(x) <= key(s[0]) then [x] + s
    else
      assert s == [s[0]] + s[1..];
      [s[0]] + Insert(x, s[1..], key)
  }

  /** Ascending by key, equal keys in their original order. */
  function SortBy<T>(s: seq<T>, key: T -> int): (r: seq<T>)
    ensures multiset(r) == multiset(s)
  {
    if s == [] then []
    else
      assert s == [s[0]] + s[1..];
      Insert(s[0], SortBy(s[1..], key), key)
  }

  ghost predicate DistinctBy<T>(s: seq<T>, key: T -> int) {
    forall i, j :: 0 <= i < j < |s| ==> key(s[i]) != key(s[j])
  }

  ghost predicate AscendingBy<T>(s: seq<T>, key: T -> int) {
    forall i, j :: 0 <= i < j < |s| ==> key(s[i]) < key(s[j])
  }

  lemma InsertElements<T>(x: T, s: seq<T>, key: T -> int, y: T)
    ensures y in Insert(x, s, key) <==> y == x || y in s
  {
    assert y in Insert(x, s, key) <==> y in multiset(Insert(x, s, key));
  }

  lemma {:induction false} InsertAscending<T>(x: T, s: seq<T>, key: T -> int)
    requires AscendingBy(s, key) && forall y :: y in s ==> key(y) != key(x)
    ensures AscendingBy(Insert(x, s, key), key)
  {
    if s == [] {
    } else {
      if key(x) < key(s[0]) {
        forall y | y in s ensures key(x) < key(y) { assert y == s[0] || y in s[1..]; }
      } else {
        InsertAscending(x, s[1..], key);
        forall y | y in Insert(x, s[1..], key) ensures key(s[0]) < key(y) {
          InsertElements(x, s[1..], key, y);
        }
      }
    }
  }

  lemma {:induction false} SortAscending<T>(s: seq<T>, key: T -> int)
    requires DistinctBy(s, key)
    ensures AscendingBy(SortBy(s, key), key)
  {
    if s != [] {
      SortAscending(s[1..], key);
      forall y | y in SortBy(s[1..], key) ensures key(y) != key(s[0]) {
        assert y in multiset(SortBy(s[1..], key));
        assert y in s[1..];
        var i :| 0 <= i < |s[1..]| && s[1..][i] == y;
        assert s[i + 1] == y;
      }
      InsertAscending(s[0], SortBy(s[1..], key), key);
    }
  }

  lemma HeadIsLeast<T>(a: seq<T>, b: seq<T>, key: T -> int)
    requires a != [] && b != [] && AscendingBy(a, key) && AscendingBy(b, key) && multiset(a) == multiset(b)
    ensures a[0] == b[0]
  {
    assert a[0] in multiset(a) && b[0] in multiset(b);
    var i :| 0 <= i < |b| && b[i] == a[0];
    var j :| 0 <= j < |a| && a[j] == b[0];
  }

  /** A strictly ascending list is determined by its elements. */
  lemma {:induction false} AscendingUnique<T>(a: seq<T>, b: seq<T>, key: T -> int)
    requires AscendingBy(a, key) && AscendingBy(b, key) && multiset(a) == multiset(b)
    ensures a == b
  {
    assert |a| == |multiset(a)| == |multiset(b)| == |b|;
    if a != [] {
      HeadIsLeast(a, b, key);
      assert a == [a[0]] + a[1..] && b == [b[0]] + b[1..];
      assert multiset(a[1..]) == multiset(a) - multiset{a[0]};
      assert multiset(b[1..]) == multiset(b) - multiset{b[0]};
      AscendingUnique(a[1..], b[1..], key);
    }
  }

  /** Sorting forgets the order in which distinct entries arrived. */
  lemma SortForgetsOrder<T>(s: seq<T>, t: seq<T>, key: T -> int)
    requires DistinctBy(s, key) && DistinctBy(t, key) && multiset(s) == multiset(t)
    ensures SortBy(s, key) == SortBy(t, key)
  {
    SortAscending(s, key);
    SortAscending(t, key);
    AscendingUnique(SortBy(s, key), SortBy(t, key), key);
  }

  // ---- the preimage ------------------------------------------------------------------------

  function Slot(c: Contribution): int {
    c.slot
  }

  function Number(n: int): int {
    n
  }

  function JoinSlots(slots: seq<int>): string {
    if slots == [] then ""
    else if |slots| == 1 then Decimals.PrintSigned(slots[0])
    else Decimals.PrintSigned(slots[0]) + "," + JoinSlots(slots[1..])
  }

  function JoinHashes(hex: Hex, hs: seq<string>): string {
    if hs == [] then "" else ":" + OrEmpty(hex(hs[0])) + JoinHashes(hex, hs[1..])
  }

  function HashesOf(c: Contribution): string {
    c.commitment + "|" + c.response + "|" + c.round1 + "|" + c.round2
  }

  function Entries(cs: seq<Contribution>): string {
    if cs == [] then ""
    else ":" + (Decimals.PrintSigned(cs[0].slot) + "|" + (HashesOf(cs[0]) + Entries(cs[1..])))
  }

  /** The last three hashes and the contributions. */
  function AfterChain(hex: Hex, input: Input): string
    requires |input.hashes| == 8
  {
    JoinHashes(hex, input.hashes[5..]) + Entries(SortBy(NormalizeAll(hex, input.contributions), Slot))
  }

  /** The key, the sender, the asset, the chain id and what follows. */
  function AfterSlots(hex: Hex, input: Input): string
    requires |input.hashes| == 8
  {
    JoinHashes(hex, input.hashes[2..5]) + (":" + (Decimals.PrintSigned(input.chainId) + AfterChain(hex, input)))
  }

  /** What the final transcript hash is taken of. hashes: the CA DKG transcript, the roster, then the rest in order. */
  function Preimage(hex: Hex, input: Input): string
    requires |input.hashes| == 8
  {
    FINAL_DOMAIN + ":" +
    (input.dkgEpoch +
     (JoinHashes(hex, input.hashes[..2]) + (":" + (JoinSlots(SortBy(input.selectedSlots, Number)) + AfterSlots(hex, input)))))
  }

  // ---- acceptance --------------------------------------------------------------------------

  ghost predicate WellFormed(hex: Hex, input: Input) {
    && |input.selectedSlots| == DEOPERATOR_THRESHOLD && |input.contributions| == DEOPERATOR_THRESHOLD
    && GoodSlots(input.selectedSlots) && input.verifierSlot in input.selectedSlots
    && input.dkgEpoch != "" && Decimals.AllDigits(input.dkgEpoch)
    && AllHex(hex, input.hashes) && 0 <= input.chainId <= 255
    && GoodContributions(hex, input.contributions, input.selectedSlots)
  }

  ghost predicate GoodSlots(slots: seq<int>) {
    DistinctBy(slots, Number) && forall i :: 0 <= i < |slots| ==> 0 <= slots[i] < DEOPERATOR_COUNT
  }

  ghost predicate GoodContributions(hex: Hex, cs: seq<Contribution>, slots: seq<int>) {
    DistinctBy(cs, Slot) && forall i :: 0 <= i < |cs| ==> GoodContribution(cs[i], slots, hex)
  }

  predicate GoodContribution(c: Contribution, slots: seq<int>, hex: Hex) {
    c.slot in slots && HexOk(hex, c)
  }

  function Slots(cs: seq<Contribution>): (r: seq<int>)
    ensures |r| == |cs| && forall i :: 0 <= i < |cs| ==> r[i] == cs[i].slot
  {
    seq(|cs|, i requires 0 <= i < |cs| => cs[i].slot)
  }

  /** The first bad slot, and what is wrong with it. */
  ghost predicate BadSlotAt(slots: seq<int>, k: nat, error: RegistrationError) {
    && k < |slots| && GoodSlots(slots[..k])
    && if 0 <= slots[k] < DEOPERATOR_COUNT then slots[k] in slots[..k] && error == DuplicateSlot
       else error == UnknownSlot
  }

  method CheckSlots(slots: seq<int>) returns (r: Result<set<int>, RegistrationError>)
    ensures r.Ok? <==> GoodSlots(slots)
    ensures r.Err? ==> exists k :: BadSlotAt(slots, k, r.error)
    ensures r.Ok? ==> forall s :: s in r.value <==> s in slots
  {
    var seen := {};
    for i := 0 to |slots|
      invariant forall s :: s in seen <==> s in slots[..i]
      invariant GoodSlots(slots[..i])
    {
      assert slots[..i + 1] == slots[..i] + [slots[i]];
      if slots[i] < 0 || slots[i] >= DEOPERATOR_COUNT {
        assert BadSlotAt(slots, i, UnknownSlot);
        return Err(UnknownSlot);
      }
      if slots[i] in seen {
        assert BadSlotAt(slots, i, DuplicateSlot);
        var k :| 0 <= k < i && slots[..i][k] == slots[i];
        assert Number(slots[k]) == Number(slots[i]);
        return Err(DuplicateSlot);
      }
      seen := seen + {slots[i]};
    }
    assert slots[..|slots|] == slots;
    return Ok(seen);
  }

  /** The first bad contribution, and what is wrong with it. */
  ghost predicate BadContributionAt(hex: Hex, cs: seq<Contribution>, slots: seq<int>, k: nat, error: RegistrationError) {
    && k < |cs| && GoodContributions(hex, cs[..k], slots)
    && if cs[k].slot !in slots then error == UnknownSlot
       else if cs[k].slot in Slots(cs)[..k] then error == DuplicateSlot
       else !HexOk(hex, cs[k]) && error == InvalidShape
  }

  lemma RepeatedSlot(cs: seq<Contribution>, i: nat)
    requires i < |cs| && cs[i].slot in Slots(cs)[..i]
    ensures !DistinctBy(cs, Slot)
  {
    var k :| 0 <= k < i && Slots(cs)[k] == cs[i].slot;
    assert Slot(cs[k]) == Slot(cs[i]);
  }

  lemma OneMoreGood(hex: Hex, cs: seq<Contribution>, slots: seq<int>, i: nat)
    requires i < |cs| && GoodContributions(hex, cs[..i], slots) && GoodContribution(cs[i], slots, hex)
    requires cs[i].slot !in Slots(cs)[..i]
    ensures GoodContributions(hex, cs[..i + 1], slots)
  {
    assert cs[..i + 1] == cs[..i] + [cs[i]];
    forall k | 0 <= k < i ensures Slot(cs[k]) != Slot(cs[i]) { assert Slots(cs)[..i][k] == cs[k].slot; }
  }

  method CheckContributions(cs: seq<Contribution>, slots: seq<int>, seen: set<int>, hex: Hex)
    returns (r: Result<seq<Contribution>, RegistrationError>)
    requires GoodSlots(slots) && forall s :: s in seen <==> s in slots
    ensures r.Ok? <==> GoodContributions(hex, cs, slots)
    ensures r.Ok? ==> r.value == NormalizeAll(hex, cs)
    ensures r.Err? ==> exists k :: BadContributionAt(hex, cs, slots, k, r.error)
  {
    var seenContribution := {};
    var normalized := [];
    for i := 0 to |cs|
      invariant forall s :: s in seenContribution <==> s in Slots(cs)[..i]
      invariant GoodContributions(hex, cs[..i], slots)
      invariant normalized == NormalizeAll(hex, cs)[..i]
    {
      var c := cs[i];
      assert Slots(cs)[..i + 1] == Slots(cs)[..i] + [c.slot];
      if c.slot < 0 || c.slot >= DEOPERATOR_COUNT || c.slot !in seen {
        assert BadContributionAt(hex, cs, slots, i, UnknownSlot);
        return Err(UnknownSlot);
      }
      if c.slot in seenContribution {
        RepeatedSlot(cs, i);
        assert BadContributionAt(hex, cs, slots, i, DuplicateSlot);
        return Err(DuplicateSlot);
      }
      if !HexOk(hex, c) {
        assert BadContributionAt(hex, cs, slots, i, InvalidShape);
        return Err(InvalidShape);
      }
      OneMoreGood(hex, cs, slots, i);
      seenContribution := seenContribution + {c.slot};
      normalized := normalized + [Normalize(hex, c)];
    }
    assert cs[..|cs|] == cs;
    return Ok(normalized);
  }

  function TranscriptOf(hex: Hex, input: Input, sha256: string -> string): Transcript
    requires |input.hashes| == 8
  {
    Transcript(SortBy(input.selectedSlots, Number), NormalizeAll(hex, input.contributions), sha256(Preimage(hex, input)))
  }

  /** Why an input is refused: its first fault, in the order of the checks. */
  ghost predicate RefusedWith(hex: Hex, input: Input, error: RegistrationError) {
    if |input.selectedSlots| != DEOPERATOR_THRESHOLD then error == UnderQuorum
    else if !GoodSlots(input.selectedSlots) then exists k :: BadSlotAt(input.selectedSlots, k, error)
    else if input.verifierSlot !in input.selectedSlots then error == UnknownSlot
    else if |input.contributions| != DEOPERATOR_THRESHOLD then error == UnderQuorum
    else if input.dkgEpoch == "" || !Decimals.AllDigits(input.dkgEpoch) then error == StaleDkgEpoch
    else if !AllHex(hex, input.hashes) || !(0 <= input.chainId <= 255) then error == InvalidShape
    else exists k :: BadContributionAt(hex, input.contributions, input.selectedSlots, k, error)
  }

  /** Accepts exactly the well-formed inputs, and hashes their canonical preimage. */
  method AssembleTranscript(hex: Hex, input: Input, sha256: string -> string) returns (r: Result<Transcript, RegistrationError>)
    requires |input.hashes| == 8
    ensures r.Ok? <==> WellFormed(hex, input)
    ensures r.Ok? ==> r.value == TranscriptOf(hex, input, sha256)
    ensures r.Err? ==> RefusedWith(hex, input, r.error)
  {
    if |input.selectedSlots| != DEOPERATOR_THRESHOLD { return Err(UnderQuorum); }
    var seen :- CheckSlots(input.selectedSlots);
    if input.verifierSlot !in seen { return Err(UnknownSlot); }
    if |input.contributions| != DEOPERATOR_THRESHOLD { return Err(UnderQuorum); }
    if input.dkgEpoch == "" || !Decimals.AllDigits(input.dkgEpoch) { return Err(StaleDkgEpoch); }
    if !AllHex(hex, input.hashes) { return Err(InvalidShape); }
    if input.chainId < 0 || input.chainId > 255 { return Err(InvalidShape); }
    var normalized :- CheckContributions(input.contributions, input.selectedSlots, seen, hex);
    var sortedSlots := SortBy(input.selectedSlots, Number);
    return Ok(Transcript(sortedSlots, normalized, sha256(Preimage(hex, input))));
  }

  // ---- what acceptance means ---------------------------------------------------------------

  function Elements(s: seq<int>): set<int> {
    set x | x in s
  }

  lemma {:induction false} DistinctSize(s: seq<int>)
    requires DistinctBy(s, Number)
    ensures |Elements(s)| == |s|
  {
    if s != [] {
      var n := |s| - 1;
      forall i, j | 0 <= i < j < n ensures Number(s[..n][i]) != Number(s[..n][j]) {
        assert Number(s[i]) != Number(s[j]);
      }
      DistinctSize(s[..n]);
      assert s[n] !in s[..n] by {
        forall i | 0 <= i < n ensures s[i] != s[n] { assert Number(s[i]) != Number(s[n]); }
      }
      assert Elements(s) == Elements(s[..n]) + {s[n]};
    }
  }

  lemma SubsetSameSize(a: set<int>, b: set<int>)
    requires a <= b && |a| == |b|
    ensures a == b
  {
    assert |b - a| == |b| - |a|;
  }

  /** Five distinct contributions from five distinct selected slots come from all of them. */
  lemma EverySlotContributes(hex: Hex, input: Input)
    requires WellFormed(hex, input)
    ensures Elements(Slots(input.contributions)) == Elements(input.selectedSlots)
    ensures |input.selectedSlots| == |input.contributions| == |Elements(input.selectedSlots)| == 5
    ensures forall s :: s in input.selectedSlots ==> 0 <= s < 7
  {
    var slots := Slots(input.contributions);
    forall i, j | 0 <= i < j < |slots| ensures Number(slots[i]) != Number(slots[j]) {
      assert Slot(input.contributions[i]) != Slot(input.contributions[j]);
    }
    DistinctSize(slots);
    DistinctSize(input.selectedSlots);
    forall x | x in Elements(slots) ensures x in Elements(input.selectedSlots) {
      var i :| 0 <= i < |slots| && slots[i] == x;
      assert GoodContribution(input.contributions[i], input.selectedSlots, hex);
    }
    SubsetSameSize(Elements(slots), Elements(input.selectedSlots));
  }

  lemma NormalizeCons(hex: Hex, c: Contribution, s: seq<Contribution>)
    ensures NormalizeAll(hex, [c] + s) == [Normalize(hex, c)] + NormalizeAll(hex, s)
  {
  }

  lemma InsertAbove<T>(x: T, y: T, s: seq<T>, key: T -> int)
    requires key(x) > key(y)
    ensures Insert(x, [y] + s, key) == [y] + Insert(x, s, key)
  {
    assert ([y] + s)[1..] == s;
  }

  lemma {:induction false} InsertNormalized(hex: Hex, c: Contribution, s: seq<Contribution>)
    ensures NormalizeAll(hex, Insert(c, s, Slot)) == Insert(Normalize(hex, c), NormalizeAll(hex, s), Slot)
  {
    if s == [] || c.slot <= s[0].slot {
      NormalizeCons(hex, c, s);
    } else {
      var (y, t) := (s[0], s[1..]);
      assert s == [y] + t;
      InsertNormalized(hex, c, t);
      NormalizeCons(hex, y, t);
      NormalizeCons(hex, y, Insert(c, t, Slot));
      InsertAbove(Normalize(hex, c), Normalize(hex, y), NormalizeAll(hex, t), Slot);
    }
  }

  /** Normalizing keeps slots, so it does not matter whether it comes before or after sorting. */
  lemma {:induction false} SortNormalized(hex: Hex, s: seq<Contribution>)
    ensures SortBy(NormalizeAll(hex, s), Slot) == NormalizeAll(hex, SortBy(s, Slot))
  {
    if s != [] {
      SortNormalized(hex, s[1..]);
      assert NormalizeAll(hex, s)[1..] == NormalizeAll(hex, s[1..]);
      InsertNormalized(hex, s[0], SortBy(s[1..], Slot));
    }
  }

  /** The hash binds the set of slots and contributions, not the order in which they were listed. */
  lemma OrderIndependent(hex: Hex, input: Input, slots: seq<int>, contributions: seq<Contribution>)
    requires |input.hashes| == 8 && WellFormed(hex, input)
    requires multiset(slots) == multiset(input.selectedSlots) && DistinctBy(slots, Number)
    requires multiset(contributions) == multiset(input.contributions) && DistinctBy(contributions, Slot)
    ensures Preimage(hex, input.(selectedSlots := slots, contributions := contributions)) == Preimage(hex, input)
  {
    SortForgetsOrder(slots, input.selectedSlots, Number);
    SortForgetsOrder(contributions, input.contributions, Slot);
    SortNormalized(hex, contributions);
    SortNormalized(hex, input.contributions);
  }
}
