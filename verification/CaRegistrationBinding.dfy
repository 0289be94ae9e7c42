/** The final registration hash binds the slots, the public inputs and the contributions. */
module CaRegistrationBinding {
  import opened Wrappers
  import opened CaRegistration
  import Decimals

  /** Hex normal forms of 32 bytes: 64 hex digits. */
  ghost predicate Hex32(hex: Hex) {
    forall s :: hex(s).Some? ==> |hex(s).value| == 64
  }

  // ---- cutting strings ---------------------------------------------------------------------

  lemma {:induction false} CutAt(c: char, x: string, y: string, x': string, y': string)
    requires c !in x && c !in x' && x + [c] + y == x' + [c] + y'
    ensures x == x' && y == y'
  {
    var s, s' := x + [c] + y, x' + [c] + y';
    assert s[0] == s'[0];
    if x != "" && x' != "" {
      assert s[1..] == x[1..] + [c] + y && s'[1..] == x'[1..] + [c] + y';
      CutAt(c, x[1..], y, x'[1..], y');
      assert x == [x[0]] + x[1..] && x' == [x'[0]] + x'[1..];
    } else {
      assert s[1..] == s'[1..];
      assert x == "" ==> s[1..] == y;
      assert x' == "" ==> s'[1..] == y';
    }
  }

  lemma CutLength(x: string, y: string, x': string, y': string)
    requires |x| == |x'| && x + y == x' + y'
    ensures x == x' && y == y'
  {
    assert x == (x + y)[..|x|] && x' == (x' + y')[..|x|];
    assert y == (x + y)[|x|..] && y' == (x' + y')[|x|..];
  }

  lemma Printed(n: int)
    requires n >= 0
    ensures ':' !in Decimals.PrintSigned(n) && ',' !in Decimals.PrintSigned(n) && '|' !in Decimals.PrintSigned(n)
  {
    assert Decimals.AllDigits(Decimals.DecimalOf(n));
  }

  lemma PrintedInjective(m: int, n: int)
    requires Decimals.PrintSigned(m) == Decimals.PrintSigned(n)
    ensures m == n
  {
    Decimals.SignedRoundTrip(m);
    Decimals.SignedRoundTrip(n);
  }

  // ---- the parts ---------------------------------------------------------------------------

  lemma {:induction false} JoinedHashesLength(hex: Hex, hs: seq<string>)
    requires Hex32(hex) && AllHex(hex, hs)
    ensures |JoinHashes(hex, hs)| == 65 * |hs|
  {
    if hs != [] { JoinedHashesLength(hex, hs[1..]); }
  }

  lemma {:induction false} JoinedHashesInjective(hex: Hex, hs: seq<string>, hs': seq<string>)
    requires Hex32(hex) && AllHex(hex, hs) && AllHex(hex, hs') && |hs| == |hs'|
    requires JoinHashes(hex, hs) == JoinHashes(hex, hs')
    ensures forall i :: 0 <= i < |hs| ==> hex(hs[i]) == hex(hs'[i])
  {
    if hs != [] {
      CutLength(":" + OrEmpty(hex(hs[0])), JoinHashes(hex, hs[1..]), ":" + OrEmpty(hex(hs'[0])), JoinHashes(hex, hs'[1..]));
      CutLength(":", OrEmpty(hex(hs[0])), ":", OrEmpty(hex(hs'[0])));
      JoinedHashesInjective(hex, hs[1..], hs'[1..]);
      forall i | 0 <= i < |hs| ensures hex(hs[i]) == hex(hs'[i]) {
        if i > 0 { assert hs[1..][i - 1] == hs[i] && hs'[1..][i - 1] == hs'[i]; }
      }
    }
  }

  predicate Naturals(slots: seq<int>) {
    forall i :: 0 <= i < |slots| ==> slots[i] >= 0
  }

  lemma {:induction false} JoinedSlotsPlain(slots: seq<int>)
    requires Naturals(slots)
    ensures ':' !in JoinSlots(slots)
  {
    if slots != [] {
      Printed(slots[0]);
      JoinedSlotsPlain(slots[1..]);
    }
  }

  lemma {:induction false} JoinedSlotsInjective(slots: seq<int>, slots': seq<int>)
    requires Naturals(slots) && Naturals(slots') && |slots| == |slots'| && JoinSlots(slots) == JoinSlots(slots')
    ensures slots == slots'
  {
    if slots != [] {
      Printed(slots[0]);
      Printed(slots'[0]);
      if |slots| > 1 {
        CutAt(',', Decimals.PrintSigned(slots[0]), JoinSlots(slots[1..]), Decimals.PrintSigned(slots'[0]), JoinSlots(slots'[1..]));
        JoinedSlotsInjective(slots[1..], slots'[1..]);
      }
      PrintedInjective(slots[0], slots'[0]);
      assert slots == [slots[0]] + slots[1..] && slots' == [slots'[0]] + slots'[1..];
    }
  }

  predicate Sized(c: Contribution) {
    c.slot >= 0 && |c.commitment| == |c.response| == |c.round1| == |c.round2| == 64
  }

  predicate AllSized(cs: seq<Contribution>) {
    forall i :: 0 <= i < |cs| ==> Sized(cs[i])
  }

  lemma HashesOfInjective(c: Contribution, c': Contribution)
    requires Sized(c) && Sized(c') && HashesOf(c) == HashesOf(c')
    ensures c.commitment == c'.commitment && c.response == c'.response && c.round1 == c'.round1 && c.round2 == c'.round2
  {
    var s, s' := HashesOf(c), HashesOf(c');
    assert s[..64] == c.commitment && s'[..64] == c'.commitment;
    assert s[65..129] == c.response && s'[65..129] == c'.response;
    assert s[130..194] == c.round1 && s'[130..194] == c'.round1;
    assert s[195..] == c.round2 && s'[195..] == c'.round2;
  }

  lemma {:induction false} EntriesInjective(cs: seq<Contribution>, cs': seq<Contribution>)
    requires |cs| == |cs'| && AllSized(cs) && AllSized(cs') && Entries(cs) == Entries(cs')
    ensures cs == cs'
  {
    if cs != [] {
      var (c, c') := (cs[0], cs'[0]);
      Printed(c.slot);
      Printed(c'.slot);
      CutLength(":", Decimals.PrintSigned(c.slot) + "|" + (HashesOf(c) + Entries(cs[1..])),
                ":", Decimals.PrintSigned(c'.slot) + "|" + (HashesOf(c') + Entries(cs'[1..])));
      CutAt('|', Decimals.PrintSigned(c.slot), HashesOf(c) + Entries(cs[1..]),
            Decimals.PrintSigned(c'.slot), HashesOf(c') + Entries(cs'[1..]));
      PrintedInjective(c.slot, c'.slot);
      CutLength(HashesOf(c), Entries(cs[1..]), HashesOf(c'), Entries(cs'[1..]));
      HashesOfInjective(c, c');
      EntriesInjective(cs[1..], cs'[1..]);
      assert cs == [c] + cs[1..] && cs' == [c'] + cs'[1..];
    }
  }

  // ---- the preimage ------------------------------------------------------------------------

  function SortedContributions(hex: Hex, input: Input): seq<Contribution> {
    SortBy(NormalizeAll(hex, input.contributions), Slot)
  }

  function SortedSlots(input: Input): seq<int> {
    SortBy(input.selectedSlots, Number)
  }

  lemma SortedNaturals(input: Input)
    requires GoodSlots(input.selectedSlots)
    ensures Naturals(SortBy(input.selectedSlots, Number)) && |SortBy(input.selectedSlots, Number)| == |input.selectedSlots|
  {
    var s := SortBy(input.selectedSlots, Number);
    assert |multiset(s)| == |multiset(input.selectedSlots)|;
    forall i | 0 <= i < |s| ensures s[i] >= 0 {
      assert s[i] in multiset(s);
      assert s[i] in input.selectedSlots;
    }
  }

  lemma SortedSized(hex: Hex, input: Input)
    requires Hex32(hex) && GoodSlots(input.selectedSlots)
    requires GoodContributions(hex, input.contributions, input.selectedSlots)
    ensures var cs := SortBy(NormalizeAll(hex, input.contributions), Slot);
            |cs| == |input.contributions| && AllSized(cs)
  {
    var all := NormalizeAll(hex, input.contributions);
    var cs := SortBy(all, Slot);
    assert |multiset(cs)| == |multiset(all)|;
    forall i | 0 <= i < |cs| ensures Sized(cs[i]) {
      assert cs[i] in multiset(cs);
      var j :| 0 <= j < |all| && all[j] == cs[i];
      assert GoodContribution(input.contributions[j], input.selectedSlots, hex);
    }
  }

  /** The hashes agree, in the three groups in which they stand in the preimage. */
  ghost predicate SameHashes(hex: Hex, hs: seq<string>, hs': seq<string>)
    requires |hs| == |hs'|
  {
    forall i :: 0 <= i < |hs| ==> hex(hs[i]) == hex(hs'[i])
  }

  lemma HashesApart(hex: Hex, hs: seq<string>, hs': seq<string>)
    requires |hs| == |hs'| == 8
    requires SameHashes(hex, hs[..2], hs'[..2]) && SameHashes(hex, hs[2..5], hs'[2..5]) && SameHashes(hex, hs[5..], hs'[5..])
    ensures SameHashes(hex, hs, hs')
  {
    forall i | 0 <= i < 8 ensures hex(hs[i]) == hex(hs'[i]) {
      if i < 2 {
        assert hs[i] == hs[..2][i] && hs'[i] == hs'[..2][i];
      } else if i < 5 {
        assert hs[i] == hs[2..5][i - 2] && hs'[i] == hs'[2..5][i - 2];
      } else {
        assert hs[i] == hs[5..][i - 5] && hs'[i] == hs'[5..][i - 5];
      }
    }
  }

  /** The string ends at its first colon. */
  lemma CutAtColon(x: string, y: string, x': string, y': string)
    requires ':' !in x && ':' !in x' && y != "" && y' != "" && y[0] == y'[0] == ':' && x + y == x' + y'
    ensures x == x' && y == y'
  {
    assert y == ":" + y[1..] && y' == ":" + y'[1..];
    assert x + y == x + [':'] + y[1..] && x' + y' == x' + [':'] + y'[1..];
    CutAt(':', x, y[1..], x', y'[1..]);
  }

  lemma HashesCut(hex: Hex, hs: seq<string>, rest: string, hs': seq<string>, rest': string)
    requires Hex32(hex) && AllHex(hex, hs) && AllHex(hex, hs') && |hs| == |hs'|
    requires JoinHashes(hex, hs) + rest == JoinHashes(hex, hs') + rest'
    ensures rest == rest' && SameHashes(hex, hs, hs')
  {
    JoinedHashesLength(hex, hs);
    JoinedHashesLength(hex, hs');
    CutLength(JoinHashes(hex, hs), rest, JoinHashes(hex, hs'), rest');
    JoinedHashesInjective(hex, hs, hs');
  }

  /** A text without colons between a colon and some hashes. */
  lemma TextCut(hex: Hex, x: string, hs: seq<string>, rest: string, x': string, hs': seq<string>, rest': string)
    requires ':' !in x && ':' !in x' && hs != [] && hs' != []
    requires ":" + (x + (JoinHashes(hex, hs) + rest)) == ":" + (x' + (JoinHashes(hex, hs') + rest'))
    ensures x == x' && JoinHashes(hex, hs) + rest == JoinHashes(hex, hs') + rest'
  {
    CutLength(":", x + (JoinHashes(hex, hs) + rest), ":", x' + (JoinHashes(hex, hs') + rest'));
    StartsWithColon(hex, hs, rest);
    StartsWithColon(hex, hs', rest');
    CutAtColon(x, JoinHashes(hex, hs) + rest, x', JoinHashes(hex, hs') + rest');
  }

  lemma StartsWithColon(hex: Hex, hs: seq<string>, rest: string)
    requires hs != []
    ensures JoinHashes(hex, hs) + rest != "" && (JoinHashes(hex, hs) + rest)[0] == ':'
  {
    assert JoinHashes(hex, hs)[0] == ':';
  }

  /** The chain id, three hashes and the contributions, after a colon. */
  lemma TailCut(hex: Hex, n: int, hs: seq<string>, cs: seq<Contribution>, n': int, hs': seq<string>, cs': seq<Contribution>)
    requires Hex32(hex) && n >= 0 && n' >= 0 && AllHex(hex, hs) && AllHex(hex, hs') && |hs| == |hs'| > 0
    requires |cs| == |cs'| && AllSized(cs) && AllSized(cs')
    requires ":" + (Decimals.PrintSigned(n) + (JoinHashes(hex, hs) + Entries(cs)))
          == ":" + (Decimals.PrintSigned(n') + (JoinHashes(hex, hs') + Entries(cs')))
    ensures n == n' && SameHashes(hex, hs, hs') && cs == cs'
  {
    Printed(n);
    Printed(n');
    TextCut(hex, Decimals.PrintSigned(n), hs, Entries(cs), Decimals.PrintSigned(n'), hs', Entries(cs'));
    PrintedInjective(n, n');
    HashesCut(hex, hs, Entries(cs), hs', Entries(cs'));
    EntriesInjective(cs, cs');
  }

  /** The slots, three hashes and a rest, after a colon. */
  lemma SlotsCut(hex: Hex, slots: seq<int>, hs: seq<string>, rest: string, slots': seq<int>, hs': seq<string>, rest': string)
    requires Hex32(hex) && Naturals(slots) && Naturals(slots') && |slots| == |slots'|
    requires AllHex(hex, hs) && AllHex(hex, hs') && |hs| == |hs'| > 0
    requires ":" + (JoinSlots(slots) + (JoinHashes(hex, hs) + rest)) == ":" + (JoinSlots(slots') + (JoinHashes(hex, hs') + rest'))
    ensures slots == slots' && SameHashes(hex, hs, hs') && rest == rest'
  {
    JoinedSlotsPlain(slots);
    JoinedSlotsPlain(slots');
    TextCut(hex, JoinSlots(slots), hs, rest, JoinSlots(slots'), hs', rest');
    JoinedSlotsInjective(slots, slots');
    HashesCut(hex, hs, rest, hs', rest');
  }

  /** The epoch, which consists of digits, and some hashes. */
  lemma EpochCut(hex: Hex, x: string, hs: seq<string>, rest: string, x': string, hs': seq<string>, rest': string)
    requires Hex32(hex) && Decimals.AllDigits(x) && Decimals.AllDigits(x')
    requires AllHex(hex, hs) && AllHex(hex, hs') && |hs| == |hs'| > 0
    requires FINAL_DOMAIN + ":" + (x + (JoinHashes(hex, hs) + rest)) == FINAL_DOMAIN + ":" + (x' + (JoinHashes(hex, hs') + rest'))
    ensures x == x' && SameHashes(hex, hs, hs') && rest == rest'
  {
    CutLength(FINAL_DOMAIN + ":", x + (JoinHashes(hex, hs) + rest), FINAL_DOMAIN + ":", x' + (JoinHashes(hex, hs') + rest'));
    assert ':' !in x && ':' !in x' by { assert !Decimals.IsDigit(':'); }
    StartsWithColon(hex, hs, rest);
    StartsWithColon(hex, hs', rest');
    CutAtColon(x, JoinHashes(hex, hs) + rest, x', JoinHashes(hex, hs') + rest');
    HashesCut(hex, hs, rest, hs', rest');
  }

  /** What stands in a preimage: epoch, two hashes, slots, three hashes, the chain id, three hashes, contributions. */
  datatype Parts = Parts(epoch: string, first: seq<string>, slots: seq<int>, second: seq<string>, chainId: int,
                         third: seq<string>, contributions: seq<Contribution>)

  ghost predicate Printable(hex: Hex, p: Parts) {
    && Decimals.AllDigits(p.epoch) && Naturals(p.slots) && p.chainId >= 0 && AllSized(p.contributions)
    && AllHex(hex, p.first) && AllHex(hex, p.second) && AllHex(hex, p.third)
    && |p.first| == 2 && |p.slots| == 5 && |p.second| == |p.third| == 3 && |p.contributions| == 5
  }

  function ChainText(hex: Hex, p: Parts): string {
    ":" + (Decimals.PrintSigned(p.chainId) + (JoinHashes(hex, p.third) + Entries(p.contributions)))
  }

  function SlotsText(hex: Hex, p: Parts): string {
    ":" + (JoinSlots(p.slots) + (JoinHashes(hex, p.second) + ChainText(hex, p)))
  }

  function Text(hex: Hex, p: Parts): string {
    FINAL_DOMAIN + ":" + (p.epoch + (JoinHashes(hex, p.first) + SlotsText(hex, p)))
  }

  lemma TextBinds(hex: Hex, p: Parts, p': Parts)
    requires Hex32(hex) && Printable(hex, p) && Printable(hex, p') && Text(hex, p) == Text(hex, p')
    ensures p.epoch == p'.epoch && p.slots == p'.slots && p.chainId == p'.chainId && p.contributions == p'.contributions
    ensures SameHashes(hex, p.first, p'.first) && SameHashes(hex, p.second, p'.second) && SameHashes(hex, p.third, p'.third)
  {
    EpochCut(hex, p.epoch, p.first, SlotsText(hex, p), p'.epoch, p'.first, SlotsText(hex, p'));
    SlotsCut(hex, p.slots, p.second, ChainText(hex, p), p'.slots, p'.second, ChainText(hex, p'));
    TailCut(hex, p.chainId, p.third, p.contributions, p'.chainId, p'.third, p'.contributions);
  }

  function PartsOf(hex: Hex, input: Input): Parts
    requires |input.hashes| == 8
  {
    Parts(input.dkgEpoch, input.hashes[..2], SortedSlots(input), input.hashes[2..5], input.chainId, input.hashes[5..],
          SortedContributions(hex, input))
  }

  lemma PartsPrintable(hex: Hex, input: Input)
    requires Hex32(hex) && |input.hashes| == 8 && WellFormed(hex, input)
    ensures Printable(hex, PartsOf(hex, input))
  {
    SortedNaturals(input);
    SortedSized(hex, input);
  }

  lemma PreimageText(hex: Hex, input: Input)
    requires |input.hashes| == 8
    ensures Preimage(hex, input) == Text(hex, PartsOf(hex, input))
  {
  }

  /**
   The final hash binds the input: well-formed inputs with one preimage have the same epoch,
   chain and hashes, and the same slots and contributions up to their order.
   */
  lemma PreimageBinds(hex: Hex, a: Input, b: Input)
    requires Hex32(hex) && |a.hashes| == |b.hashes| == 8 && WellFormed(hex, a) && WellFormed(hex, b)
    requires Preimage(hex, a) == Preimage(hex, b)
    ensures a.dkgEpoch == b.dkgEpoch && a.chainId == b.chainId
    ensures forall i :: 0 <= i < 8 ==> hex(a.hashes[i]) == hex(b.hashes[i])
    ensures multiset(a.selectedSlots) == multiset(b.selectedSlots)
    ensures multiset(NormalizeAll(hex, a.contributions)) == multiset(NormalizeAll(hex, b.contributions))
  {
    PartsPrintable(hex, a);
    PartsPrintable(hex, b);
    PreimageText(hex, a);
    PreimageText(hex, b);
    TextBinds(hex, PartsOf(hex, a), PartsOf(hex, b));
    HashesApart(hex, a.hashes, b.hashes);
  }

  // ---- the layout --------------------------------------------------------------------------

  lemma JoinedHashesAre(hex: Hex, hs: seq<string>)
    requires AllHex(hex, hs)
    ensures |hs| == 2 ==> JoinHashes(hex, hs) == ":" + hex(hs[0]).value + (":" + hex(hs[1]).value)
    ensures |hs| == 3 ==> JoinHashes(hex, hs) == ":" + hex(hs[0]).value + (":" + hex(hs[1]).value + (":" + hex(hs[2]).value))
  {
    if |hs| == 2 {
      assert JoinHashes(hex, hs[1..]) == ":" + hex(hs[1]).value;
    } else if |hs| == 3 {
      assert hs[1..][1..] == [hs[2]];
      assert JoinHashes(hex, [hs[2]]) == ":" + hex(hs[2]).value;
      assert JoinHashes(hex, hs[1..]) == ":" + hex(hs[1]).value + (":" + hex(hs[2]).value);
    }
  }

  lemma JoinedSlotsAre(s: int, t: seq<int>)
    ensures JoinSlots([s] + t) == if t == [] then Decimals.PrintSigned(s) else Decimals.PrintSigned(s) + "," + JoinSlots(t)
  {
  }

  lemma EntriesAre(c: Contribution, cs: seq<Contribution>)
    ensures Entries([c] + cs)
         == ":" + (Decimals.PrintSigned(c.slot) + "|" +
                   (c.commitment + "|" + c.response + "|" + c.round1 + "|" + c.round2 + Entries(cs)))
  {
    assert ([c] + cs)[1..] == cs;
  }

  /**
   The layout: domain, epoch, the CA DKG transcript and the roster, the slots in ascending order, the
   vault key, the sender and the asset, the chain, the aggregate commitment and response and the
   challenge, and the contributions in ascending order of their slots.
   */
  lemma PreimageIs(hex: Hex, input: Input, slots: seq<int>, cs: seq<Contribution>)
    requires |input.hashes| == 8 && WellFormed(hex, input)
    requires AscendingBy(slots, Number) && multiset(slots) == multiset(input.selectedSlots)
    requires AscendingBy(cs, Slot) && multiset(cs) == multiset(NormalizeAll(hex, input.contributions))
    ensures var h := input.hashes;
            Preimage(hex, input)
            == "EUNOMA_CA_REGISTRATION_V2_FINAL_V1" + ":" +
               (input.dkgEpoch +
                ((":" + hex(h[0]).value + (":" + hex(h[1]).value)) +
                 (":" +
                  (JoinSlots(slots) +
                   ((":" + hex(h[2]).value + (":" + hex(h[3]).value + (":" + hex(h[4]).value))) +
                    (":" +
                     (Decimals.PrintSigned(input.chainId) +
                      ((":" + hex(h[5]).value + (":" + hex(h[6]).value + (":" + hex(h[7]).value))) + Entries(cs)))))))))
  {
    SortAscending(input.selectedSlots, Number);
    AscendingUnique(slots, SortBy(input.selectedSlots, Number), Number);
    NormalizedDistinct(hex, input.contributions);
    SortAscending(NormalizeAll(hex, input.contributions), Slot);
    AscendingUnique(cs, SortBy(NormalizeAll(hex, input.contributions), Slot), Slot);
    JoinedHashesAre(hex, input.hashes[..2]);
    JoinedHashesAre(hex, input.hashes[2..5]);
    JoinedHashesAre(hex, input.hashes[5..]);
  }

  lemma NormalizedDistinct(hex: Hex, cs: seq<Contribution>)
    requires DistinctBy(cs, Slot)
    ensures DistinctBy(NormalizeAll(hex, cs), Slot)
  {
    var n := NormalizeAll(hex, cs);
    forall i, j | 0 <= i < j < |n| ensures Slot(n[i]) != Slot(n[j]) {
      assert Slot(cs[i]) != Slot(cs[j]);
    }
  }
}
