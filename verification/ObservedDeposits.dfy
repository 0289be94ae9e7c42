/** The scan for the ordered vector of observed deposits. */
module ObservedDeposits {
  import opened Wrappers
  import opened Maintenance

  /**
   A file of the directory, as far as the scan reads it. A file that is no artifact, or whose
   depositCount is not a whole number, can stand for any entry that does not match.
   */
  datatype Entry = Entry(identity: string, depositCount: int, transcriptHash: string)

  function StripHexPrefix(s: string): string {
    if |s| >= 2 && s[0] == '0' && (s[1] == 'x' || s[1] == 'X') then s[2..] else s
  }

  function NormHex(s: string): string {
    Lower(StripHexPrefix(s))
  }

  /** Hashes are compared without a 0x or 0X prefix and without regard to the case of letters. */
  lemma NormHexIs(s: string, t: string)
    requires |s| == |t| && forall i :: 0 <= i < |s| ==> s[i] == t[i] || ('A' <= s[i] <= 'Z' && t[i] as int == s[i] as int + 32)
    requires |s| < 2 || s[0] != '0' || (s[1] != 'x' && s[1] != 'X')
    requires forall i :: 0 <= i < |t| ==> !('A' <= t[i] <= 'Z')
    ensures NormHex(s) == NormHex("0x" + s) == NormHex("0X" + s) == t
  {
    assert ("0x" + s)[2..] == s && ("0X" + s)[2..] == s;
    forall i | 0 <= i < |s| ensures Lower(s)[i] == t[i] {}
  }

  /** A matching artifact for cursor c. */
  predicate IsFor(e: Entry, entries: seq<Entry>, matches: Entry -> bool, c: int) {
    e in entries && matches(e) && e.depositCount == c
  }

  /** The first matching artifact for a cursor, in listing order. */
  function FirstAt(entries: seq<Entry>, matches: Entry -> bool, c: int): (r: Option<Entry>)
    ensures r.Some? ==> IsFor(r.value, entries, matches, c)
  {
    if entries == [] then None
    else if matches(entries[0]) && entries[0].depositCount == c then Some(entries[0])
    else FirstAt(entries[1..], matches, c)
  }

  /** Every cursor from 1 to n has a matching artifact. */
  ghost predicate Complete(entries: seq<Entry>, matches: Entry -> bool, n: nat) {
    forall c :: 1 <= c <= n ==> FirstAt(entries, matches, c).Some?
  }

  /** The first-wins hashes, in cursor order. */
  function Vector(entries: seq<Entry>, matches: Entry -> bool, n: nat): (r: seq<string>)
    requires Complete(entries, matches, n)
    ensures |r| == n
    ensures forall i :: 0 <= i < n ==> r[i] == FirstAt(entries, matches, i + 1).value.transcriptHash
  {
    seq(n, i requires 0 <= i < n => FirstAt(entries, matches, i + 1).value.transcriptHash)
  }

  ghost predicate DistinctHex(hs: seq<string>) {
    forall i, j :: 0 <= i < j < |hs| ==> NormHex(hs[i]) != NormHex(hs[j])
  }

  lemma {:induction false} FirstAtSnoc(entries: seq<Entry>, e: Entry, matches: Entry -> bool, c: int)
    ensures FirstAt(entries + [e], matches, c) ==
            if FirstAt(entries, matches, c).Some? then FirstAt(entries, matches, c)
            else if matches(e) && e.depositCount == c then Some(e) else None
  {
    if entries == [] {
      assert entries + [e] == [e];
    } else {
      FirstAtSnoc(entries[1..], e, matches, c);
      assert (entries + [e])[1..] == entries[1..] + [e];
    }
  }

  /** The map from cursor to first-wins hash. */
  ghost predicate IsIndex(entries: seq<Entry>, matches: Entry -> bool, n: nat, byCursor: map<int, string>) {
    && (forall c :: c in byCursor <==> 1 <= c <= n && FirstAt(entries, matches, c).Some?)
    && (forall c :: c in byCursor ==> byCursor[c] == FirstAt(entries, matches, c).value.transcriptHash)
  }

  method IndexByCursor(entries: seq<Entry>, matches: Entry -> bool, n: nat) returns (byCursor: map<int, string>)
    ensures IsIndex(entries, matches, n, byCursor)
  {
    byCursor := map[];
    for i := 0 to |entries|
      invariant IsIndex(entries[..i], matches, n, byCursor)
    {
      var e := entries[i];
      assert entries[..i + 1] == entries[..i] + [e];
      forall c { FirstAtSnoc(entries[..i], e, matches, c); }
      if matches(e) {
        var cursor := e.depositCount;
        if 1 <= cursor <= n && cursor !in byCursor {
          byCursor := byCursor[cursor := e.transcriptHash];
        }
      }
    }
    assert entries[..|entries|] == entries;
  }

  /** The completeness gate. */
  method InCursorOrder(ghost entries: seq<Entry>, ghost matches: Entry -> bool, n: nat, byCursor: map<int, string>)
    returns (r: Option<seq<string>>)
    requires IsIndex(entries, matches, n, byCursor)
    ensures r.Some? <==> Complete(entries, matches, n)
    ensures r.Some? ==> r.value == Vector(entries, matches, n)
  {
    var ordered := [];
    for c := 1 to n + 1
      invariant |ordered| == c - 1
      invariant forall k :: 1 <= k < c ==> k in byCursor && ordered[k - 1] == byCursor[k]
    {
      if c !in byCursor { return None; }
      ordered := ordered + [byCursor[c]];
    }
    assert forall i :: 0 <= i < n ==> i + 1 in byCursor && ordered[i] == byCursor[i + 1];
    assert ordered == Vector(entries, matches, n);
    return Some(ordered);
  }

  function Norms(hs: seq<string>): (r: seq<string>)
    ensures |r| == |hs| && forall i :: 0 <= i < |hs| ==> r[i] == NormHex(hs[i])
  {
    seq(|hs|, i requires 0 <= i < |hs| => NormHex(hs[i]))
  }

  ghost predicate Unrepeated(norms: seq<string>) {
    forall i, j :: 0 <= i < j < |norms| ==> norms[i] != norms[j]
  }

  /** The set of the first i normalised hashes, none of which occurs twice. */
  ghost predicate SeenUpTo(norms: seq<string>, i: nat, seen: set<string>)
    requires i <= |norms|
  {
    Unrepeated(norms[..i]) && forall h :: h in seen <==> h in norms[..i]
  }

  lemma SeenStep(norms: seq<string>, i: nat, seen: set<string>)
    requires i < |norms| && SeenUpTo(norms, i, seen)
    ensures if norms[i] in seen then !Unrepeated(norms) else SeenUpTo(norms, i + 1, seen + {norms[i]})
  {
    assert norms[..i + 1] == norms[..i] + [norms[i]];
    if norms[i] in seen {
      var k :| 0 <= k < i && norms[..i][k] == norms[i];
    }
  }

  lemma NormsDistinct(hs: seq<string>)
    ensures Unrepeated(Norms(hs)) <==> DistinctHex(hs)
  {
    assert forall i, j :: 0 <= i < j < |hs| ==> (Norms(hs)[i] != Norms(hs)[j] <==> NormHex(hs[i]) != NormHex(hs[j]));
  }

  method AllDistinct(hs: seq<string>) returns (ok: bool)
    ensures ok <==> DistinctHex(hs)
  {
    NormsDistinct(hs);
    var seen := {};
    for i := 0 to |hs|
      invariant SeenUpTo(Norms(hs), i, seen)
    {
      var norm := NormHex(hs[i]);
      SeenStep(Norms(hs), i, seen);
      if norm in seen { return false; }
      seen := seen + {norm};
    }
    assert Norms(hs)[..|hs|] == Norms(hs);
    return true;
  }

  /**
   A vector exactly when every cursor 1..n has a matching artifact and the hashes that come first
   are pairwise distinct; entry i is then from an artifact with depositCount i + 1, which is what
   the caller's cursor vector [1..n] claims.
   */
  ghost function Scan(entries: seq<Entry>, matches: Entry -> bool, n: nat): (r: Option<seq<string>>)
    ensures r.Some? ==> |r.value| == n >= 1
    ensures r.Some? ==> forall i :: 0 <= i < n ==> Supplied(entries, matches, i + 1, r.value[i])
  {
    if n >= 1 && Complete(entries, matches, n) && DistinctHex(Vector(entries, matches, n)) then
      Some(Vector(entries, matches, n))
    else None
  }

  /** Some matching artifact for cursor c carries this hash. */
  ghost predicate Supplied(entries: seq<Entry>, matches: Entry -> bool, c: int, hash: string) {
    exists e :: IsFor(e, entries, matches, c) && e.transcriptHash == hash
  }

  /** The scan of the directory: first wins, every cursor present, no hash twice. */
  method FindObservedProvenance(entries: seq<Entry>, matches: Entry -> bool, n: nat) returns (r: Option<seq<string>>)
    ensures r == Scan(entries, matches, n)
  {
    if n < 1 { return None; }
    var byCursor := IndexByCursor(entries, matches, n);
    var ordered := InCursorOrder(entries, matches, n, byCursor);
    if ordered.None? { return None; }
    var unique := AllDistinct(ordered.value);
    return if unique then ordered else None;
  }

  // ---- listing order -----------------------------------------------------------------------

  /** Whatever order the directory is listed in, the scan returns the same. */
  ghost predicate OrderFree(entries: seq<Entry>, matches: Entry -> bool, n: nat) {
    forall listed: seq<Entry> :: multiset(listed) == multiset(entries) ==>
      Scan(listed, matches, n) == Scan(entries, matches, n)
  }

  ghost predicate NoneFor(entries: seq<Entry>, matches: Entry -> bool, c: int) {
    forall e :: !IsFor(e, entries, matches, c)
  }

  /** Some cursor has no matching artifact. */
  ghost predicate Uncovered(entries: seq<Entry>, matches: Entry -> bool, n: nat) {
    exists c :: 1 <= c <= n && NoneFor(entries, matches, c)
  }

  /** The retries at each cursor carry one hash. */
  ghost predicate RetriesAgree(entries: seq<Entry>, matches: Entry -> bool, n: nat) {
    forall c, a, b :: 1 <= c <= n && IsFor(a, entries, matches, c) && IsFor(b, entries, matches, c) ==>
      a.transcriptHash == b.transcriptHash
  }

  /** One matching artifact per cursor. */
  ghost predicate IsChoice(chosen: seq<Entry>, entries: seq<Entry>, matches: Entry -> bool) {
    forall i :: 0 <= i < |chosen| ==> IsFor(chosen[i], entries, matches, i + 1)
  }

  function Hashes(chosen: seq<Entry>): (r: seq<string>)
    ensures |r| == |chosen| && forall i :: 0 <= i < |r| ==> r[i] == chosen[i].transcriptHash
  {
    seq(|chosen|, i requires 0 <= i < |chosen| => chosen[i].transcriptHash)
  }

  /** However one artifact per cursor is chosen, two of the hashes are equal. */
  ghost predicate AlwaysRepeats(entries: seq<Entry>, matches: Entry -> bool, n: nat) {
    forall chosen :: |chosen| == n && IsChoice(chosen, entries, matches) ==> !DistinctHex(Hashes(chosen))
  }

  lemma {:induction false} FirstAtFinds(entries: seq<Entry>, matches: Entry -> bool, e: Entry)
    requires e in entries && matches(e)
    ensures FirstAt(entries, matches, e.depositCount).Some?
  {
    if entries[0] != e { FirstAtFinds(entries[1..], matches, e); }
  }

  lemma CompleteIsCovered(entries: seq<Entry>, matches: Entry -> bool, n: nat)
    ensures Complete(entries, matches, n) <==> !Uncovered(entries, matches, n)
  {
    forall c: int ensures FirstAt(entries, matches, c).Some? <==> !NoneFor(entries, matches, c) {
      if FirstAt(entries, matches, c).Some? {
        assert IsFor(FirstAt(entries, matches, c).value, entries, matches, c);
      } else {
        forall e ensures !IsFor(e, entries, matches, c) {
          if IsFor(e, entries, matches, c) { FirstAtFinds(entries, matches, e); }
        }
      }
    }
  }

  /** The artifacts that come first. */
  lemma FirstChoice(entries: seq<Entry>, matches: Entry -> bool, n: nat) returns (chosen: seq<Entry>)
    requires Complete(entries, matches, n)
    ensures |chosen| == n && IsChoice(chosen, entries, matches) && Hashes(chosen) == Vector(entries, matches, n)
  {
    chosen := seq(n, i requires 0 <= i < n => FirstAt(entries, matches, i + 1).value);
  }

  lemma SameEntries(entries: seq<Entry>, listed: seq<Entry>, e: Entry)
    requires multiset(listed) == multiset(entries)
    ensures e in listed <==> e in entries
  {
    assert e in listed <==> e in multiset(listed);
  }

  lemma UncoveredListing(entries: seq<Entry>, listed: seq<Entry>, matches: Entry -> bool, n: nat)
    requires multiset(listed) == multiset(entries) && Uncovered(entries, matches, n)
    ensures Scan(listed, matches, n) == None
  {
    forall e { SameEntries(entries, listed, e); }
    CompleteIsCovered(listed, matches, n);
    var c :| 1 <= c <= n && NoneFor(entries, matches, c);
    forall e ensures !IsFor(e, listed, matches, c) { assert !IsFor(e, entries, matches, c); }
    assert NoneFor(listed, matches, c);
  }

  /** A vector that a listing leads to is a choice of artifacts. */
  lemma ListingChooses(entries: seq<Entry>, listed: seq<Entry>, matches: Entry -> bool, n: nat) returns (chosen: seq<Entry>)
    requires multiset(listed) == multiset(entries) && Complete(listed, matches, n)
    ensures |chosen| == n && IsChoice(chosen, entries, matches) && Hashes(chosen) == Vector(listed, matches, n)
  {
    chosen := FirstChoice(listed, matches, n);
    forall e { SameEntries(entries, listed, e); }
    forall i | 0 <= i < n ensures IsFor(chosen[i], entries, matches, i + 1) {
      assert IsFor(chosen[i], listed, matches, i + 1);
    }
  }

  lemma AgreeingListing(entries: seq<Entry>, listed: seq<Entry>, matches: Entry -> bool, n: nat)
    requires multiset(listed) == multiset(entries)
    requires Complete(entries, matches, n) && Complete(listed, matches, n) && RetriesAgree(entries, matches, n)
    ensures Vector(listed, matches, n) == Vector(entries, matches, n)
  {
    var a := FirstChoice(entries, matches, n);
    var b := ListingChooses(entries, listed, matches, n);
    forall i | 0 <= i < n ensures Hashes(a)[i] == Hashes(b)[i] {
      assert IsFor(a[i], entries, matches, i + 1) && IsFor(b[i], entries, matches, i + 1);
    }
  }

  function Without(entries: seq<Entry>, e: Entry): seq<Entry>
    requires e in entries
  {
    if entries[0] == e then entries[1..] else [entries[0]] + Without(entries[1..], e)
  }

  lemma {:induction false} WithoutOne(entries: seq<Entry>, e: Entry)
    requires e in entries
    ensures multiset(Without(entries, e)) + multiset{e} == multiset(entries)
    ensures forall x :: x in entries && x != e ==> x in Without(entries, e)
  {
    assert entries == [entries[0]] + entries[1..];
    if entries[0] != e { WithoutOne(entries[1..], e); }
  }

  lemma ConsMultiset(e: Entry, s: seq<Entry>)
    ensures multiset([e] + s) == multiset(s) + multiset{e}
  {
  }

  ghost predicate DistinctCursors(chosen: seq<Entry>) {
    forall i, j :: 0 <= i < j < |chosen| ==> chosen[i].depositCount != chosen[j].depositCount
  }

  lemma TailStays(entries: seq<Entry>, chosen: seq<Entry>)
    requires chosen != [] && DistinctCursors(chosen) && forall i :: 0 <= i < |chosen| ==> chosen[i] in entries
    ensures DistinctCursors(chosen[1..])
    ensures forall i :: 0 <= i < |chosen[1..]| ==> chosen[1..][i] in Without(entries, chosen[0])
  {
    WithoutOne(entries, chosen[0]);
    forall i | 0 <= i < |chosen[1..]| ensures chosen[1..][i] in Without(entries, chosen[0]) {
      assert chosen[0].depositCount != chosen[i + 1].depositCount;
    }
  }

  /** The chosen artifacts can be listed first. */
  lemma {:induction false} MovedToFront(entries: seq<Entry>, chosen: seq<Entry>) returns (rest: seq<Entry>)
    requires DistinctCursors(chosen) && forall i :: 0 <= i < |chosen| ==> chosen[i] in entries
    ensures multiset(chosen + rest) == multiset(entries)
    decreases chosen
  {
    if chosen == [] {
      rest := entries;
      assert chosen + rest == entries;
    } else {
      TailStays(entries, chosen);
      WithoutOne(entries, chosen[0]);
      rest := MovedToFront(Without(entries, chosen[0]), chosen[1..]);
      ConsMultiset(chosen[0], chosen[1..] + rest);
      assert chosen + rest == [chosen[0]] + (chosen[1..] + rest);
    }
  }

  lemma {:induction false} FrontWins(chosen: seq<Entry>, rest: seq<Entry>, matches: Entry -> bool, j: nat)
    requires DistinctCursors(chosen) && j < |chosen| && forall e :: e in chosen ==> matches(e)
    ensures FirstAt(chosen + rest, matches, chosen[j].depositCount) == Some(chosen[j])
    decreases chosen
  {
    assert (chosen + rest)[1..] == chosen[1..] + rest && (chosen + rest)[0] == chosen[0];
    if j > 0 { FrontWins(chosen[1..], rest, matches, j - 1); }
  }

  /** Every choice of artifacts is what some listing puts first. */
  lemma Fronted(entries: seq<Entry>, matches: Entry -> bool, chosen: seq<Entry>) returns (listed: seq<Entry>)
    requires chosen != [] && IsChoice(chosen, entries, matches)
    ensures multiset(listed) == multiset(entries)
    ensures Scan(listed, matches, |chosen|) == if DistinctHex(Hashes(chosen)) then Some(Hashes(chosen)) else None
  {
    forall e | e in chosen ensures e in entries && matches(e) {
      var i :| 0 <= i < |chosen| && chosen[i] == e;
      assert IsFor(chosen[i], entries, matches, i + 1);
    }
    assert forall i :: 0 <= i < |chosen| ==> IsFor(chosen[i], entries, matches, i + 1);
    var rest := MovedToFront(entries, chosen);
    listed := chosen + rest;
    forall i | 0 <= i < |chosen| ensures FirstAt(listed, matches, i + 1) == Some(chosen[i]) {
      FrontWins(chosen, rest, matches, i);
    }
    forall c | 1 <= c <= |chosen| ensures FirstAt(listed, matches, c).Some? {
      assert FirstAt(listed, matches, (c - 1) + 1) == Some(chosen[c - 1]);
    }
    assert Vector(listed, matches, |chosen|) == Hashes(chosen);
  }

  /** Where retries differ and some choice is accepted, two listings lead to different results. */
  lemma DifferingRetries(entries: seq<Entry>, matches: Entry -> bool, chosen: seq<Entry>, i: nat, other: Entry)
    requires i < |chosen| && IsChoice(chosen, entries, matches) && DistinctHex(Hashes(chosen))
    requires IsFor(other, entries, matches, i + 1) && other.transcriptHash != chosen[i].transcriptHash
    ensures !OrderFree(entries, matches, |chosen|)
  {
    var changed := chosen[i := other];
    assert IsChoice(changed, entries, matches) by {
      forall k | 0 <= k < |changed| ensures IsFor(changed[k], entries, matches, k + 1) {
        assert IsFor(chosen[k], entries, matches, k + 1);
      }
    }
    var first := Fronted(entries, matches, chosen);
    var second := Fronted(entries, matches, changed);
    assert Hashes(chosen)[i] != Hashes(changed)[i];
    assert Scan(first, matches, |chosen|) != Scan(second, matches, |chosen|);
  }

  lemma IrrelevantIf(entries: seq<Entry>, matches: Entry -> bool, n: nat)
    requires n < 1 || Uncovered(entries, matches, n) || RetriesAgree(entries, matches, n) || AlwaysRepeats(entries, matches, n)
    ensures OrderFree(entries, matches, n)
  {
    CompleteIsCovered(entries, matches, n);
    forall listed: seq<Entry> | multiset(listed) == multiset(entries)
      ensures Scan(listed, matches, n) == Scan(entries, matches, n)
    {
      if Uncovered(entries, matches, n) {
        UncoveredListing(entries, listed, matches, n);
      } else if n >= 1 {
        CoveredListing(entries, listed, matches, n);
        if RetriesAgree(entries, matches, n) {
          AgreeingListing(entries, listed, matches, n);
        } else {
          var a := FirstChoice(entries, matches, n);
          var b := ListingChooses(entries, listed, matches, n);
        }
      }
    }
  }

  lemma CoveredListing(entries: seq<Entry>, listed: seq<Entry>, matches: Entry -> bool, n: nat)
    requires multiset(listed) == multiset(entries) && Complete(entries, matches, n)
    ensures Complete(listed, matches, n)
  {
    forall c | 1 <= c <= n ensures FirstAt(listed, matches, c).Some? {
      SameEntries(entries, listed, FirstAt(entries, matches, c).value);
      FirstAtFinds(listed, matches, FirstAt(entries, matches, c).value);
    }
  }

  /**
   Exactly when the order of the directory listing does not matter: nothing is asked for, a cursor
   is not covered, the retries at each cursor carry one hash, or no choice of retries is accepted.
   */
  lemma OrderIrrelevant(entries: seq<Entry>, matches: Entry -> bool, n: nat)
    ensures OrderFree(entries, matches, n) <==>
            n < 1 || Uncovered(entries, matches, n) || RetriesAgree(entries, matches, n) || AlwaysRepeats(entries, matches, n)
  {
    if n < 1 || Uncovered(entries, matches, n) || RetriesAgree(entries, matches, n) || AlwaysRepeats(entries, matches, n) {
      IrrelevantIf(entries, matches, n);
    } else {
      var chosen: seq<Entry> :| |chosen| == n && IsChoice(chosen, entries, matches) && DistinctHex(Hashes(chosen));
      var c: int, a: Entry, b: Entry :| 1 <= c <= n && IsFor(a, entries, matches, c) && IsFor(b, entries, matches, c) &&
                     a.transcriptHash != b.transcriptHash;
      DifferingRetries(entries, matches, chosen, c - 1, if a.transcriptHash == chosen[c - 1].transcriptHash then b else a);
    }
  }

  /** Artifacts of different cursors have different hashes, as hashing the depositCount makes sure. */
  ghost predicate HashesBindCursor(entries: seq<Entry>, matches: Entry -> bool, n: nat) {
    forall c, d, a, b :: 1 <= c < d <= n && IsFor(a, entries, matches, c) && IsFor(b, entries, matches, d) ==>
      NormHex(a.transcriptHash) != NormHex(b.transcriptHash)
  }

  /** Then a covered scan is independent of the order if and only if the retries at each cursor carry one hash. */
  lemma OrderOfHonestArtifacts(entries: seq<Entry>, matches: Entry -> bool, n: nat)
    requires n >= 1 && Complete(entries, matches, n) && HashesBindCursor(entries, matches, n)
    ensures OrderFree(entries, matches, n) <==> RetriesAgree(entries, matches, n)
  {
    OrderIrrelevant(entries, matches, n);
    CompleteIsCovered(entries, matches, n);
    var chosen := FirstChoice(entries, matches, n);
    forall i, j | 0 <= i < j < n ensures NormHex(Hashes(chosen)[i]) != NormHex(Hashes(chosen)[j]) {
      assert IsFor(chosen[i], entries, matches, i + 1) && IsFor(chosen[j], entries, matches, j + 1);
    }
    assert DistinctHex(Hashes(chosen));
  }

  /** Two retries at one cursor: both orders are accepted, with different vectors. */
  lemma OrderMatters(matches: Entry -> bool, a: Entry, b: Entry)
    requires matches(a) && matches(b) && a.depositCount == b.depositCount == 1 && a.transcriptHash != b.transcriptHash
    ensures multiset([b, a]) == multiset([a, b])
    ensures Scan([a, b], matches, 1) == Some([a.transcriptHash])
    ensures Scan([b, a], matches, 1) == Some([b.transcriptHash])
  {
    assert FirstAt([a, b], matches, 1) == Some(a) && FirstAt([b, a], matches, 1) == Some(b);
    assert Vector([a, b], matches, 1) == [a.transcriptHash] && Vector([b, a], matches, 1) == [b.transcriptHash];
  }
}
