/**
 The bridge maintenance pipeline: single flight with one queued rerun. What runs between two
 awaits is one step; the drain loop's exit and the `finally` callback that follows it in the same
 turn of the event loop are one step as well.
 */
module Maintenance {
  import opened Wrappers

  // ---- transaction hashes ------------------------------------------------------------------

  /** White space and line terminators as JavaScript's trim removes them. */
  predicate IsJsSpace(c: char) {
    var u := c as int;
    9 <= u <= 13 || u == 0x20 || u == 0xA0 || u == 0x1680 || 0x2000 <= u <= 0x200A
    || u == 0x2028 || u == 0x2029 || u == 0x202F || u == 0x205F || u == 0x3000 || u == 0xFEFF
  }

  function TrimStart(s: string): (r: string) {
    if s != "" && IsJsSpace(s[0]) then TrimStart(s[1..]) else s
  }

  function TrimEnd(s: string): (r: string) {
    if s != "" && IsJsSpace(s[|s| - 1]) then TrimEnd(s[..|s| - 1]) else s
  }

  function LowerChar(c: char): char {
    if 'A' <= c <= 'Z' then (c as int + 32) as char else c
  }

  function Lower(s: string): (r: string)
    ensures |r| == |s| && forall i :: 0 <= i < |s| ==> r[i] == LowerChar(s[i])
  {
    seq(|s|, i requires 0 <= i < |s| => LowerChar(s[i]))
  }

  predicate IsHexDigit(c: char) {
    '0' <= c <= '9' || 'a' <= c <= 'f'
  }

  /** 0x and 64 lower-case hex digits. */
  predicate IsTxHash(s: string) {
    |s| == 66 && s[0] == '0' && s[1] == 'x' && forall i :: 2 <= i < 66 ==> IsHexDigit(s[i])
  }

  /** The hash a string denotes, if it is well-formed. */
  function TxHashOf(s: string): (r: Option<string>)
    ensures r.Some? ==> IsTxHash(r.value)
  {
    var t := Lower(TrimEnd(TrimStart(s)));
    if IsTxHash(t) then Some(t) else None
  }

  lemma TxHashOfTxHash(h: string)
    requires IsTxHash(h)
    ensures TxHashOf(h) == Some(h)
  {
    assert IsHexDigit(h[65]);
    assert TrimStart(h) == h && TrimEnd(h) == h;
    assert Lower(h) == h by {
      forall i | 0 <= i < |h| ensures LowerChar(h[i]) == h[i] {
        assert i < 2 || IsHexDigit(h[i]);
      }
    }
  }

  /** Adds the hashes of a list that are not there yet, in order. */
  function AddHashes(out: seq<string>, input: seq<string>): seq<string>
    decreases input
  {
    if input == [] then out
    else AddHashes(AddHash(out, input[0]), input[1..])
  }

  function AddHash(out: seq<string>, s: string): seq<string> {
    match TxHashOf(s)
    case Some(h) => if h in out then out else out + [h]
    case None => out
  }

  function Normalized(input: seq<string>): seq<string> {
    AddHashes([], input)
  }

  // ---- what a hash string is, character by character ---------------------------------------

  /** Exactly these characters are trimmed. */
  lemma JsSpaceIs(c: char)
    ensures IsJsSpace(c) <==>
            c as int in {0x09, 0x0A, 0x0B, 0x0C, 0x0D, 0x20, 0xA0, 0x1680, 0x2000, 0x2001, 0x2002, 0x2003, 0x2004, 0x2005,
                         0x2006, 0x2007, 0x2008, 0x2009, 0x200A, 0x2028, 0x2029, 0x202F, 0x205F, 0x3000, 0xFEFF}
  {
  }

  /** s is white space, 0x or 0X, 64 hex digits of either case from k + 2 on, and white space; h is that in lower case. */
  ghost predicate ReadsAs(s: string, k: nat, h: string) {
    && k + 66 <= |s| && |h| == 66
    && (forall j :: 0 <= j < k ==> IsJsSpace(s[j]))
    && (forall j :: k + 66 <= j < |s| ==> IsJsSpace(s[j]))
    && s[k] == '0' == h[0] && (s[k + 1] == 'x' || s[k + 1] == 'X') && h[1] == 'x'
    && (forall j :: 2 <= j < 66 ==> SameHexDigit(s[k + j], h[j]))
  }

  /** c is a hex digit, and l the same in lower case. */
  predicate SameHexDigit(c: char, l: char) {
    (l == c && ('0' <= c <= '9' || 'a' <= c <= 'f')) || ('A' <= c <= 'F' && l as int == c as int + ('a' as int - 'A' as int))
  }

  lemma {:induction false} TrimStartDrops(s: string, k: nat)
    requires k < |s| && (forall j :: 0 <= j < k ==> IsJsSpace(s[j])) && !IsJsSpace(s[k])
    ensures TrimStart(s) == s[k..]
  {
    if k > 0 {
      TrimStartDrops(s[1..], k - 1);
      assert s[1..][k - 1..] == s[k..];
    }
  }

  lemma {:induction false} TrimEndDrops(s: string, k: nat)
    requires 0 < k <= |s| && (forall j :: k <= j < |s| ==> IsJsSpace(s[j])) && !IsJsSpace(s[k - 1])
    ensures TrimEnd(s) == s[..k]
    decreases |s|
  {
    if k < |s| {
      TrimEndDrops(s[..|s| - 1], k);
      assert s[..|s| - 1][..k] == s[..k];
    }
  }

  lemma {:induction false} TrimStartKeeps(s: string) returns (k: nat)
    ensures k <= |s| && TrimStart(s) == s[k..] && forall j :: 0 <= j < k ==> IsJsSpace(s[j])
  {
    if s != "" && IsJsSpace(s[0]) {
      var m := TrimStartKeeps(s[1..]);
      k := m + 1;
      assert s[1..][m..] == s[k..];
    } else {
      k := 0;
    }
  }

  lemma {:induction false} TrimEndKeeps(s: string) returns (k: nat)
    ensures k <= |s| && TrimEnd(s) == s[..k] && forall j :: k <= j < |s| ==> IsJsSpace(s[j])
    decreases |s|
  {
    if s != "" && IsJsSpace(s[|s| - 1]) {
      k := TrimEndKeeps(s[..|s| - 1]);
      assert s[..|s| - 1][..k] == s[..k];
    } else {
      k := |s|;
    }
  }

  /** What reads as a hash denotes it ... */
  lemma ReadsDenotes(s: string, k: nat, h: string)
    requires ReadsAs(s, k, h)
    ensures TxHashOf(s) == Some(h)
  {
    TrimStartDrops(s, k);
    var t := s[k..];
    assert SameHexDigit(s[k + 65], h[65]);
    assert !IsJsSpace(t[65]);
    TrimEndDrops(t, 66);
    var core := t[..66];
    forall j | 0 <= j < 66 ensures Lower(core)[j] == h[j] {
      assert core[j] == s[k + j];
      assert j >= 2 ==> SameHexDigit(s[k + j], h[j]);
    }
    assert Lower(core) == h;
    forall j | 2 <= j < 66 ensures IsHexDigit(h[j]) { assert SameHexDigit(s[k + j], h[j]); }
  }

  /** ... and only that. */
  lemma DenotesReads(s: string, h: string) returns (k: nat)
    requires TxHashOf(s) == Some(h)
    ensures ReadsAs(s, k, h)
  {
    k := TrimStartKeeps(s);
    var t := s[k..];
    var m := TrimEndKeeps(t);
    var core := t[..m];
    assert h == Lower(core) && m == 66;
    forall j | 0 <= j < 66 ensures core[j] == s[k + j] && h[j] == LowerChar(s[k + j]) {}
    forall j | k + 66 <= j < |s| ensures IsJsSpace(s[j]) { assert s[j] == t[j - k]; }
    forall j | 2 <= j < 66 ensures SameHexDigit(s[k + j], h[j]) { assert IsHexDigit(h[j]); }
    assert h[0] == LowerChar(s[k]) && h[1] == LowerChar(s[k + 1]);
  }

  lemma NormalizedReads(input: seq<string>)
    ensures forall i, k, h :: 0 <= i < |input| && ReadsAs(input[i], k, h) ==> h in Normalized(input)
    ensures forall h :: h in Normalized(input) ==> exists i, k :: 0 <= i < |input| && ReadsAs(input[i], k, h)
  {
    forall i, k, h | 0 <= i < |input| && ReadsAs(input[i], k, h) ensures h in Normalized(input) {
      ReadsDenotes(input[i], k, h);
      AddHashesExactly([], input, h);
    }
    forall h | h in Normalized(input) ensures exists i, k :: 0 <= i < |input| && ReadsAs(input[i], k, h) {
      AddHashesExactly([], input, h);
      var i :| 0 <= i < |input| && TxHashOf(input[i]) == Some(h);
      var k := DenotesReads(input[i], h);
    }
  }

  /** Every entry that reads as a hash is in the result, nothing else is, and nothing twice. */
  method NormalizeTxHashes(input: seq<string>) returns (out: seq<string>)
    ensures out == Normalized(input)
    ensures forall i, k, h :: 0 <= i < |input| && ReadsAs(input[i], k, h) ==> h in out
    ensures forall h :: h in out ==> exists i, k :: 0 <= i < |input| && ReadsAs(input[i], k, h)
    ensures Distinct(out)
  {
    NormalizedReads(input);
    AddHashesShape([], input);
    out := [];
    var seen := {};
    for i := 0 to |input|
      invariant forall h :: h in seen <==> h in out
      invariant AddHashes(out, input[i..]) == Normalized(input)
    {
      assert input[i..][1..] == input[i + 1..];
      var normalized := Lower(TrimEnd(TrimStart(input[i])));
      if IsTxHash(normalized) && normalized !in seen {
        seen := seen + {normalized};
        out := out + [normalized];
      }
    }
  }

  ghost predicate Distinct(s: seq<string>) {
    forall i, j :: 0 <= i < j < |s| ==> s[i] != s[j]
  }

  ghost predicate Denoted(input: seq<string>, h: string) {
    exists i :: 0 <= i < |input| && TxHashOf(input[i]) == Some(h)
  }

  /** Normalization keeps exactly the well-formed hashes, each once. */
  lemma {:induction false} AddHashesExactly(out: seq<string>, input: seq<string>, h: string)
    requires Distinct(out)
    ensures Distinct(AddHashes(out, input))
    ensures h in AddHashes(out, input) <==> h in out || Denoted(input, h)
    decreases input
  {
    if input != [] {
      AddHashesExactly(AddHash(out, input[0]), input[1..], h);
      assert Denoted(input, h) <==> TxHashOf(input[0]) == Some(h) || Denoted(input[1..], h) by {
        if Denoted(input[1..], h) {
          var i :| 0 <= i < |input[1..]| && TxHashOf(input[1..][i]) == Some(h);
          assert input[1 + i] == input[1..][i];
        }
        if Denoted(input, h) {
          var i :| 0 <= i < |input| && TxHashOf(input[i]) == Some(h);
          assert i > 0 ==> input[1..][i - 1] == input[i];
        }
      }
    }
  }

  lemma {:induction false} AddConcat(out: seq<string>, a: seq<string>, b: seq<string>)
    ensures AddHashes(out, a + b) == AddHashes(AddHashes(out, a), b)
    decreases a
  {
    if a == [] {
      assert a + b == b;
    } else {
      AddConcat(AddHash(out, a[0]), a[1..], b);
      assert (a + b)[1..] == a[1..] + b;
    }
  }

  /** A list of distinct hashes is its own normal form. */
  lemma {:induction false} AddDistinct(out: seq<string>, hs: seq<string>)
    requires Distinct(out + hs) && forall i :: 0 <= i < |hs| ==> IsTxHash(hs[i])
    ensures AddHashes(out, hs) == out + hs
    decreases hs
  {
    if hs == [] {
      assert out + hs == out;
    } else {
      TxHashOfTxHash(hs[0]);
      forall i | 0 <= i < |out| ensures out[i] != hs[0] {
        assert (out + hs)[i] == out[i] && (out + hs)[|out|] == hs[0];
      }
      assert out + hs == (out + [hs[0]]) + hs[1..];
      AddDistinct(out + [hs[0]], hs[1..]);
    }
  }

  lemma {:induction false} AddHashesShape(out: seq<string>, input: seq<string>)
    requires Distinct(out) && forall i :: 0 <= i < |out| ==> IsTxHash(out[i])
    ensures Distinct(AddHashes(out, input))
    ensures forall i :: 0 <= i < |AddHashes(out, input)| ==> IsTxHash(AddHashes(out, input)[i])
    decreases input
  {
    if input != [] { AddHashesShape(AddHash(out, input[0]), input[1..]); }
  }

  /** Normalizing again, before more hashes are added, changes nothing. */
  lemma NormalizedAbsorbs(a: seq<string>, b: seq<string>)
    ensures Normalized(Normalized(a) + b) == Normalized(a + b)
  {
    AddHashesShape([], a);
    assert [] + Normalized(a) == Normalized(a);
    AddDistinct([], Normalized(a));
    AddConcat([], Normalized(a), b);
    AddConcat([], a, b);
  }

  // ---- the pipeline ------------------------------------------------------------------------

  datatype Context = Context(repoRoot: string, stateRoot: Option<string>, hashes: seq<string>)

  function MergeRerunContext(existing: Option<Context>, incoming: Context): Context {
    match existing
    case None => incoming
    case Some(e) =>
      Context(if incoming.repoRoot != "" then incoming.repoRoot else e.repoRoot,
              if incoming.stateRoot.Some? then incoming.stateRoot else e.stateRoot,
              Normalized(e.hashes + incoming.hashes))
  }

  /**
   The two module variables, the runs in progress, all hashes triggered since the last run started,
   and the hash lists that runs were started with.
   */
  datatype State = State(inFlight: bool, pending: Option<Context>, active: seq<Context>, during: seq<string>,
                         queued: bool, started: seq<seq<string>>, triggered: seq<string>)

  /** RunEnds is a run's end with what follows it up to the next run or to the end of `finally`. */
  datatype Event = Trigger(ctx: Context) | RunEnds | DrainExits | FinallyRuns

  const INITIAL: State := State(false, None, [], [], false, [], [])

  function StartRun(s: State, ctx: Context): State {
    s.(inFlight := true, pending := None, active := s.active + [ctx], during := [], queued := false,
       started := s.started + [Normalized(ctx.hashes)])
  }

  function TriggerStep(s: State, ctx: Context): State {
    var t := s.(triggered := s.triggered + ctx.hashes);
    if s.inFlight then
      t.(pending := Some(MergeRerunContext(s.pending, ctx)), during := s.during + ctx.hashes, queued := true)
    else StartRun(t, ctx)
  }

  function EndRun(s: State): State
    requires s.active != []
  {
    s.(active := s.active[1..])
  }

  predicate Enabled(s: State, e: Event) {
    match e
    case Trigger(_) => true
    case RunEnds => s.active != []
    case DrainExits => s.active != [] && s.pending == None
    case FinallyRuns => s.inFlight && s.active == []
  }

  function Next(s: State, e: Event): State
    requires Enabled(s, e)
  {
    match e
    case Trigger(ctx) => TriggerStep(s, ctx)
    case RunEnds =>
      if s.pending.Some? then StartRun(EndRun(s), s.pending.value)
      else EndRun(s).(inFlight := false, pending := None)
    case DrainExits => EndRun(s)
    case FinallyRuns => s.(inFlight := false, pending := None)
  }

  ghost predicate IsRun(s: State, events: seq<Event>, t: State)
    decreases events
  {
    if events == [] then s == t
    else Enabled(s, events[0]) && IsRun(Next(s, events[0]), events[1..], t)
  }

  /** No event separates the drain loop's exit from the `finally` that clears the slots. */
  ghost predicate Atomic(events: seq<Event>) {
    forall i :: 0 <= i < |events| ==> events[i].Trigger? || events[i] == RunEnds
  }

  ghost predicate Covered(s: State, h: string) {
    (exists i :: 0 <= i < |s.started| && h in s.started[i]) ||
    (s.pending.Some? && h in Normalized(s.pending.value.hashes))
  }

  /** At most one run, a queued rerun only while one is active, and the rerun's hashes are those triggered since. */
  ghost predicate SingleFlight(s: State) {
    && |s.active| <= 1
    && (s.inFlight <==> s.active != [])
    && (s.pending.Some? ==> s.inFlight)
    && (s.inFlight ==> s.pending.Some? == s.queued)
    && (s.pending.Some? ==> Normalized(s.pending.value.hashes) == Normalized(s.during))
  }

  lemma MergedHashes(pending: Option<Context>, during: seq<string>, ctx: Context)
    requires pending.Some? ==> Normalized(pending.value.hashes) == Normalized(during)
    requires pending.None? ==> during == []
    ensures Normalized(MergeRerunContext(pending, ctx).hashes) == Normalized(during + ctx.hashes)
  {
    if pending.Some? {
      NormalizedAbsorbs(pending.value.hashes + ctx.hashes, []);
      assert Normalized(pending.value.hashes + ctx.hashes) + [] == Normalized(pending.value.hashes + ctx.hashes);
      assert (pending.value.hashes + ctx.hashes) + [] == pending.value.hashes + ctx.hashes;
      AddConcat([], pending.value.hashes, ctx.hashes);
      AddConcat([], during, ctx.hashes);
    } else {
      assert during + ctx.hashes == ctx.hashes;
    }
  }

  ghost predicate Consistent(s: State) {
    SingleFlight(s) && (s.inFlight && !s.queued ==> s.during == [])
  }

  lemma StepKeepsSingleFlight(s: State, e: Event)
    requires Consistent(s) && Enabled(s, e) && (e.Trigger? || e == RunEnds)
    ensures Consistent(Next(s, e))
  {
    if e.Trigger? && s.inFlight { MergedHashes(s.pending, s.during, e.ctx); }
  }

  lemma {:induction false} RunKeepsSingleFlight(s: State, events: seq<Event>, t: State)
    requires Consistent(s) && IsRun(s, events, t) && Atomic(events)
    ensures Consistent(t)
    decreases events
  {
    if events != [] {
      StepKeepsSingleFlight(s, events[0]);
      RunKeepsSingleFlight(Next(s, events[0]), events[1..], t);
    }
  }

  /**
   In every run: at most one pipeline is active, and the run after it gets, de-duplicated and in
   order, exactly the well-formed hashes triggered while it was active.
   */
  lemma NextRunGetsAll(events: seq<Event>, s: State)
    requires IsRun(INITIAL, events, s) && Atomic(events) && s.active != []
    ensures |s.active| == 1
    ensures var t := Next(s, RunEnds);
            if s.queued then t.active != [] && t.started == s.started + [Normalized(s.during)]
            else t.active == [] && !t.inFlight && s.during == []
  {
    RunKeepsSingleFlight(INITIAL, events, s);
  }

  ghost predicate NothingLost(s: State) {
    forall h :: Denoted(s.triggered, h) ==> Covered(s, h)
  }

  lemma DenotedConcat(a: seq<string>, b: seq<string>, h: string)
    ensures Denoted(a + b, h) <==> Denoted(a, h) || Denoted(b, h)
  {
    if Denoted(a, h) {
      var i :| 0 <= i < |a| && TxHashOf(a[i]) == Some(h);
      assert (a + b)[i] == a[i];
    }
    if Denoted(b, h) {
      var i :| 0 <= i < |b| && TxHashOf(b[i]) == Some(h);
      assert (a + b)[|a| + i] == b[i];
    }
  }

  lemma NormalizedExactly(input: seq<string>, h: string)
    ensures h in Normalized(input) <==> Denoted(input, h)
  {
    AddHashesExactly([], input, h);
  }

  lemma StartedGrows(s: State, t: State, h: string, hs: seq<string>)
    requires t.started == s.started + [hs]
    requires (exists i :: 0 <= i < |s.started| && h in s.started[i]) || h in hs
    ensures exists i :: 0 <= i < |t.started| && h in t.started[i]
  {
    if h in hs {
      assert h in t.started[|s.started|];
    } else {
      var i :| 0 <= i < |s.started| && h in s.started[i];
      assert h in t.started[i];
    }
  }

  lemma StepLosesNothing(s: State, e: Event)
    requires Consistent(s) && NothingLost(s) && Enabled(s, e) && (e.Trigger? || e == RunEnds)
    ensures NothingLost(Next(s, e))
  {
    var t := Next(s, e);
    forall h | Denoted(t.triggered, h) ensures Covered(t, h) {
      match e {
        case Trigger(ctx) =>
          DenotedConcat(s.triggered, ctx.hashes, h);
          NormalizedExactly(ctx.hashes, h);
          if !s.inFlight {
            StartedGrows(s, t, h, Normalized(ctx.hashes));
          } else {
            MergedHashes(s.pending, s.during, ctx);
            NormalizedExactly(s.during + ctx.hashes, h);
            NormalizedExactly(s.during, h);
            DenotedConcat(s.during, ctx.hashes, h);
          }
        case RunEnds =>
          if s.pending.Some? { StartedGrows(s, t, h, Normalized(s.pending.value.hashes)); }
      }
    }
  }

  /** No well-formed hash is ever lost: it is in some started run, or in the queued one while a run is active. */
  lemma {:induction false} RunLosesNothing(s: State, events: seq<Event>, t: State)
    requires Consistent(s) && NothingLost(s) && IsRun(s, events, t) && Atomic(events)
    ensures Consistent(t) && NothingLost(t)
    decreases events
  {
    if events != [] {
      StepKeepsSingleFlight(s, events[0]);
      StepLosesNothing(s, events[0]);
      RunLosesNothing(Next(s, events[0]), events[1..], t);
    }
  }

  /** When the pipeline is idle, every hash ever triggered has been handed to a run. */
  lemma IdleMeansDone(events: seq<Event>, t: State, h: string)
    requires IsRun(INITIAL, events, t) && Atomic(events) && !t.inFlight && Denoted(t.triggered, h)
    ensures exists i :: 0 <= i < |t.started| && h in t.started[i]
  {
    RunLosesNothing(INITIAL, events, t);
  }

  ghost predicate Triggered(events: seq<Event>, entry: string) {
    exists j, i :: 0 <= j < |events| && events[j].Trigger? && 0 <= i < |events[j].ctx.hashes| && events[j].ctx.hashes[i] == entry
  }

  lemma TriggeredLater(events: seq<Event>, entry: string)
    requires events != []
    ensures Triggered(events, entry) <==> (events[0].Trigger? && entry in events[0].ctx.hashes) || Triggered(events[1..], entry)
  {
    if Triggered(events, entry) {
      var j, i :| 0 <= j < |events| && events[j].Trigger? && 0 <= i < |events[j].ctx.hashes| &&
                  events[j].ctx.hashes[i] == entry;
      assert j > 0 ==> events[1..][j - 1] == events[j];
    }
    if Triggered(events[1..], entry) {
      var j, i :| 0 <= j < |events[1..]| && events[1..][j].Trigger? && 0 <= i < |events[1..][j].ctx.hashes| &&
                  events[1..][j].ctx.hashes[i] == entry;
      assert events[j + 1] == events[1..][j];
    }
  }

  /** The log of a run holds what was triggered. */
  lemma {:induction false} TriggeredLogged(s: State, events: seq<Event>, t: State, entry: string)
    requires IsRun(s, events, t)
    ensures entry in t.triggered <==> entry in s.triggered || Triggered(events, entry)
    decreases events
  {
    if events != [] {
      TriggeredLogged(Next(s, events[0]), events[1..], t, entry);
      TriggeredLater(events, entry);
    }
  }

  /** Every entry that any trigger of the run brought and that reads as a hash has been handed to a run once idle. */
  lemma EveryHashReachesRun(events: seq<Event>, t: State, entry: string, k: nat, h: string)
    requires IsRun(INITIAL, events, t) && Atomic(events) && !t.inFlight
    requires Triggered(events, entry) && ReadsAs(entry, k, h)
    ensures exists i :: 0 <= i < |t.started| && h in t.started[i]
  {
    TriggeredLogged(INITIAL, events, t, entry);
    ReadsDenotes(entry, k, h);
    var i :| 0 <= i < |t.triggered| && t.triggered[i] == entry;
    assert Denoted(t.triggered, h);
    IdleMeansDone(events, t, h);
  }

  /** Started and queued runs hold only hashes that have been triggered. */
  ghost predicate NothingInvented(s: State) {
    && (forall i, h :: 0 <= i < |s.started| && h in s.started[i] ==> Denoted(s.triggered, h))
    && (s.pending.Some? ==> forall h :: h in Normalized(s.pending.value.hashes) ==> Denoted(s.triggered, h))
    && (forall h :: Denoted(s.during, h) ==> Denoted(s.triggered, h))
  }

  lemma StepInventsNothing(s: State, e: Event)
    requires Consistent(s) && NothingInvented(s) && Enabled(s, e) && (e.Trigger? || e == RunEnds)
    ensures NothingInvented(Next(s, e))
  {
    if e.Trigger? {
      forall h ensures Denoted(s.triggered + e.ctx.hashes, h) <==> Denoted(s.triggered, h) || Denoted(e.ctx.hashes, h) {
        DenotedConcat(s.triggered, e.ctx.hashes, h);
      }
      forall h ensures h in Normalized(e.ctx.hashes) <==> Denoted(e.ctx.hashes, h) { NormalizedExactly(e.ctx.hashes, h); }
      forall h ensures Denoted(s.during + e.ctx.hashes, h) <==> Denoted(s.during, h) || Denoted(e.ctx.hashes, h) {
        DenotedConcat(s.during, e.ctx.hashes, h);
      }
      if s.inFlight {
        MergedHashes(s.pending, s.during, e.ctx);
        forall h ensures h in Normalized(s.during + e.ctx.hashes) <==> Denoted(s.during + e.ctx.hashes, h) {
          NormalizedExactly(s.during + e.ctx.hashes, h);
        }
      }
    }
  }

  lemma {:induction false} RunInventsNothing(s: State, events: seq<Event>, t: State)
    requires Consistent(s) && NothingInvented(s) && IsRun(s, events, t) && Atomic(events)
    ensures NothingInvented(t)
    decreases events
  {
    if events != [] {
      StepKeepsSingleFlight(s, events[0]);
      StepInventsNothing(s, events[0]);
      RunInventsNothing(Next(s, events[0]), events[1..], t);
    }
  }

  /** A run is handed nothing but hashes that some entry of some trigger reads as. */
  lemma RunsGetOnlyTriggered(events: seq<Event>, t: State, i: nat, h: string) returns (entry: string, k: nat)
    requires IsRun(INITIAL, events, t) && Atomic(events) && i < |t.started| && h in t.started[i]
    ensures Triggered(events, entry) && ReadsAs(entry, k, h)
  {
    RunInventsNothing(INITIAL, events, t);
    assert Denoted(t.triggered, h);
    var j :| 0 <= j < |t.triggered| && TxHashOf(t.triggered[j]) == Some(h);
    entry := t.triggered[j];
    k := DenotesReads(entry, h);
    TriggeredLogged(INITIAL, events, t, entry);
  }

  // ---- the merged context ------------------------------------------------------------------

  /** The contexts of triggers during one run, merged one after the other. */
  function MergedAll(ctxs: seq<Context>): Option<Context> {
    if ctxs == [] then None
    else Some(MergeRerunContext(MergedAll(ctxs[..|ctxs| - 1]), ctxs[|ctxs| - 1]))
  }

  /** The newest non-empty repoRoot wins. */
  lemma {:induction false} NewestRepoRootWins(ctxs: seq<Context>, j: nat)
    requires j < |ctxs| && (ctxs[j].repoRoot != "" || j == 0)
    requires forall k :: j < k < |ctxs| ==> ctxs[k].repoRoot == ""
    ensures MergedAll(ctxs).value.repoRoot == ctxs[j].repoRoot
    decreases ctxs
  {
    if j < |ctxs| - 1 { NewestRepoRootWins(ctxs[..|ctxs| - 1], j); }
  }

  /** The newest stateRoot that is present wins. */
  lemma {:induction false} NewestStateRootWins(ctxs: seq<Context>, j: nat)
    requires j < |ctxs| && (ctxs[j].stateRoot.Some? || j == 0)
    requires forall k :: j < k < |ctxs| ==> ctxs[k].stateRoot == None
    ensures MergedAll(ctxs).value.stateRoot == ctxs[j].stateRoot
    decreases ctxs
  {
    if j < |ctxs| - 1 { NewestStateRootWins(ctxs[..|ctxs| - 1], j); }
  }

  /** The state after one trigger for each context, and the events that lead there. */
  function AfterTriggers(s: State, ctxs: seq<Context>): State {
    if ctxs == [] then s else Next(AfterTriggers(s, ctxs[..|ctxs| - 1]), Trigger(ctxs[|ctxs| - 1]))
  }

  function Triggers(ctxs: seq<Context>): seq<Event> {
    if ctxs == [] then [] else Triggers(ctxs[..|ctxs| - 1]) + [Trigger(ctxs[|ctxs| - 1])]
  }

  lemma {:induction false} RunSnoc(s: State, events: seq<Event>, t: State, e: Event)
    requires IsRun(s, events, t) && Enabled(t, e)
    ensures IsRun(s, events + [e], Next(t, e))
    decreases events
  {
    if events == [] {
      assert events + [e] == [e] && [e][1..] == [];
    } else {
      RunSnoc(Next(s, events[0]), events[1..], t, e);
      assert (events + [e])[1..] == events[1..] + [e];
    }
  }

  lemma {:induction false} TriggersMerge(s: State, ctxs: seq<Context>)
    requires s.inFlight && s.pending == None
    ensures IsRun(s, Triggers(ctxs), AfterTriggers(s, ctxs))
    ensures var t := AfterTriggers(s, ctxs); t.inFlight && t.pending == MergedAll(ctxs) && t.active == s.active
    decreases ctxs
  {
    if ctxs != [] {
      var most := ctxs[..|ctxs| - 1];
      TriggersMerge(s, most);
      RunSnoc(s, Triggers(most), AfterTriggers(s, most), Trigger(ctxs[|ctxs| - 1]));
    }
  }

  /** What is triggered during a run is merged, in order, into the one context that the next run starts with. */
  lemma NextRunGetsMerged(s: State, ctxs: seq<Context>)
    requires s.inFlight && s.pending == None && |s.active| == 1 && ctxs != []
    ensures var t := AfterTriggers(s, ctxs);
            IsRun(s, Triggers(ctxs), t) && Enabled(t, RunEnds) && Next(t, RunEnds).active == [MergedAll(ctxs).value]
  {
    TriggersMerge(s, ctxs);
  }

  /** The premise is needed: a trigger between the drain loop's exit and `finally` is cleared with the slot. */
  lemma GapLosesHash(h: string) returns (events: seq<Event>, t: State)
    requires IsTxHash(h)
    ensures IsRun(INITIAL, events, t) && !t.inFlight && Denoted(t.triggered, h)
    ensures !exists i :: 0 <= i < |t.started| && h in t.started[i]
  {
    var none, some := Context("", None, []), Context("", None, [h]);
    TxHashOfTxHash(h);
    var s1 := Next(INITIAL, Trigger(none));
    var s2 := Next(s1, DrainExits);
    var s3 := Next(s2, Trigger(some));
    t := Next(s3, FinallyRuns);
    var e3 := [FinallyRuns];
    var e2 := [Trigger(some)] + e3;
    var e1 := [DrainExits] + e2;
    events := [Trigger(none)] + e1;
    assert IsRun(s3, e3, t);
    assert IsRun(s2, e2, t);
    assert IsRun(s1, e1, t);
    assert t.triggered[0] == h;
    assert t.started == [[]];
  }

  // ---- the module --------------------------------------------------------------------------

  class Pipeline {
    var pipelineInFlight: bool
    var pipelineRerunPending: Option<Context>
    ghost var active: seq<Context>
    ghost var during: seq<string>
    ghost var queued: bool
    ghost var started: seq<seq<string>>
    ghost var triggered: seq<string>

    ghost function Now(): State
      reads this
    {
      State(pipelineInFlight, pipelineRerunPending, active, during, queued, started, triggered)
    }

    constructor ()
      ensures Now() == INITIAL
    {
      pipelineInFlight, pipelineRerunPending := false, None;
      active, during, queued, started, triggered := [], [], false, [], [];
    }

    ghost method Observe(s: State)
      requires s.inFlight == pipelineInFlight && s.pending == pipelineRerunPending
      modifies this`active, this`during, this`queued, this`started, this`triggered
      ensures Now() == s
    {
      active, during, queued, started, triggered := s.active, s.during, s.queued, s.started, s.triggered;
    }

    method TriggerBridgeMaintenance(ctx: Context)
      modifies this
      ensures Now() == Next(old(Now()), Trigger(ctx))
    {
      ghost var after := Next(Now(), Trigger(ctx));
      if pipelineInFlight {
        var merged := Merge(pipelineRerunPending, ctx);
        pipelineRerunPending := Some(merged);
      } else {
        pipelineRerunPending := None;
        pipelineInFlight := true;
      }
      Observe(after);
    }

    /** The drain loop from a run's end: the queued context starts the next run, or the slots are cleared. */
    method DrainPipelineRuns() returns (nextCtx: Option<Context>)
      requires active != []
      modifies this
      ensures Now() == Next(old(Now()), RunEnds)
      ensures nextCtx == old(pipelineRerunPending)
    {
      ghost var after := Next(Now(), RunEnds);
      nextCtx := ConsumePendingRerun();
      if nextCtx == None {
        pipelineInFlight := false;
      } else {
        pipelineInFlight := true;
      }
      pipelineRerunPending := None;
      Observe(after);
    }

    method ConsumePendingRerun() returns (ctx: Option<Context>)
      modifies this`pipelineRerunPending
      ensures ctx == old(pipelineRerunPending) && pipelineRerunPending == None
    {
      ctx := pipelineRerunPending;
      pipelineRerunPending := None;
    }
  }

  method Merge(existing: Option<Context>, incoming: Context) returns (merged: Context)
    ensures merged == MergeRerunContext(existing, incoming)
    ensures existing.Some? ==> Distinct(merged.hashes)
    ensures existing.Some? ==> forall h :: h in merged.hashes <==> Denoted(existing.value.hashes, h) || Denoted(incoming.hashes, h)
  {
    if existing == None { return incoming; }
    var e := existing.value;
    forall h ensures h in Normalized(e.hashes + incoming.hashes) <==> Denoted(e.hashes, h) || Denoted(incoming.hashes, h) {
      NormalizedExactly(e.hashes + incoming.hashes, h);
      DenotedConcat(e.hashes, incoming.hashes, h);
    }
    AddHashesShape([], e.hashes + incoming.hashes);
    var hashes := NormalizeTxHashes(e.hashes + incoming.hashes);
    merged := Context(if incoming.repoRoot != "" then incoming.repoRoot else e.repoRoot,
                      if incoming.stateRoot.Some? then incoming.stateRoot else e.stateRoot, hashes);
  }
}
