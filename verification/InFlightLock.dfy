/**
 The coordinator's in-flight locks: a slot that is empty or holds the promise of the one session in
 progress. Code between two awaits runs without interruption, so each method below is one step.
 */
module InFlightLock {
  import opened Wrappers

  /** What one look at the slot tells a waiting request. */
  datatype Look = Wait | Busy | Acquired(token: nat)

  function LookAt(slot: Option<nat>, expired: bool, token: nat): Look {
    if slot != None then (if expired then Busy else Wait) else Acquired(token)
  }

  // ---- any number of requests --------------------------------------------------------------

  datatype Phase = Waiting | Holding(token: nat) | RepliedBusy | Released

  datatype State = State(slot: Option<nat>, nextToken: nat, requests: map<nat, Phase>)

  /** ReleaseAgain is a second call of a release closure; a handler's `finally` makes only the first. */
  datatype Event = Arrive(request: nat) | Poll(request: nat, expired: bool) | Finish(request: nat) | ReleaseAgain(request: nat)

  const INITIAL: State := State(None, 0, map[])

  predicate Enabled(s: State, e: Event) {
    match e
    case Arrive(r) => r !in s.requests
    case Poll(r, _) => r in s.requests && s.requests[r] == Waiting
    case Finish(r) => r in s.requests && s.requests[r].Holding?
    case ReleaseAgain(r) => r in s.requests && s.requests[r] == Released
  }

  function Next(s: State, e: Event): State
    requires Enabled(s, e)
  {
    match e
    case Arrive(r) => s.(requests := s.requests[r := Waiting])
    case Poll(r, expired) =>
      (match LookAt(s.slot, expired, s.nextToken)
       case Wait => s
       case Busy => s.(requests := s.requests[r := RepliedBusy])
       case Acquired(t) => State(Some(t), s.nextToken + 1, s.requests[r := Holding(t)]))
    case Finish(r) => s.(slot := None, requests := s.requests[r := Released])
    case ReleaseAgain(_) => s.(slot := None)
  }

  /** A run: its events, each enabled where it happens. */
  ghost predicate IsRun(s: State, events: seq<Event>, t: State)
    decreases events
  {
    if events == [] then s == t
    else Enabled(s, events[0]) && IsRun(Next(s, events[0]), events[1..], t)
  }

  ghost predicate Holds(s: State, r: nat) {
    r in s.requests && s.requests[r].Holding?
  }

  /** Mutual exclusion; the slot is occupied exactly when some request holds the lock, and then by its promise. */
  ghost predicate Exclusive(s: State) {
    && (forall r, t :: Holds(s, r) && Holds(s, t) ==> r == t)
    && (s.slot != None <==> exists r :: Holds(s, r))
    && (forall r :: Holds(s, r) ==> s.slot == Some(s.requests[r].token))
  }

  lemma StepKeepsExclusion(s: State, e: Event)
    requires Exclusive(s) && Enabled(s, e) && !e.ReleaseAgain?
    ensures Exclusive(Next(s, e))
  {
    var t := Next(s, e);
    match e {
      case Arrive(_) =>
        assert forall r :: Holds(s, r) <==> Holds(t, r);
      case Poll(r, expired) =>
        if s.slot == None {
          assert Holds(t, r) && forall p :: Holds(t, p) ==> p == r || Holds(s, p);
        } else {
          assert forall p :: Holds(s, p) <==> Holds(t, p);
        }
      case Finish(r) =>
        assert Holds(s, r) && forall p :: Holds(t, p) ==> Holds(s, p) && p != r;
    }
  }

  /** Over every interleaving of any number of requests that each release once. */
  lemma {:induction false} RunsAreExclusive(s: State, events: seq<Event>, t: State)
    requires Exclusive(s) && IsRun(s, events, t) && forall i :: 0 <= i < |events| ==> !events[i].ReleaseAgain?
    ensures Exclusive(t)
    decreases events
  {
    if events != [] {
      StepKeepsExclusion(s, events[0]);
      RunsAreExclusive(Next(s, events[0]), events[1..], t);
    }
  }

  lemma ExclusiveFromStart(events: seq<Event>, t: State)
    requires IsRun(INITIAL, events, t) && forall i :: 0 <= i < |events| ==> !events[i].ReleaseAgain?
    ensures Exclusive(t)
  {
    RunsAreExclusive(INITIAL, events, t);
  }

  /** A request that was told the lock is busy never holds it, in any continuation. */
  lemma {:induction false} BusyNeverAcquires(s: State, events: seq<Event>, t: State, r: nat)
    requires IsRun(s, events, t) && r in s.requests && s.requests[r] == RepliedBusy
    ensures r in t.requests && t.requests[r] == RepliedBusy
    decreases events
  {
    if events != [] { BusyNeverAcquires(Next(s, events[0]), events[1..], t, r); }
  }

  /** A holder's step acquires only from an empty slot, so a busy reply means the lock was held. */
  lemma BusyMeansHeld(s: State, r: nat, expired: bool)
    requires Exclusive(s) && Enabled(s, Poll(r, expired))
    ensures var t := Next(s, Poll(r, expired)); t.requests[r] == RepliedBusy ==> exists p :: p != r && Holds(s, p)
  {
  }

  /** A poll replies busy exactly on an occupied slot after the deadline, and acquires exactly a free one. */
  lemma PollExactly(s: State, r: nat, expired: bool)
    requires Enabled(s, Poll(r, expired))
    ensures var t := Next(s, Poll(r, expired));
            (t.requests[r] == RepliedBusy <==> s.slot != None && expired) &&
            (t.requests[r] == Waiting <==> s.slot != None && !expired) &&
            (t.requests[r] == Holding(s.nextToken) <==> s.slot == None) &&
            (s.slot == None ==> t.slot == Some(s.nextToken))
  {
  }

  /** A second release is harmless exactly while nobody holds the lock. */
  lemma SecondReleaseExactly(s: State, r: nat)
    requires Exclusive(s) && Enabled(s, ReleaseAgain(r))
    ensures Exclusive(Next(s, ReleaseAgain(r))) <==> s.slot == None
  {
    var t := Next(s, ReleaseAgain(r));
    assert forall p :: Holds(s, p) <==> Holds(t, p);
  }

  /** The premise is needed: with a second release, two requests come to hold the lock at once. */
  lemma SecondReleaseBreaks() returns (events: seq<Event>, t: State)
    ensures IsRun(INITIAL, events, t) && Holds(t, 1) && Holds(t, 2)
  {
    var s1 := Next(INITIAL, Arrive(0));
    var s2 := Next(s1, Poll(0, false));
    var s3 := Next(s2, Finish(0));
    var s4 := Next(s3, Arrive(1));
    var s5 := Next(s4, Poll(1, false));
    var s6 := Next(s5, ReleaseAgain(0));
    var s7 := Next(s6, Arrive(2));
    t := Next(s7, Poll(2, false));
    var e7 := [Poll(2, false)];
    var e6 := [Arrive(2)] + e7;
    var e5 := [ReleaseAgain(0)] + e6;
    var e4 := [Poll(1, false)] + e5;
    var e3 := [Arrive(1)] + e4;
    var e2 := [Finish(0)] + e3;
    var e1 := [Poll(0, false)] + e2;
    events := [Arrive(0)] + e1;
    assert IsRun(s7, e7, t);
    assert IsRun(s6, e6, t);
    assert IsRun(s5, e5, t);
    assert IsRun(s4, e4, t);
    assert IsRun(s3, e3, t);
    assert IsRun(s2, e2, t);
    assert IsRun(s1, e1, t);
  }

  // ---- the slot ----------------------------------------------------------------------------

  /** The slot and its token counter; `requests` records what has become of each request. */
  class InFlight {
    var slot: Option<nat>
    var nextToken: nat
    ghost var requests: map<nat, Phase>

    ghost function Now(): State
      reads this
    {
      State(slot, nextToken, requests)
    }

    constructor ()
      ensures Now() == INITIAL
    {
      slot, nextToken, requests := None, 0, map[];
    }

    ghost method Arrives(request: nat)
      requires Enabled(Now(), Arrive(request))
      modifies this`requests
      ensures Now() == Next(old(Now()), Arrive(request))
    {
      requests := requests[request := Waiting];
    }

    /** One pass of the acquire loop: an occupied slot is waited for until the deadline, a free one is taken. */
    method TryAcquire(ghost request: nat, expired: bool) returns (look: Look)
      requires Enabled(Now(), Poll(request, expired))
      modifies this
      ensures Now() == Next(old(Now()), Poll(request, expired))
      ensures look == LookAt(old(slot), expired, old(nextToken))
      ensures old(slot) == None <==> look == Acquired(old(nextToken))
      ensures old(slot) != None && expired <==> look == Busy
      ensures old(slot) != None && !expired <==> look == Wait
      ensures requests[request] == match look { case Wait => Waiting case Busy => RepliedBusy case Acquired(t) => Holding(t) }
    {
      if slot != None {
        if expired {
          requests := requests[request := RepliedBusy];
          return Busy;
        }
        return Wait;
      }
      look := Acquired(nextToken);
      slot := Some(nextToken);
      requests := requests[request := Holding(nextToken)];
      nextToken := nextToken + 1;
    }

    /** The release closure of a request empties the slot, whoever holds it, at a second call too. */
    method Release(ghost request: nat)
      requires request in requests && (requests[request].Holding? || requests[request] == Released)
      modifies this`slot, this`requests
      ensures Now() == Next(old(Now()), if old(requests[request].Holding?) then Finish(request) else ReleaseAgain(request))
      ensures slot == None && requests[request] == Released
    {
      slot := None;
      requests := requests[request := Released];
    }
  }
}
