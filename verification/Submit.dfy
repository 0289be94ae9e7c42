/**
 The withdraw submit route. A session holds the process-wide submit lock from before it reads the
 audit record until it has replied; a step is what runs between two awaits, and a crash may come
 between any two steps. Only the disk outlives a crash.
 */
module Submit {
  import opened Wrappers

  /** The path of a (dkgEpoch, requestId), the hash of the assembled call, a transaction hash. */
  type Key = nat
  type InputHash = nat
  type Tx = nat

  datatype Config = Config(chainNode: bool, relayer: bool)

  datatype Artifact = Artifact(completed: bool, simulated: bool, input: Option<InputHash>, tx: Option<Tx>)

  datatype Code = CompletedWithDifferentInputs | AttemptedWithDifferentInputs | ConfirmationTimeout | ChainExecutionFailed |
                  NotImplemented | RelayerUnreachable | NullifierSpent | RelayerError | ChainNodeRequired | PersistError

  datatype Reply = Completed(key: Key, tx: Option<Tx>) | Failed(key: Key, code: Code)

  datatype ChainOutcome = Unconfirmed | Aborted | Succeeded

  /**
   The relayer call returns or throws. It can throw although the relayer has accepted and the
   transaction lands; `spent` says whether the error text reports a spent nullifier.
   */
  datatype RelayerOutcome = Threw(landed: bool, spent: bool) | Returned(simulated: bool, tx: Tx)

  /** Where a session stands; `own` marks a write that records this session's own real acceptance. */
  datatype Pc = AtRead | AtReplay(tx: Tx) | AtRelayer | AtConfirm(tx: Tx) |
                AtPersist(write: Artifact, noClobber: bool, own: bool, code: Code)

  datatype Session = Session(key: Key, input: InputHash, stub: bool, pc: Pc)

  /**
   accepts logs every real acceptance by the relayer, reported or not; lost those never reported, and
   those of a session that crashed or failed to write. A write that `link` refuses is not among them.
   */
  datatype State = State(disk: map<Key, Artifact>, active: Option<Session>, accepts: seq<Key>, lost: seq<Key>,
                         replies: seq<Reply>)

  datatype Event = Begin(key: Key, input: InputHash, stub: bool) | Read | Replay(o: ChainOutcome) |
                   Relay(r: RelayerOutcome) | Confirm(o: ChainOutcome) | Persist(ok: bool) | Crash(landed: bool)

  // ---- the steps ---------------------------------------------------------------------------

  function Goto(s: State, pc: Pc): State
    requires s.active.Some?
  {
    s.(active := Some(s.active.value.(pc := pc)))
  }

  /** Replies and releases the lock. */
  function Finish(s: State, reply: Reply): State {
    s.(active := None, replies := s.replies + [reply])
  }

  /** An earlier attempt that may be on chain: it has a transaction and was not simulated. */
  predicate IsCandidate(a: Artifact) {
    !a.completed && !a.simulated && a.tx.Some?
  }

  function AfterRead(c: Config, s: State): State
    requires s.active.Some?
  {
    var me := s.active.value;
    if me.key in s.disk && s.disk[me.key].completed then
      var a := s.disk[me.key];
      if a.input != Some(me.input) then Finish(s, Failed(me.key, CompletedWithDifferentInputs))
      else Finish(s, Completed(me.key, a.tx))
    else if me.key in s.disk && IsCandidate(s.disk[me.key]) && c.chainNode then
      var a := s.disk[me.key];
      if a.input.Some? && a.input != Some(me.input) then Finish(s, Failed(me.key, AttemptedWithDifferentInputs))
      else Goto(s, AtReplay(a.tx.value))
    else if me.stub then Goto(s, AtPersist(Artifact(false, true, None, None), false, false, NotImplemented))
    else if !c.relayer then Finish(s, Failed(me.key, RelayerUnreachable))
    else Goto(s, AtRelayer)
  }

  function AfterReplay(s: State, tx: Tx, o: ChainOutcome): State
    requires s.active.Some?
  {
    var me := s.active.value;
    match o
    case Unconfirmed => Finish(s, Failed(me.key, ConfirmationTimeout))
    case Aborted => Goto(s, AtPersist(Artifact(false, false, Some(me.input), Some(tx)), false, false, ChainExecutionFailed))
    case Succeeded => Goto(s, AtPersist(Artifact(true, false, Some(me.input), Some(tx)), false, false, PersistError))
  }

  /** The relayer accepts, but the session does not learn of it. */
  function Unreported(s: State): State
    requires s.active.Some?
  {
    s.(accepts := s.accepts + [s.active.value.key], lost := s.lost + [s.active.value.key])
  }

  function AfterRelay(c: Config, s: State, r: RelayerOutcome): State
    requires s.active.Some?
  {
    var me := s.active.value;
    match r
    case Threw(landed, spent) =>
      Finish(if landed then Unreported(s) else s, Failed(me.key, if spent then NullifierSpent else RelayerError))
    case Returned(simulated, tx) =>
      if simulated then
        Goto(s, AtPersist(Artifact(true, true, Some(me.input), Some(tx)), true, false, PersistError))
      else
        var t := s.(accepts := s.accepts + [me.key]);
        if c.chainNode then Goto(t, AtConfirm(tx))
        else Goto(t, AtPersist(Artifact(false, false, None, Some(tx)), false, true, ChainNodeRequired))
  }

  function AfterConfirm(s: State, tx: Tx, o: ChainOutcome): State
    requires s.active.Some?
  {
    var me := s.active.value;
    match o
    case Unconfirmed => Goto(s, AtPersist(Artifact(false, false, Some(me.input), Some(tx)), false, true, ConfirmationTimeout))
    case Aborted => Goto(s, AtPersist(Artifact(false, false, Some(me.input), Some(tx)), false, true, ChainExecutionFailed))
    case Succeeded => Goto(s, AtPersist(Artifact(true, false, Some(me.input), Some(tx)), true, true, PersistError))
  }

  /** The write: `link` refuses an existing path, whatever is there; `rename` replaces it. */
  function AfterPersist(s: State, ok: bool): State
    requires s.active.Some? && s.active.value.pc.AtPersist?
  {
    var me := s.active.value;
    var pc := me.pc;
    if !ok then Finish(Forget(s), Failed(me.key, PersistError))
    else if pc.noClobber && me.key in s.disk then Finish(s, Failed(me.key, CompletedWithDifferentInputs))
    else
      var t := s.(disk := s.disk[me.key := pc.write]);
      Finish(t, if pc.write.completed then Completed(me.key, pc.write.tx) else Failed(me.key, pc.code))
  }

  /** The session has a real acceptance that is not on disk yet. */
  predicate Unrecorded(me: Session) {
    me.pc.AtConfirm? || (me.pc.AtPersist? && me.pc.own)
  }

  /** Notes that the session's acceptance, if it has one, is lost. */
  function Forget(s: State): State
    requires s.active.Some?
  {
    if Unrecorded(s.active.value) then s.(lost := s.lost + [s.active.value.key]) else s
  }

  /** A crash; one during the relayer call leaves open whether the relayer has accepted. */
  function AfterCrash(s: State, landed: bool): State
    requires s.active.Some?
  {
    var t := if landed && s.active.value.pc == AtRelayer then Unreported(s) else Forget(s);
    t.(active := None)
  }

  predicate Enabled(s: State, e: Event) {
    match e
    case Begin(_, _, _) => s.active.None?
    case Read => s.active.Some? && s.active.value.pc == AtRead
    case Replay(_) => s.active.Some? && s.active.value.pc.AtReplay?
    case Relay(_) => s.active.Some? && s.active.value.pc == AtRelayer
    case Confirm(_) => s.active.Some? && s.active.value.pc.AtConfirm?
    case Persist(_) => s.active.Some? && s.active.value.pc.AtPersist?
    case Crash(_) => s.active.Some?
  }

  function Next(c: Config, s: State, e: Event): State
    requires Enabled(s, e)
  {
    match e
    case Begin(key, input, stub) => s.(active := Some(Session(key, input, stub, AtRead)))
    case Read => AfterRead(c, s)
    case Replay(o) => AfterReplay(s, s.active.value.pc.tx, o)
    case Relay(r) => AfterRelay(c, s, r)
    case Confirm(o) => AfterConfirm(s, s.active.value.pc.tx, o)
    case Persist(ok) => AfterPersist(s, ok)
    case Crash(landed) => AfterCrash(s, landed)
  }

  ghost predicate IsRun(c: Config, s: State, events: seq<Event>, t: State)
    decreases events
  {
    if events == [] then s == t
    else Enabled(s, events[0]) && IsRun(c, Next(c, s, events[0]), events[1..], t)
  }

  // ---- the audit record --------------------------------------------------------------------

  ghost predicate HasCompleted(s: State, key: Key) {
    key in s.disk && s.disk[key].completed
  }

  /** A session past its read works on a path that holds no completed artifact. */
  ghost predicate PathOpen(s: State) {
    s.active.Some? && s.active.value.pc != AtRead ==> !HasCompleted(s, s.active.value.key)
  }

  /** Completed replies repeat what the audit record says. */
  ghost predicate RepliesMatch(s: State) {
    forall i :: 0 <= i < |s.replies| && s.replies[i].Completed? ==>
      HasCompleted(s, s.replies[i].key) && s.disk[s.replies[i].key].tx == s.replies[i].tx
  }

  lemma StepKeepsRecord(c: Config, s: State, e: Event, key: Key)
    requires Enabled(s, e) && PathOpen(s) && RepliesMatch(s)
    ensures PathOpen(Next(c, s, e)) && RepliesMatch(Next(c, s, e))
    ensures HasCompleted(s, key) ==> key in Next(c, s, e).disk && Next(c, s, e).disk[key] == s.disk[key]
  {
  }

  /**
   Safety of the audit record, over every run with any crashes and write failures: a completed
   artifact never changes again ...
   */
  lemma {:induction false} CompletedIsFinal(c: Config, s: State, events: seq<Event>, t: State, key: Key)
    requires IsRun(c, s, events, t) && PathOpen(s) && RepliesMatch(s)
    ensures PathOpen(t) && RepliesMatch(t)
    ensures HasCompleted(s, key) ==> key in t.disk && t.disk[key] == s.disk[key]
    decreases events
  {
    if events != [] {
      StepKeepsRecord(c, s, events[0], key);
      CompletedIsFinal(c, Next(c, s, events[0]), events[1..], t, key);
    }
  }

  /** ... and all completed replies for a request carry one transaction hash. */
  lemma OneTransactionPerRequest(c: Config, disk: map<Key, Artifact>, events: seq<Event>, t: State, i: nat, j: nat)
    requires IsRun(c, State(disk, None, [], [], []), events, t) && i < |t.replies| && j < |t.replies|
    requires t.replies[i].Completed? && t.replies[j].Completed? && t.replies[i].key == t.replies[j].key
    ensures t.replies[i].tx == t.replies[j].tx
  {
    CompletedIsFinal(c, State(disk, None, [], [], []), events, t, t.replies[i].key);
  }

  // ---- where success comes from ------------------------------------------------------------

  /** In state s, event e reports success of transaction tx to the session of the key. */
  ghost predicate SuccessAt(s: State, e: Event, key: Key, tx: Tx) {
    Mine(s, key) &&
    ((e == Replay(Succeeded) && s.active.value.pc == AtReplay(tx)) ||
     (e == Confirm(Succeeded) && s.active.value.pc == AtConfirm(tx)) ||
     (e == Relay(Returned(true, tx)) && s.active.value.pc == AtRelayer))
  }

  /**
   Somewhere in the run the chain reports success of tx to a session of the key, or the relayer
   returns it as simulated.
   */
  ghost predicate SuccessIn(c: Config, s: State, events: seq<Event>, key: Key, tx: Tx)
    decreases events
  {
    events != [] && Enabled(s, events[0]) &&
    (SuccessAt(s, events[0], key, tx) || SuccessIn(c, Next(c, s, events[0]), events[1..], key, tx))
  }

  /** Some session of the run was begun with this key and input. */
  ghost predicate Begun(events: seq<Event>, key: Key, input: InputHash) {
    exists i :: 0 <= i < |events| && events[i].Begin? && events[i].key == key && events[i].input == input
  }

  /** The artifact on disk is completed with tx and with the input of a session of this run. */
  ghost predicate FromDisk(s: State, events: seq<Event>, key: Key, tx: Option<Tx>) {
    HasCompleted(s, key) && s.disk[key].tx == tx && s.disk[key].input.Some? &&
    (Begun(events, key, s.disk[key].input.value) || (Mine(s, key) && s.active.value.input == s.disk[key].input.value))
  }

  /** The session of the key is about to write a success with tx. */
  ghost predicate AboutToComplete(s: State, key: Key, tx: Option<Tx>) {
    Mine(s, key) && s.active.value.pc.AtPersist? && s.active.value.pc.write.completed && s.active.value.pc.write.tx == tx
  }

  ghost predicate Origin(c: Config, s: State, events: seq<Event>, key: Key, tx: Option<Tx>) {
    FromDisk(s, events, key, tx) || AboutToComplete(s, key, tx) || (tx.Some? && SuccessIn(c, s, events, key, tx.value))
  }

  lemma BegunLater(e: Event, events: seq<Event>, key: Key, input: InputHash)
    requires events != [] && events[0] == e
    ensures Begun(events, key, input) <==> (e.Begin? && e.key == key && e.input == input) || Begun(events[1..], key, input)
  {
    if Begun(events, key, input) {
      var i :| 0 <= i < |events| && events[i].Begin? && events[i].key == key && events[i].input == input;
      assert i > 0 ==> events[1..][i - 1] == events[i];
    }
    if Begun(events[1..], key, input) {
      var i :| 0 <= i < |events[1..]| && events[1..][i].Begin? && events[1..][i].key == key && events[1..][i].input == input;
      assert events[i + 1] == events[1..][i];
    }
  }

  /** What is about to be written after a step either was before or has just been reported. */
  lemma AboutBack(c: Config, s: State, e: Event, key: Key, tx: Option<Tx>)
    requires Enabled(s, e) && AboutToComplete(Next(c, s, e), key, tx)
    ensures tx.Some? && SuccessAt(s, e, key, tx.value)
  {
  }

  /** A completed artifact was on disk before the step or about to be written. */
  lemma DiskBack(c: Config, s: State, e: Event, key: Key)
    requires Enabled(s, e) && HasCompleted(Next(c, s, e), key)
    ensures (HasCompleted(s, key) && s.disk[key] == Next(c, s, e).disk[key]) ||
            AboutToComplete(s, key, Next(c, s, e).disk[key].tx)
  {
  }

  /** A new completed reply repeats the artifact for the same input, or reports the write. */
  lemma ReplyBack(c: Config, s: State, e: Event, i: nat)
    requires Enabled(s, e) && |s.replies| <= i < |Next(c, s, e).replies| && Next(c, s, e).replies[i].Completed?
    ensures var r := Next(c, s, e).replies[i];
            (HasCompleted(s, r.key) && s.disk[r.key].tx == r.tx && Mine(s, r.key) &&
             s.disk[r.key].input == Some(s.active.value.input)) ||
            AboutToComplete(s, r.key, r.tx)
  {
  }

  lemma RepliesGrow(c: Config, s: State, e: Event)
    requires Enabled(s, e)
    ensures s.replies <= Next(c, s, e).replies
  {
  }

  lemma OriginBack(c: Config, s: State, events: seq<Event>, key: Key, tx: Option<Tx>)
    requires events != [] && Enabled(s, events[0]) && Origin(c, Next(c, s, events[0]), events[1..], key, tx)
    ensures Origin(c, s, events, key, tx)
  {
    var t := Next(c, s, events[0]);
    if AboutToComplete(t, key, tx) {
      AboutBack(c, s, events[0], key, tx);
    } else if FromDisk(t, events[1..], key, tx) {
      DiskBack(c, s, events[0], key);
      BegunLater(events[0], events, key, t.disk[key].input.value);
    }
  }

  lemma {:induction false} RepliesHaveOrigin(c: Config, s: State, events: seq<Event>, t: State, i: nat)
    requires IsRun(c, s, events, t) && |s.replies| <= i < |t.replies| && t.replies[i].Completed?
    ensures Origin(c, s, events, t.replies[i].key, t.replies[i].tx)
    decreases events
  {
    if events != [] {
      var u := Next(c, s, events[0]);
      RepliesGrow(c, s, events[0]);
      RepliesKept(c, u, events[1..], t);
      if i < |u.replies| {
        ReplyBack(c, s, events[0], i);
      } else {
        RepliesHaveOrigin(c, u, events[1..], t, i);
        OriginBack(c, s, events, t.replies[i].key, t.replies[i].tx);
      }
    }
  }

  lemma {:induction false} RepliesKept(c: Config, s: State, events: seq<Event>, t: State)
    requires IsRun(c, s, events, t)
    ensures s.replies <= t.replies
    decreases events
  {
    if events != [] {
      RepliesGrow(c, s, events[0]);
      RepliesKept(c, Next(c, s, events[0]), events[1..], t);
    }
  }

  /**
   Every completed reply has one of three origins: a completed artifact that was on the initial
   disk with this transaction and with the input of a session of the run, the chain's report that
   the transaction succeeded, or a simulated submission.
   */
  lemma CompletedMeansSuccess(c: Config, disk: map<Key, Artifact>, events: seq<Event>, t: State, i: nat)
    requires IsRun(c, State(disk, None, [], [], []), events, t) && i < |t.replies| && t.replies[i].Completed?
    ensures var (key, tx) := (t.replies[i].key, t.replies[i].tx);
            (key in disk && disk[key].completed && disk[key].tx == tx && disk[key].input.Some? &&
             Begun(events, key, disk[key].input.value)) ||
            (tx.Some? && SuccessIn(c, State(disk, None, [], [], []), events, key, tx.value))
  {
    RepliesHaveOrigin(c, State(disk, None, [], [], []), events, t, i);
  }

  lemma {:induction false} DiskHasOrigin(c: Config, s: State, events: seq<Event>, t: State, key: Key)
    requires IsRun(c, s, events, t) && HasCompleted(t, key)
    ensures (HasCompleted(s, key) && s.disk[key] == t.disk[key]) || AboutToComplete(s, key, t.disk[key].tx) ||
            (t.disk[key].tx.Some? && SuccessIn(c, s, events, key, t.disk[key].tx.value))
    decreases events
  {
    if events != [] {
      var u := Next(c, s, events[0]);
      DiskHasOrigin(c, u, events[1..], t, key);
      if HasCompleted(u, key) && u.disk[key] == t.disk[key] {
        DiskBack(c, s, events[0], key);
      } else if AboutToComplete(u, key, t.disk[key].tx) {
        AboutBack(c, s, events[0], key, t.disk[key].tx);
      }
    }
  }

  /** What is completed on record was so from the start, or the run has seen its success. */
  lemma RecordMeansSuccess(c: Config, disk: map<Key, Artifact>, events: seq<Event>, t: State, key: Key)
    requires IsRun(c, State(disk, None, [], [], []), events, t) && HasCompleted(t, key)
    ensures (key in disk && disk[key] == t.disk[key]) ||
            (t.disk[key].tx.Some? &&
             SuccessIn(c, State(disk, None, [], [], []), events, key, t.disk[key].tx.value))
  {
    DiskHasOrigin(c, State(disk, None, [], [], []), events, t, key);
  }

  // ---- real acceptances --------------------------------------------------------------------

  function Start(disk: map<Key, Artifact>): State {
    State(disk, None, [], [], [])
  }

  /** How often a key occurs in a log. */
  function Count(log: seq<Key>, key: Key): nat {
    multiset(log)[key]
  }

  /** A retry will not call the relayer: it replays a completed artifact or recovers a candidate. */
  predicate Settled(c: Config, a: Artifact) {
    a.completed || (c.chainNode && IsCandidate(a))
  }

  predicate KeySettled(c: Config, disk: map<Key, Artifact>, key: Key) {
    key in disk && Settled(c, disk[key])
  }

  ghost predicate NoStubs(events: seq<Event>, key: Key) {
    forall i :: 0 <= i < |events| && events[i].Begin? && events[i].key == key ==> !events[i].stub
  }

  predicate Mine(s: State, key: Key) {
    s.active.Some? && s.active.value.key == key
  }

  predicate Pending(s: State, key: Key) {
    Mine(s, key) && Unrecorded(s.active.value)
  }

  /** The books for one key: every acceptance is lost, pending or on disk, and the last two at most once. */
  ghost predicate Accounted(c: Config, s: State, key: Key) {
    && (key in s.disk ==> Settled(c, s.disk[key]))
    && (Mine(s, key) ==>
          var me := s.active.value;
          !me.stub &&
          (me.pc == AtRelayer || Unrecorded(me) ==> key !in s.disk) &&
          (me.pc.AtPersist? ==> Settled(c, me.pc.write)))
    && Count(s.accepts, key) <= Count(s.lost, key) + (if key in s.disk || Pending(s, key) then 1 else 0)
  }

  lemma ReadKeepsAccount(c: Config, s: State, key: Key)
    requires c.chainNode && Enabled(s, Read) && Accounted(c, s, key)
    ensures Accounted(c, Next(c, s, Read), key)
  {
  }

  lemma RelayKeepsAccount(c: Config, s: State, r: RelayerOutcome, key: Key)
    requires c.chainNode && Enabled(s, Relay(r)) && Accounted(c, s, key)
    ensures Accounted(c, Next(c, s, Relay(r)), key)
  {
  }

  lemma ChainKeepsAccount(c: Config, s: State, o: ChainOutcome, key: Key)
    requires c.chainNode && Accounted(c, s, key)
    ensures Enabled(s, Replay(o)) ==> Accounted(c, Next(c, s, Replay(o)), key)
    ensures Enabled(s, Confirm(o)) ==> Accounted(c, Next(c, s, Confirm(o)), key)
  {
  }

  lemma PersistKeepsAccount(c: Config, s: State, ok: bool, key: Key)
    requires c.chainNode && Enabled(s, Persist(ok)) && Accounted(c, s, key)
    ensures Accounted(c, Next(c, s, Persist(ok)), key)
  {
  }

  lemma StepKeepsAccount(c: Config, s: State, e: Event, key: Key)
    requires c.chainNode && Enabled(s, e) && Accounted(c, s, key)
    requires e.Begin? && e.key == key ==> !e.stub
    ensures Accounted(c, Next(c, s, e), key)
  {
    match e {
      case Begin(_, _, _) =>
      case Read => ReadKeepsAccount(c, s, key);
      case Replay(o) => ChainKeepsAccount(c, s, o, key);
      case Relay(r) => RelayKeepsAccount(c, s, r, key);
      case Confirm(o) => ChainKeepsAccount(c, s, o, key);
      case Persist(ok) => PersistKeepsAccount(c, s, ok, key);
      case Crash(_) =>
    }
  }

  lemma {:induction false} RunKeepsAccount(c: Config, s: State, events: seq<Event>, t: State, key: Key)
    requires c.chainNode && IsRun(c, s, events, t) && Accounted(c, s, key) && NoStubs(events, key)
    ensures Accounted(c, t, key)
    decreases events
  {
    if events != [] {
      StepKeepsAccount(c, s, events[0], key);
      RunKeepsAccount(c, Next(c, s, events[0]), events[1..], t, key);
    }
  }

  /** A settled path stays settled and never leads to the relayer again, stub sessions included. */
  ghost predicate Closed(c: Config, s: State, key: Key) {
    KeySettled(c, s.disk, key) &&
    (Mine(s, key) ==>
       var pc := s.active.value.pc;
       pc == AtRead || (pc.AtReplay? && c.chainNode) || (pc.AtPersist? && Settled(c, pc.write)))
  }

  lemma StepKeepsClosed(c: Config, s: State, e: Event, key: Key)
    requires Enabled(s, e) && Closed(c, s, key)
    ensures Closed(c, Next(c, s, e), key) && Count(Next(c, s, e).accepts, key) == Count(s.accepts, key)
  {
  }

  /**
   Once a transaction is on record it is the only one: in particular a transaction that aborted on
   chain is reported again on every retry and never submitted anew.
   */
  lemma {:induction false} SettledIsFinal(c: Config, s: State, events: seq<Event>, t: State, key: Key)
    requires IsRun(c, s, events, t) && Closed(c, s, key)
    ensures Closed(c, t, key) && Count(t.accepts, key) == Count(s.accepts, key)
    decreases events
  {
    if events != [] {
      StepKeepsClosed(c, s, events[0], key);
      SettledIsFinal(c, Next(c, s, events[0]), events[1..], t, key);
    }
  }

  /** At most one real acceptance, in every run without stubs that loses none. */
  ghost predicate AtMostOnce(c: Config, disk: map<Key, Artifact>, key: Key) {
    forall events, t :: IsRun(c, Start(disk), events, t) && NoStubs(events, key) && Count(t.lost, key) == 0 ==>
      Count(t.accepts, key) <= 1
  }

  /** What the path may hold: nothing or a candidate when a chain node is configured, or a completed artifact. */
  predicate SafePath(c: Config, disk: map<Key, Artifact>, key: Key) {
    KeySettled(c, disk, key) || (c.chainNode && key !in disk)
  }

  lemma SafeIsOnce(c: Config, disk: map<Key, Artifact>, key: Key)
    requires SafePath(c, disk, key)
    ensures AtMostOnce(c, disk, key)
  {
    forall events, t | IsRun(c, Start(disk), events, t) && NoStubs(events, key) && Count(t.lost, key) == 0
      ensures Count(t.accepts, key) <= 1
    {
      if KeySettled(c, disk, key) {
        SettledIsFinal(c, Start(disk), events, t, key);
      } else {
        RunKeepsAccount(c, Start(disk), events, t, key);
      }
    }
  }

  lemma {:induction false} Concatenate(c: Config, s: State, es: seq<Event>, t: State, fs: seq<Event>, u: State)
    requires IsRun(c, s, es, t) && IsRun(c, t, fs, u)
    ensures IsRun(c, s, es + fs, u)
    decreases es
  {
    if es == [] {
      assert es + fs == fs;
    } else {
      Concatenate(c, Next(c, s, es[0]), es[1..], t, fs, u);
      assert (es + fs)[1..] == es[1..] + fs;
    }
  }

  /** One session's events, from begin to write, when the relayer accepts and the chain succeeds. */
  function Round(c: Config, key: Key): seq<Event> {
    if c.chainNode then [Begin(key, 0, false), Read, Relay(Returned(false, 0)), Confirm(Succeeded), Persist(true)]
    else [Begin(key, 0, false), Read, Relay(Returned(false, 0)), Persist(true)]
  }

  /** On an unsafe path a session reaches the relayer, and leaves the path unsafe behind it. */
  lemma UnsafeRound(c: Config, s: State, key: Key) returns (t: State)
    requires c.relayer && s.active == None && !SafePath(c, s.disk, key)
    ensures IsRun(c, s, Round(c, key), t) && t.active == None && !SafePath(c, t.disk, key)
    ensures t.accepts == s.accepts + [key] && t.lost == s.lost
  {
    var es := Round(c, key);
    var s1 := Next(c, s, es[0]);
    var s2 := Next(c, s1, es[1]);
    var s3 := Next(c, s2, es[2]);
    var s4 := Next(c, s3, es[3]);
    if c.chainNode {
      t := Next(c, s4, es[4]);
      assert IsRun(c, s4, es[4..], t);
    } else {
      t := s4;
      assert IsRun(c, s4, es[4..], t);
    }
    assert es[3..] == [es[3]] + es[4..] && IsRun(c, s3, es[3..], t);
    assert es[2..] == [es[2]] + es[3..] && IsRun(c, s2, es[2..], t);
    assert es[1..] == [es[1]] + es[2..] && IsRun(c, s1, es[1..], t);
  }

  lemma UnsafeIsTwice(c: Config, disk: map<Key, Artifact>, key: Key)
    requires c.relayer && !SafePath(c, disk, key)
    ensures !AtMostOnce(c, disk, key)
  {
    var t := UnsafeRound(c, Start(disk), key);
    var u := UnsafeRound(c, t, key);
    var events := Round(c, key) + Round(c, key);
    Concatenate(c, Start(disk), Round(c, key), t, Round(c, key), u);
    assert u.accepts == [key] + [key];
    assert Count(u.accepts, key) == 2 && Count(u.lost, key) == 0;
  }

  /**
   Exactly when the relayer is called at most once: the path must not hold an incomplete artifact
   without a real transaction, such as the stub that the route itself writes. Over such a stub the
   success write is refused, the acceptance leaves no record, and a retry broadcasts again.
   */
  lemma AtMostOnceExactly(c: Config, disk: map<Key, Artifact>, key: Key)
    requires c.relayer
    ensures AtMostOnce(c, disk, key) <==> SafePath(c, disk, key)
  {
    if SafePath(c, disk, key) { SafeIsOnce(c, disk, key); } else { UnsafeIsTwice(c, disk, key); }
  }

  /** At most one real acceptance, in every run without stubs, lost acceptances included. */
  ghost predicate AtMostOnceEver(c: Config, disk: map<Key, Artifact>, key: Key) {
    forall events, t :: IsRun(c, Start(disk), events, t) && NoStubs(events, key) ==> Count(t.accepts, key) <= 1
  }

  /** A session whose relayer call throws although the transaction lands. */
  function LostRound(key: Key): seq<Event> {
    [Begin(key, 0, false), Read, Relay(Threw(true, false))]
  }

  /** It leaves no record, so the path stays as it was. */
  lemma LostReply(c: Config, s: State, key: Key) returns (t: State)
    requires c.relayer && s.active == None && !KeySettled(c, s.disk, key)
    ensures IsRun(c, s, LostRound(key), t) && t.active == None && t.disk == s.disk
    ensures t.accepts == s.accepts + [key] && t.lost == s.lost + [key]
  {
    var es := LostRound(key);
    var s1 := Next(c, s, es[0]);
    var s2 := Next(c, s1, es[1]);
    t := Next(c, s2, es[2]);
    assert IsRun(c, s2, es[2..], t);
    assert es[1..] == [es[1]] + es[2..] && IsRun(c, s1, es[1..], t);
  }

  /** From any unsettled path, the empty one included, two sessions in a row can both be accepted. */
  lemma LostReplyTwice(c: Config, disk: map<Key, Artifact>, key: Key) returns (events: seq<Event>, u: State)
    requires c.relayer && !KeySettled(c, disk, key)
    ensures IsRun(c, Start(disk), events, u) && NoStubs(events, key)
    ensures Count(u.accepts, key) == 2 && Count(u.lost, key) == 2
  {
    var t := LostReply(c, Start(disk), key);
    u := LostReply(c, t, key);
    events := LostRound(key) + LostRound(key);
    Concatenate(c, Start(disk), LostRound(key), t, LostRound(key), u);
    assert u.accepts == [key] + [key] && u.lost == [key] + [key];
  }

  /**
   The premise that none is lost is needed: without it, only a path whose transaction is already on
   record excludes a second acceptance, and then there is not even a first.
   */
  lemma AtMostOnceEverExactly(c: Config, disk: map<Key, Artifact>, key: Key)
    requires c.relayer
    ensures AtMostOnceEver(c, disk, key) <==> KeySettled(c, disk, key)
  {
    if KeySettled(c, disk, key) {
      forall events, t | IsRun(c, Start(disk), events, t) && NoStubs(events, key) ensures Count(t.accepts, key) <= 1 {
        SettledIsFinal(c, Start(disk), events, t, key);
      }
    } else {
      var events, u := LostReplyTwice(c, disk, key);
    }
  }

  /** A transaction that aborted on chain settles its path: from the empty disk a run leads there. */
  lemma AbortSettles(c: Config, key: Key, tx: Tx) returns (events: seq<Event>, t: State)
    requires c.chainNode && c.relayer
    ensures IsRun(c, Start(map[]), events, t) && Closed(c, t, key)
    ensures t.replies == [Failed(key, ChainExecutionFailed)] && Count(t.accepts, key) == 1
  {
    var s1 := Next(c, Start(map[]), Begin(key, 0, false));
    var s2 := Next(c, s1, Read);
    var s3 := Next(c, s2, Relay(Returned(false, tx)));
    var s4 := Next(c, s3, Confirm(Aborted));
    t := Next(c, s4, Persist(true));
    var e4 := [Persist(true)];
    var e3 := [Confirm(Aborted)] + e4;
    var e2 := [Relay(Returned(false, tx))] + e3;
    var e1 := [Read] + e2;
    events := [Begin(key, 0, false)] + e1;
    assert IsRun(c, s4, e4, t);
    assert IsRun(c, s3, e3, t);
    assert IsRun(c, s2, e2, t);
    assert IsRun(c, s1, e1, t);
  }

  /** The route writes that stub itself: a session whose finalize transcript is still a stub makes the path unsafe. */
  lemma StubMakesUnsafe(c: Config, key: Key) returns (events: seq<Event>, t: State)
    ensures IsRun(c, Start(map[]), events, t) && !SafePath(c, t.disk, key)
  {
    events := [Begin(key, 0, true), Read, Persist(true)];
    var s1 := Next(c, Start(map[]), events[0]);
    var s2 := Next(c, s1, events[1]);
    t := Next(c, s2, events[2]);
    assert IsRun(c, t, events[1..][1..][1..], t);
  }

  // ---- the handler -------------------------------------------------------------------------

  /** What the relayer, the chain and the file system do during one session. */
  datatype Environment = Environment(relayer: RelayerOutcome, confirm: ChainOutcome, replay: ChainOutcome, persistOk: bool)

  /** The events report this environment's outcomes, and no crash. */
  ghost predicate Driven(events: seq<Event>, env: Environment) {
    forall i :: 0 <= i < |events| ==> Reports(events[i], env)
  }

  predicate Reports(e: Event, env: Environment) {
    match e
    case Begin(_, _, _) => true
    case Read => true
    case Replay(o) => o == env.replay
    case Relay(r) => r == env.relayer
    case Confirm(o) => o == env.confirm
    case Persist(ok) => ok == env.persistOk
    case Crash(_) => false
  }

  class Coordinator {
    const config: Config
    var disk: map<Key, Artifact>
    ghost var accepts: seq<Key>
    ghost var lost: seq<Key>
    ghost var replies: seq<Reply>

    constructor (config: Config)
      ensures this.config == config && Idle() == Start(map[])
    {
      this.config := config;
      disk, accepts, lost, replies := map[], [], [], [];
    }

    /** The state while no session runs. */
    ghost function Idle(): State
      reads this
    {
      State(disk, None, accepts, lost, replies)
    }

    /** Records the end of a session whose steps led from `before` to `after`. */
    ghost method Settle(after: State)
      requires after.active == None && after.disk == disk
      modifies this`accepts, this`lost, this`replies
      ensures Idle() == after
    {
      accepts, lost, replies := after.accepts, after.lost, after.replies;
    }

    /** Writes the artifact with `link` or `rename` and replies. */
    method Persist(key: Key, write: Artifact, noClobber: bool, code: Code, env: Environment,
                   ghost before: State, ghost events: seq<Event>, ghost now: State)
      returns (reply: Reply, ghost all: seq<Event>)
      requires IsRun(config, before, events, now) && now.disk == disk && Driven(events, env)
      requires now.active.Some? && now.active.value.key == key && now.active.value.pc.AtPersist?
      requires var pc := now.active.value.pc; pc.write == write && pc.noClobber == noClobber && pc.code == code
      modifies this
      ensures IsRun(config, before, all, Idle()) && replies == now.replies + [reply]
      ensures Driven(all, env) && events <= all
      ensures !env.persistOk ==> disk == old(disk) && reply == Failed(key, PersistError)
      ensures env.persistOk && noClobber && key in old(disk) ==>
                disk == old(disk) && reply == Failed(key, CompletedWithDifferentInputs)
      ensures env.persistOk && !(noClobber && key in old(disk)) ==>
                disk == old(disk)[key := write] &&
                reply == if write.completed then Completed(key, write.tx) else Failed(key, code)
    {
      ghost var after;
      all, after := Extend(config, before, events, now, Event.Persist(env.persistOk));
      if !env.persistOk {
        reply := Failed(key, PersistError);
      } else if noClobber && key in disk {
        reply := Failed(key, CompletedWithDifferentInputs);
      } else {
        disk := disk[key := write];
        reply := if write.completed then Completed(key, write.tx) else Failed(key, code);
      }
      Settle(after);
    }

    /** Promotes an earlier attempt to completed success, or reports what became of it. */
    method Recover(key: Key, input: InputHash, tx: Tx, env: Environment,
                   ghost before: State, ghost events: seq<Event>, ghost now: State)
      returns (reply: Reply, ghost all: seq<Event>)
      requires IsRun(config, before, events, now) && now.disk == disk && Driven(events, env)
      requires now.active.Some? && now.active.value.key == key && now.active.value.input == input
      requires now.active.value.pc == AtReplay(tx)
      modifies this
      ensures IsRun(config, before, all, Idle()) && replies == now.replies + [reply]
      ensures Driven(all, env) && events <= all
      ensures env.replay == Unconfirmed ==> disk == old(disk) && reply == Failed(key, ConfirmationTimeout)
      ensures env.replay == Aborted && env.persistOk ==>
                disk == old(disk)[key := Artifact(false, false, Some(input), Some(tx))] &&
                reply == Failed(key, ChainExecutionFailed)
      ensures env.replay == Succeeded && env.persistOk ==>
                disk == old(disk)[key := Artifact(true, false, Some(input), Some(tx))] && reply == Completed(key, Some(tx))
      ensures env.replay != Unconfirmed && !env.persistOk ==> disk == old(disk) && reply == Failed(key, PersistError)
    {
      ghost var next;
      all, next := Extend(config, before, events, now, Replay(env.replay));
      if env.replay.Unconfirmed? {
        reply := Failed(key, ConfirmationTimeout);
        Settle(next);
        return;
      }
      if env.replay.Aborted? {
        reply, all := Persist(key, Artifact(false, false, Some(input), Some(tx)), false, ChainExecutionFailed,
                              env, before, all, next);
        return;
      }
      reply, all := Persist(key, Artifact(true, false, Some(input), Some(tx)), false, PersistError,
                            env, before, all, next);
    }

    /** Waits for the chain after a real acceptance and records the outcome. */
    method ConfirmAndRecord(key: Key, input: InputHash, tx: Tx, env: Environment,
                            ghost before: State, ghost events: seq<Event>, ghost now: State)
      returns (reply: Reply, ghost all: seq<Event>)
      requires IsRun(config, before, events, now) && now.disk == disk && Driven(events, env)
      requires now.active.Some? && now.active.value.key == key && now.active.value.input == input
      requires now.active.value.pc == AtConfirm(tx)
      modifies this
      ensures IsRun(config, before, all, Idle()) && replies == now.replies + [reply]
      ensures Driven(all, env) && events <= all
      ensures env.confirm == Unconfirmed && env.persistOk ==>
                disk == old(disk)[key := Artifact(false, false, Some(input), Some(tx))] &&
                reply == Failed(key, ConfirmationTimeout)
      ensures env.confirm == Aborted && env.persistOk ==>
                disk == old(disk)[key := Artifact(false, false, Some(input), Some(tx))] &&
                reply == Failed(key, ChainExecutionFailed)
      ensures env.confirm == Succeeded && env.persistOk && key !in old(disk) ==>
                disk == old(disk)[key := Artifact(true, false, Some(input), Some(tx))] && reply == Completed(key, Some(tx))
      ensures env.confirm == Succeeded && env.persistOk && key in old(disk) ==>
                disk == old(disk) && reply == Failed(key, CompletedWithDifferentInputs)
      ensures !env.persistOk ==> disk == old(disk) && reply == Failed(key, PersistError)
    {
      ghost var next;
      all, next := Extend(config, before, events, now, Confirm(env.confirm));
      if env.confirm.Succeeded? {
        reply, all := Persist(key, Artifact(true, false, Some(input), Some(tx)), true, PersistError,
                              env, before, all, next);
        return;
      }
      var code := if env.confirm.Unconfirmed? then ConfirmationTimeout else ChainExecutionFailed;
      reply, all := Persist(key, Artifact(false, false, Some(input), Some(tx)), false, code, env, before, all, next);
    }

    /** Hands the call to the relayer, waits for the chain and records the outcome. */
    method Broadcast(key: Key, input: InputHash, env: Environment,
                     ghost before: State, ghost events: seq<Event>, ghost now: State)
      returns (reply: Reply, ghost all: seq<Event>)
      requires IsRun(config, before, events, now) && now.disk == disk && Driven(events, env)
      requires now.active.Some? && now.active.value.key == key && now.active.value.input == input
      requires now.active.value.pc == AtRelayer
      modifies this
      ensures IsRun(config, before, all, Idle()) && replies == now.replies + [reply]
      ensures Driven(all, env) && events <= all
      ensures env.relayer.Threw? ==>
                disk == old(disk) && reply == Failed(key, if env.relayer.spent then NullifierSpent else RelayerError)
      ensures env.relayer.Returned? && !env.persistOk ==> disk == old(disk) && reply == Failed(key, PersistError)
      ensures env.relayer.Returned? && env.persistOk ==>
                var tx := env.relayer.tx;
                if env.relayer.simulated then
                  if key in old(disk) then disk == old(disk) && reply == Failed(key, CompletedWithDifferentInputs)
                  else disk == old(disk)[key := Artifact(true, true, Some(input), Some(tx))] && reply == Completed(key, Some(tx))
                else if !config.chainNode then
                  disk == old(disk)[key := Artifact(false, false, None, Some(tx))] && reply == Failed(key, ChainNodeRequired)
                else
                  match env.confirm
                  case Unconfirmed =>
                    disk == old(disk)[key := Artifact(false, false, Some(input), Some(tx))] &&
                    reply == Failed(key, ConfirmationTimeout)
                  case Aborted =>
                    disk == old(disk)[key := Artifact(false, false, Some(input), Some(tx))] &&
                    reply == Failed(key, ChainExecutionFailed)
                  case Succeeded =>
                    if key in old(disk) then disk == old(disk) && reply == Failed(key, CompletedWithDifferentInputs)
                    else
                      disk == old(disk)[key := Artifact(true, false, Some(input), Some(tx))] &&
                      reply == Completed(key, Some(tx))
    {
      ghost var next;
      all, next := Extend(config, before, events, now, Relay(env.relayer));
      if env.relayer.Threw? {
        reply := Failed(key, if env.relayer.spent then NullifierSpent else RelayerError);
        Settle(next);
        return;
      }
      var tx := env.relayer.tx;
      if !env.relayer.simulated && !config.chainNode {
        reply, all := Persist(key, Artifact(false, false, None, Some(tx)), false, ChainNodeRequired,
                              env, before, all, next);
        return;
      }
      if !env.relayer.simulated {
        reply, all := ConfirmAndRecord(key, input, tx, env, before, all, next);
        return;
      }
      reply, all := Persist(key, Artifact(true, true, Some(input), Some(tx)), true, PersistError,
                            env, before, all, next);
    }

    /** The path holds an earlier attempt that is incomplete, was really sent, and can be asked about. */
    predicate Recoverable(key: Key)
      reads this
    {
      key in disk && !disk[key].completed && !disk[key].simulated && disk[key].tx.Some? && config.chainNode
    }

    /** ... for this input, or for one that was not recorded. */
    predicate RecoverableFor(key: Key, input: InputHash)
      reads this
    {
      Recoverable(key) && (disk[key].input == None || disk[key].input == Some(input))
    }

    /** The path holds neither a completed artifact nor a recoverable attempt. */
    predicate Fresh(key: Key)
      reads this
    {
      !(key in disk && disk[key].completed) && !Recoverable(key)
    }

    /** The route, from the moment it holds the submit lock: one session is one run of the steps. */
    method Submit(key: Key, input: InputHash, stub: bool, env: Environment) returns (reply: Reply, ghost events: seq<Event>)
      modifies this
      ensures IsRun(config, old(Idle()), events, Idle())
      ensures replies == old(replies) + [reply]
      ensures Driven(events, env) && events != [] && events[0] == Begin(key, input, stub)
      ensures key in old(disk) && old(disk[key]).completed ==>
                disk == old(disk) &&
                reply == if old(disk[key]).input == Some(input) then Completed(key, old(disk[key]).tx)
                         else Failed(key, CompletedWithDifferentInputs)
      ensures old(Recoverable(key)) && old(disk[key]).input.Some? && old(disk[key]).input != Some(input) ==>
                disk == old(disk) && reply == Failed(key, AttemptedWithDifferentInputs)
      ensures old(RecoverableFor(key, input)) && env.replay == Unconfirmed ==>
                disk == old(disk) && reply == Failed(key, ConfirmationTimeout)
      ensures old(RecoverableFor(key, input)) && env.replay == Aborted && env.persistOk ==>
                disk == old(disk)[key := Artifact(false, false, Some(input), old(disk[key]).tx)] &&
                reply == Failed(key, ChainExecutionFailed)
      ensures old(RecoverableFor(key, input)) && env.replay == Succeeded && env.persistOk ==>
                disk == old(disk)[key := Artifact(true, false, Some(input), old(disk[key]).tx)] &&
                reply == Completed(key, old(disk[key]).tx)
      ensures old(RecoverableFor(key, input)) && env.replay != Unconfirmed && !env.persistOk ==>
                disk == old(disk) && reply == Failed(key, PersistError)
      ensures old(Fresh(key)) && stub ==>
                if env.persistOk then
                  disk == old(disk)[key := Artifact(false, true, None, None)] && reply == Failed(key, NotImplemented)
                else disk == old(disk) && reply == Failed(key, PersistError)
      ensures old(Fresh(key)) && !stub && !config.relayer ==> disk == old(disk) && reply == Failed(key, RelayerUnreachable)
      ensures old(Fresh(key)) && !stub && config.relayer && env.relayer.Threw? ==>
                disk == old(disk) && reply == Failed(key, if env.relayer.spent then NullifierSpent else RelayerError)
      ensures old(Fresh(key)) && !stub && config.relayer && env.relayer.Returned? && !env.persistOk ==>
                disk == old(disk) && reply == Failed(key, PersistError)
      ensures old(Fresh(key)) && !stub && config.relayer && env.relayer.Returned? && env.persistOk ==>
                var tx := env.relayer.tx;
                if env.relayer.simulated then
                  if key in old(disk) then disk == old(disk) && reply == Failed(key, CompletedWithDifferentInputs)
                  else disk == old(disk)[key := Artifact(true, true, Some(input), Some(tx))] && reply == Completed(key, Some(tx))
                else if !config.chainNode then
                  disk == old(disk)[key := Artifact(false, false, None, Some(tx))] && reply == Failed(key, ChainNodeRequired)
                else
                  match env.confirm
                  case Unconfirmed =>
                    disk == old(disk)[key := Artifact(false, false, Some(input), Some(tx))] &&
                    reply == Failed(key, ConfirmationTimeout)
                  case Aborted =>
                    disk == old(disk)[key := Artifact(false, false, Some(input), Some(tx))] &&
                    reply == Failed(key, ChainExecutionFailed)
                  case Succeeded =>
                    if key in old(disk) then disk == old(disk) && reply == Failed(key, CompletedWithDifferentInputs)
                    else
                      disk == old(disk)[key := Artifact(true, false, Some(input), Some(tx))] &&
                      reply == Completed(key, Some(tx))
    {
      ghost var before, now := Idle(), Idle();
      events, now := Extend(config, before, [], now, Begin(key, input, stub));
      events, now := Extend(config, before, events, now, Read);
      if key in disk && disk[key].completed {
        if disk[key].input != Some(input) {
          reply := Failed(key, CompletedWithDifferentInputs);
        } else {
          reply := Completed(key, disk[key].tx);
        }
        Settle(now);
        return;
      }
      if key in disk && IsCandidate(disk[key]) && config.chainNode {
        if disk[key].input.Some? && disk[key].input != Some(input) {
          reply := Failed(key, AttemptedWithDifferentInputs);
          Settle(now);
          return;
        }
        reply, events := Recover(key, input, disk[key].tx.value, env, before, events, now);
        return;
      }
      if stub {
        reply, events := Persist(key, Artifact(false, true, None, None), false, NotImplemented, env,
                                 before, events, now);
        return;
      }
      if !config.relayer {
        reply := Failed(key, RelayerUnreachable);
        Settle(now);
        return;
      }
      reply, events := Broadcast(key, input, env, before, events, now);
    }
  }

  lemma Extend(c: Config, s: State, events: seq<Event>, t: State, e: Event) returns (all: seq<Event>, u: State)
    requires IsRun(c, s, events, t) && Enabled(t, e)
    ensures u == Next(c, t, e) && all == events + [e] && IsRun(c, s, all, u)
  {
    u := Next(c, t, e);
    all := events + [e];
    assert [e][1..] == [];
    Concatenate(c, s, events, t, [e], u);
  }
}
