/** Lease fencing, failure atomicity and recovery over whole runs of the circuit. */
module CircuitRuns {
  import opened Words
  import opened CircuitModel
  import opened CircuitInvariant

  datatype Command =
    | ObserveCommand(observation: CircuitObservation)
    | AcquireCommand(generation: u64, at: u64, monotonic: Monotonic)
    | ValidateCommand(lease: ProbeLease, at: u64, monotonic: Monotonic)
    | CompleteCommand(lease: ProbeLease, outcome: CircuitOutcome, at: u64, monotonic: Monotonic)
    | ResetCommand(generation: u64, at: u64, monotonic: Monotonic)

  ghost function Step(d: CircuitData, policy: CircuitPolicy, c: Command): (d': CircuitData)
    requires Inv(d, policy)
    ensures Inv(d', policy)
  {
    match c
    case ObserveCommand(o) => ObserveInv(d, policy, o); Observe(d, policy, o).0
    case AcquireCommand(g, at, m) => AcquireInv(d, policy, g, at, m); Acquire(d, policy, g, at, m).0
    case ValidateCommand(l, at, m) => ValidateProbeInv(d, policy, l, at, m); ValidateProbe(d, policy, l, at, m).0
    case CompleteCommand(l, o, at, m) =>
      CompleteProbeInv(d, policy, l, o, at, m); CompleteProbe(d, policy, l, o, at, m).0
    case ResetCommand(g, at, m) => ResetInv(d, policy, g, at, m); Reset(d, g, at, m).0
  }

  function ErrorOf<T>(r: Result<T, CircuitErrorCode>): Option<CircuitErrorCode> {
    if r.Err? then Some(r.error) else None
  }

  /** The error a command is answered with, if it fails. */
  ghost function Failure(d: CircuitData, policy: CircuitPolicy, c: Command): Option<CircuitErrorCode>
    requires Inv(d, policy)
  {
    match c
    case ObserveCommand(o) => ErrorOf(Observe(d, policy, o).1)
    case AcquireCommand(g, at, m) => ErrorOf(Acquire(d, policy, g, at, m).1)
    case ValidateCommand(l, at, m) => ErrorOf(ValidateProbe(d, policy, l, at, m).1)
    case CompleteCommand(l, o, at, m) => ErrorOf(CompleteProbe(d, policy, l, o, at, m).1)
    case ResetCommand(g, at, m) => ErrorOf(Reset(d, g, at, m).1)
  }

  ghost function Run(d: CircuitData, policy: CircuitPolicy, commands: seq<Command>): (d': CircuitData)
    requires Inv(d, policy)
    ensures Inv(d', policy)
    decreases commands
  {
    if commands == [] then d else Run(Step(d, policy, commands[0]), policy, commands[1..])
  }

  lemma {:induction false} RunSplit(d: CircuitData, policy: CircuitPolicy, commands: seq<Command>, k: nat)
    requires Inv(d, policy) && k <= |commands|
    ensures Run(d, policy, commands) == Run(Run(d, policy, commands[..k]), policy, commands[k..])
    decreases commands
  {
    if k > 0 {
      var tail := commands[1..];
      RunSplit(Step(d, policy, commands[0]), policy, tail, k - 1);
      assert commands[..k][0] == commands[0];
      assert commands[..k][1..] == tail[..k - 1];
      assert commands[k..] == tail[k - 1..];
    } else {
      assert commands[0..] == commands;
    }
  }

  // ---------- Every reachable state ----------

  /** The invariant in full, for every state any run from a new circuit reaches. */
  lemma ReachableShape(accountId: Text, policy: CircuitPolicy, commands: seq<Command>)
    ensures Inv(Initial(accountId), policy)
    ensures
      var d := Run(Initial(accountId), policy, commands);
      var s := d.snapshot;
      && s.halfOpenInFlight == |d.leases| <= policy.maxHalfOpenProbes
      && (d.leases != [] ==> s.state == HalfOpen)
      && (s.state == Open || s.state == HalfOpen ==>
            s.openedAt.Some? && s.recoveryEligibleAt == Some(s.openedAt.value + policy.recoveryWindowMillis))
      && (s.state == Closed ==> s.consecutiveFailures < policy.failureThreshold)
  {
    InitialInv(accountId, policy);
  }

  /** What a failed attempt may leave behind: nothing new, or, when a lease had expired, the reopened circuit. */
  predicate FailsSafely(d: CircuitData, policy: CircuitPolicy, d': CircuitData, failure: Option<CircuitErrorCode>) {
    match failure
    case None => true
    case Some(e) =>
      && e != StateUnavailable
      && (e != LeaseExpired ==> d' == d)
      && (e == LeaseExpired ==>
            && d'.snapshot.state == Open && d'.leases == [] && d'.nextLeaseId == d.nextLeaseId
            && d'.snapshot.generation == d.snapshot.generation + 1)
  }

  lemma LeaseFailuresSafe(d: CircuitData, policy: CircuitPolicy, lease: ProbeLease, outcome: CircuitOutcome, at: u64,
                          monotonic: Monotonic)
    requires Inv(d, policy)
    ensures FailsSafely(d, policy, ValidateProbe(d, policy, lease, at, monotonic).0,
                        ErrorOf(ValidateProbe(d, policy, lease, at, monotonic).1))
    ensures FailsSafely(d, policy, CompleteProbe(d, policy, lease, outcome, at, monotonic).0,
                        ErrorOf(CompleteProbe(d, policy, lease, outcome, at, monotonic).1))
  {
  }

  lemma AcquireFailuresSafe(d: CircuitData, policy: CircuitPolicy, generation: u64, at: u64, monotonic: Monotonic)
    requires Inv(d, policy)
    ensures FailsSafely(d, policy, Acquire(d, policy, generation, at, monotonic).0,
                        ErrorOf(Acquire(d, policy, generation, at, monotonic).1))
  {
  }

  /** A missing recovery time is never reported, and a failed command changes nothing unless a lease had expired. */
  lemma FailuresChangeNothing(d: CircuitData, policy: CircuitPolicy, c: Command)
    requires Inv(d, policy)
    ensures FailsSafely(d, policy, Step(d, policy, c), Failure(d, policy, c))
  {
    match c
    case ObserveCommand(_) =>
    case AcquireCommand(g, at, m) => AcquireFailuresSafe(d, policy, g, at, m);
    case ValidateCommand(l, at, m) => LeaseFailuresSafe(d, policy, l, Success, at, m);
    case CompleteCommand(l, o, at, m) => LeaseFailuresSafe(d, policy, l, o, at, m);
    case ResetCommand(_, _, _) =>
  }

  /** An observation exhausts a counter only when it must change state and the generation or the window has no room. */
  lemma ObserveExhaustion(d: CircuitData, policy: CircuitPolicy, o: CircuitObservation)
    requires Inv(d, policy)
    ensures Observe(d, policy, o).1 == Err(VersionExhausted) <==>
            && o.accountId == d.snapshot.accountId && o.generation == d.snapshot.generation
            && !ClockBehind(d.snapshot, o.observedAt, o.monotonic) && d.snapshot.state == Closed
            && (|| (o.outcome == TerminalFailure && d.snapshot.generation == U64_MAX)
                || (o.outcome == RetryableFailure && d.snapshot.consecutiveFailures + 1 == policy.failureThreshold
                    && !CanOpen(d.snapshot, policy, o.observedAt)))
  {
  }

  /**
   * A lease is issued exactly when the window has passed, a slot is free, no lease ran out and the counters have room.
   */
  lemma AdmissionExact(d: CircuitData, policy: CircuitPolicy, generation: u64, at: u64, monotonic: Monotonic)
    requires Inv(d, policy)
    ensures Acquire(d, policy, generation, at, monotonic).1.Ok? <==>
            && !ClockBehind(d.snapshot, at, monotonic)
            && generation == d.snapshot.generation
            && (d.snapshot.state == Open || d.snapshot.state == HalfOpen)
            && d.snapshot.openedAt.Some? && at >= d.snapshot.openedAt.value + policy.recoveryWindowMillis
            && |d.leases| < policy.maxHalfOpenProbes
            && (forall i :: 0 <= i < |d.leases| ==> monotonic < d.leases[i].expiresAt)
            && d.nextLeaseId < U64_MAX
            && monotonic + policy.probeLeaseMillis <= MAX_MONOTONIC
  {
  }

  // ---------- Generations ----------

  lemma StepGeneration(d: CircuitData, policy: CircuitPolicy, c: Command)
    requires Inv(d, policy)
    ensures d.snapshot.generation <= Step(d, policy, c).snapshot.generation <= d.snapshot.generation + 1
    ensures d.nextLeaseId <= Step(d, policy, c).nextLeaseId
    ensures Step(d, policy, c).snapshot.state != d.snapshot.state ==>
              || Step(d, policy, c).snapshot.generation == d.snapshot.generation + 1
              || (d.snapshot.state == Open && Step(d, policy, c).snapshot.state == HalfOpen)
  {
  }

  lemma {:induction false} GenerationsNeverFall(d: CircuitData, policy: CircuitPolicy, commands: seq<Command>)
    requires Inv(d, policy)
    ensures d.snapshot.generation <= Run(d, policy, commands).snapshot.generation
    ensures d.nextLeaseId <= Run(d, policy, commands).nextLeaseId
    decreases commands
  {
    if commands != [] {
      StepGeneration(d, policy, commands[0]);
      GenerationsNeverFall(Step(d, policy, commands[0]), policy, commands[1..]);
    }
  }

  // ---------- Issued and accepted leases ----------

  /** The lease a command is granted, if any. */
  ghost function Issued(d: CircuitData, policy: CircuitPolicy, c: Command): Option<ProbeLease>
    requires Inv(d, policy)
  {
    if c.AcquireCommand? && Acquire(d, policy, c.generation, c.at, c.monotonic).1.Ok?
    then Some(Acquire(d, policy, c.generation, c.at, c.monotonic).1.value)
    else None
  }

  /** The lease whose completion a command has accepted, if any. */
  ghost function Accepted(d: CircuitData, policy: CircuitPolicy, c: Command): Option<ProbeLease>
    requires Inv(d, policy)
  {
    if c.CompleteCommand? && CompleteProbe(d, policy, c.lease, c.outcome, c.at, c.monotonic).1.Ok? then Some(c.lease)
      else None
  }

  function Listed(o: Option<ProbeLease>): seq<ProbeLease> {
    if o.Some? then [o.value] else []
  }

  ghost function IssuedIn(d: CircuitData, policy: CircuitPolicy, commands: seq<Command>): seq<ProbeLease>
    requires Inv(d, policy)
    decreases commands
  {
    if commands == [] then []
    else Listed(Issued(d, policy, commands[0])) + IssuedIn(Step(d, policy, commands[0]), policy, commands[1..])
  }

  ghost function AcceptedIn(d: CircuitData, policy: CircuitPolicy, commands: seq<Command>): seq<ProbeLease>
    requires Inv(d, policy)
    decreases commands
  {
    if commands == [] then []
    else Listed(Accepted(d, policy, commands[0])) + AcceptedIn(Step(d, policy, commands[0]), policy, commands[1..])
  }

  lemma IssuedIsNext(d: CircuitData, policy: CircuitPolicy, c: Command)
    requires Inv(d, policy) && Issued(d, policy, c).Some?
    ensures Issued(d, policy, c).value.id == d.nextLeaseId
    ensures Issued(d, policy, c).value.generation == d.snapshot.generation
    ensures Step(d, policy, c).nextLeaseId == d.nextLeaseId + 1
    ensures Step(d, policy, c).snapshot.generation == d.snapshot.generation
  {
  }

  /** Lease identities never repeat: they ascend over any run. */
  lemma {:induction false} LeaseIdsNeverRepeat(d: CircuitData, policy: CircuitPolicy, commands: seq<Command>)
    requires Inv(d, policy)
    ensures forall i :: 0 <= i < |IssuedIn(d, policy, commands)| ==>
              d.nextLeaseId <= IssuedIn(d, policy, commands)[i].id
    ensures forall i, j :: 0 <= i < j < |IssuedIn(d, policy, commands)| ==>
              IssuedIn(d, policy, commands)[i].id < IssuedIn(d, policy, commands)[j].id
    decreases commands
  {
    if commands != [] {
      var c := commands[0];
      StepGeneration(d, policy, c);
      LeaseIdsNeverRepeat(Step(d, policy, c), policy, commands[1..]);
      if Issued(d, policy, c).Some? {
        IssuedIsNext(d, policy, c);
      }
    }
  }

  /** An identity that was issued and is no longer outstanding. */
  ghost predicate Spent(d: CircuitData, id: u64) {
    id < d.nextLeaseId && !Outstanding(d.leases, id)
  }

  lemma SpentStays(d: CircuitData, policy: CircuitPolicy, c: Command, id: u64)
    requires Inv(d, policy) && Spent(d, id)
    ensures Spent(Step(d, policy, c), id)
    ensures Accepted(d, policy, c).Some? ==> Accepted(d, policy, c).value.id != id
  {
    var d' := Step(d, policy, c);
    StepGeneration(d, policy, c);
    if Outstanding(d'.leases, id) {
      var i :| 0 <= i < |d'.leases| && d'.leases[i].id == id;
      OutstandingComesFrom(d, policy, c, d'.leases[i]);
    }
  }

  /** An outstanding record after a command was outstanding before, or belongs to the lease just issued. */
  lemma OutstandingComesFrom(d: CircuitData, policy: CircuitPolicy, c: Command, r: LeaseRecord)
    requires Inv(d, policy) && r in Step(d, policy, c).leases
    ensures Step(d, policy, c).snapshot.generation == d.snapshot.generation
    ensures
      || r in d.leases
      || (Issued(d, policy, c).Some?
          && r == LeaseRecord(Issued(d, policy, c).value.id, Issued(d, policy, c).value.expiresAt))
    ensures Accepted(d, policy, c).Some? ==> r.id != Accepted(d, policy, c).value.id
  {
    if c.CompleteCommand? && Accepted(d, policy, c).Some? {
      WithoutRecords(d, c.lease.id, r);
    }
  }

  lemma AcceptedIsSpent(d: CircuitData, policy: CircuitPolicy, c: Command)
    requires Inv(d, policy) && Accepted(d, policy, c).Some?
    ensures Outstanding(d.leases, Accepted(d, policy, c).value.id)
    ensures Spent(Step(d, policy, c), Accepted(d, policy, c).value.id)
  {
    var id := Accepted(d, policy, c).value.id;
    var d' := Step(d, policy, c);
    if Outstanding(d'.leases, id) {
      var i :| 0 <= i < |d'.leases| && d'.leases[i].id == id;
      OutstandingComesFrom(d, policy, c, d'.leases[i]);
    }
  }

  lemma {:induction false} SpentNeverAccepted(d: CircuitData, policy: CircuitPolicy, commands: seq<Command>, id: u64)
    requires Inv(d, policy) && Spent(d, id)
    ensures forall i :: 0 <= i < |AcceptedIn(d, policy, commands)| ==> AcceptedIn(d, policy, commands)[i].id != id
    decreases commands
  {
    if commands != [] {
      SpentStays(d, policy, commands[0], id);
      SpentNeverAccepted(Step(d, policy, commands[0]), policy, commands[1..], id);
    }
  }

  /** No lease identity is accepted twice in any run, however often the lease is presented. */
  lemma {:induction false} AcceptedAtMostOnce(d: CircuitData, policy: CircuitPolicy, commands: seq<Command>)
    requires Inv(d, policy)
    ensures forall i, j :: 0 <= i < j < |AcceptedIn(d, policy, commands)| ==>
              AcceptedIn(d, policy, commands)[i].id != AcceptedIn(d, policy, commands)[j].id
    decreases commands
  {
    if commands != [] {
      var c := commands[0];
      AcceptedAtMostOnce(Step(d, policy, c), policy, commands[1..]);
      if Accepted(d, policy, c).Some? {
        AcceptedIsSpent(d, policy, c);
        SpentNeverAccepted(Step(d, policy, c), policy, commands[1..], Accepted(d, policy, c).value.id);
      }
    }
  }

  // ---------- Fencing ----------

  /**
   * The leases handed out so far against the table: what is outstanding was issued, in the current generation, with
   * that expiry.
   */
  ghost predicate Fenced(d: CircuitData, history: seq<ProbeLease>) {
    && (forall l :: l in history ==> l.id < d.nextLeaseId)
    && (forall l :: l in history && Outstanding(d.leases, l.id) ==>
          l.generation == d.snapshot.generation && LeaseRecord(l.id, l.expiresAt) in d.leases)
    && (forall r :: r in d.leases ==> exists l :: l in history && LeaseRecord(l.id, l.expiresAt) == r)
  }

  lemma FencedStep(d: CircuitData, policy: CircuitPolicy, c: Command, history: seq<ProbeLease>)
    requires Inv(d, policy) && Fenced(d, history)
    ensures Fenced(Step(d, policy, c), history + Listed(Issued(d, policy, c)))
  {
    var d' := Step(d, policy, c);
    var history' := history + Listed(Issued(d, policy, c));
    StepGeneration(d, policy, c);
    if Issued(d, policy, c).Some? {
      IssuedIsNext(d, policy, c);
    }
    forall l | l in history' && Outstanding(d'.leases, l.id)
      ensures l.generation == d'.snapshot.generation && LeaseRecord(l.id, l.expiresAt) in d'.leases
    {
      FencedLease(d, policy, c, history, l);
    }
    forall r | r in d'.leases ensures exists l :: l in history' && LeaseRecord(l.id, l.expiresAt) == r {
      OutstandingComesFrom(d, policy, c, r);
      if r in d.leases {
        var l :| l in history && LeaseRecord(l.id, l.expiresAt) == r;
        assert l in history';
      } else {
        assert Issued(d, policy, c).value in history';
      }
    }
  }

  lemma FencedLease(d: CircuitData, policy: CircuitPolicy, c: Command, history: seq<ProbeLease>, l: ProbeLease)
    requires Inv(d, policy) && Fenced(d, history)
    requires l in history + Listed(Issued(d, policy, c)) && Outstanding(Step(d, policy, c).leases, l.id)
    ensures l.generation == Step(d, policy, c).snapshot.generation
    ensures LeaseRecord(l.id, l.expiresAt) in Step(d, policy, c).leases
  {
    var d' := Step(d, policy, c);
    var i :| 0 <= i < |d'.leases| && d'.leases[i].id == l.id;
    var r := d'.leases[i];
    OutstandingComesFrom(d, policy, c, r);
    if r in d.leases {
      var j :| 0 <= j < |d.leases| && d.leases[j] == r;
      assert Outstanding(d.leases, l.id);
      assert l in history;
      var k :| 0 <= k < |d.leases| && d.leases[k] == LeaseRecord(l.id, l.expiresAt);
      assert j == k;
    } else {
      IssuedIsNext(d, policy, c);
      assert l !in history;
    }
  }

  lemma {:induction false} FencedRun(d: CircuitData, policy: CircuitPolicy, commands: seq<Command>,
                                     history: seq<ProbeLease>)
    requires Inv(d, policy) && Fenced(d, history)
    ensures Fenced(Run(d, policy, commands), history + IssuedIn(d, policy, commands))
    decreases commands
  {
    if commands == [] {
      assert history + [] == history;
    } else {
      var c := commands[0];
      var first := Listed(Issued(d, policy, c));
      var rest := IssuedIn(Step(d, policy, c), policy, commands[1..]);
      FencedStep(d, policy, c, history);
      FencedRun(Step(d, policy, c), policy, commands[1..], history + first);
      assert history + first + rest == history + (first + rest);
    }
  }

  /** In every state a new circuit reaches, the outstanding leases are exactly issued ones of the current generation. */
  lemma OutstandingAreCurrent(accountId: Text, policy: CircuitPolicy, commands: seq<Command>)
    ensures Inv(Initial(accountId), policy)
    ensures Fenced(Run(Initial(accountId), policy, commands), IssuedIn(Initial(accountId), policy, commands))
  {
    InitialInv(accountId, policy);
    FencedRun(Initial(accountId), policy, commands, []);
    assert [] + IssuedIn(Initial(accountId), policy, commands) == IssuedIn(Initial(accountId), policy, commands);
  }

  /** A lease accepted after any run was presented before its expiry, and no generation change came between. */
  lemma AcceptanceIsFenced(
      d: CircuitData, policy: CircuitPolicy, acquire: Command, commands: seq<Command>,
      outcome: CircuitOutcome, at: u64, monotonic: Monotonic, k: nat)
    requires Inv(d, policy) && Issued(d, policy, acquire).Some? && k <= |commands|
    requires
      var lease := Issued(d, policy, acquire).value;
      Accepted(Run(Step(d, policy, acquire), policy, commands), policy,
               CompleteCommand(lease, outcome, at, monotonic)).Some?
    ensures
      var lease := Issued(d, policy, acquire).value;
      && monotonic < lease.expiresAt
      && Run(Step(d, policy, acquire), policy, commands[..k]).snapshot.generation == lease.generation
  {
    var d1 := Step(d, policy, acquire);
    IssuedIsNext(d, policy, acquire);
    RunSplit(d1, policy, commands, k);
    GenerationsNeverFall(d1, policy, commands[..k]);
    GenerationsNeverFall(Run(d1, policy, commands[..k]), policy, commands[k..]);
  }

  // ---------- Recovery ----------

  ghost function Successes(d: CircuitData, policy: CircuitPolicy, commands: seq<Command>): nat
    requires Inv(d, policy)
    decreases commands
  {
    if commands == [] then 0 else
      (if Accepted(d, policy, commands[0]).Some? && commands[0].outcome == Success then 1 else 0)
      + Successes(Step(d, policy, commands[0]), policy, commands[1..])
  }

  ghost predicate NoReset(commands: seq<Command>) {
    forall i :: 0 <= i < |commands| ==> !commands[i].ResetCommand?
  }

  /** `n` successful probes account for the recovery progress of `d`. */
  predicate Earned(d: CircuitData, policy: CircuitPolicy, n: nat) {
    match d.snapshot.state
    case Open => true
    case Terminal => true
    case HalfOpen => d.snapshot.recoverySuccesses <= n
    case Closed => policy.recoverySuccesses <= n
  }

  lemma EarnedStep(d: CircuitData, policy: CircuitPolicy, c: Command, n: nat)
    requires Inv(d, policy) && Earned(d, policy, n) && !c.ResetCommand?
    ensures Earned(Step(d, policy, c), policy,
                   n + if Accepted(d, policy, c).Some? && c.outcome == Success then 1 else 0)
  {
  }

  lemma {:induction false} EarnedRun(d: CircuitData, policy: CircuitPolicy, commands: seq<Command>, n: nat)
    requires Inv(d, policy) && Earned(d, policy, n) && NoReset(commands)
    ensures Earned(Run(d, policy, commands), policy, n + Successes(d, policy, commands))
    decreases commands
  {
    if commands != [] {
      var c := commands[0];
      EarnedStep(d, policy, c, n);
      var n' := n + if Accepted(d, policy, c).Some? && c.outcome == Success then 1 else 0;
      EarnedRun(Step(d, policy, c), policy, commands[1..], n');
    }
  }

  /** Without an administrative reset, an open circuit closes only after the required number of successful probes. */
  lemma ClosingIsEarned(d: CircuitData, policy: CircuitPolicy, commands: seq<Command>)
    requires Inv(d, policy) && d.snapshot.state == Open && NoReset(commands)
    requires Run(d, policy, commands).snapshot.state == Closed
    ensures Successes(d, policy, commands) >= policy.recoverySuccesses
  {
    EarnedRun(d, policy, commands, 0);
  }

  /** A terminal circuit stays terminal until a reset. */
  lemma {:induction false} TerminalUntilReset(d: CircuitData, policy: CircuitPolicy, commands: seq<Command>)
    requires Inv(d, policy) && d.snapshot.state == Terminal && NoReset(commands)
    ensures Run(d, policy, commands) == d
    decreases commands
  {
    if commands != [] {
      TerminalUntilReset(Step(d, policy, commands[0]), policy, commands[1..]);
    }
  }
}
