/** Completing probes: when it succeeds, when a counter is exhausted, and whether the recovery counter can be. */
module CircuitRecovery {
  import opened Words
  import opened CircuitModel
  import opened CircuitInvariant
  import opened CircuitRuns

  /** The presented lease is the account's, of this generation, outstanding, unexpired, and neither clock runs back. */
  predicate Presentable(d: CircuitData, lease: ProbeLease, at: u64, monotonic: Monotonic) {
    && lease.accountId == d.snapshot.accountId
    && lease.generation == d.snapshot.generation
    && !ClockBehind(d.snapshot, at, monotonic)
    && Outstanding(d.leases, lease.id)
  }

  /** The outcome needs a number that does not exist: a generation, a recovery time or one more recovery success. */
  predicate OutOfNumbers(d: CircuitData, policy: CircuitPolicy, outcome: CircuitOutcome, at: u64) {
    match outcome
    case RetryableFailure => d.snapshot.generation == U64_MAX || at + policy.recoveryWindowMillis > U64_MAX
    case TerminalFailure => d.snapshot.generation == U64_MAX
    case Success =>
      || d.snapshot.recoverySuccesses == U32_MAX
      || (d.snapshot.generation == U64_MAX && |d.leases| == 1
          && d.snapshot.recoverySuccesses + 1 >= policy.recoverySuccesses)
    case Neutral =>
      d.snapshot.generation == U64_MAX && |d.leases| == 1 && d.snapshot.recoverySuccesses >= policy.recoverySuccesses
  }

  /** A completion is accepted exactly when the lease is presentable and unexpired and no counter is exhausted. */
  lemma CompletionExact(d: CircuitData, policy: CircuitPolicy, lease: ProbeLease, outcome: CircuitOutcome, at: u64,
                        monotonic: Monotonic)
    requires Inv(d, policy)
    ensures CompleteProbe(d, policy, lease, outcome, at, monotonic).1.Ok? <==>
            Presentable(d, lease, at, monotonic) && monotonic < lease.expiresAt && !OutOfNumbers(d, policy, outcome, at)
  {
  }

  /**
   * A completion runs out of numbers exactly on a presentable lease: by its outcome, or by reopening when it has
   * expired.
   */
  lemma CompletionExhaustion(d: CircuitData, policy: CircuitPolicy, lease: ProbeLease, outcome: CircuitOutcome, at: u64,
                             monotonic: Monotonic)
    requires Inv(d, policy)
    ensures CompleteProbe(d, policy, lease, outcome, at, monotonic).1 == Err(VersionExhausted) <==>
            && Presentable(d, lease, at, monotonic)
            && if monotonic < lease.expiresAt then OutOfNumbers(d, policy, outcome, at)
              else !CanOpen(d.snapshot, policy, at)
  {
  }

  // ---------- Whether the recovery counter can fill up ----------

  lemma {:induction false} RunThen(d: CircuitData, policy: CircuitPolicy, commands: seq<Command>, c: Command)
    requires Inv(d, policy)
    ensures Run(d, policy, commands + [c]) == Step(Run(d, policy, commands), policy, c)
  {
    var n := |commands|;
    RunSplit(d, policy, commands + [c], n);
    assert (commands + [c])[..n] == commands && (commands + [c])[n..] == [c];
    assert Run(Run(d, policy, commands), policy, [c]) == Step(Run(d, policy, commands), policy, c);
  }

  /** With a single probe at a time the circuit leaves recovery as soon as it has the required successes. */
  predicate BelowThreshold(d: CircuitData, policy: CircuitPolicy) {
    d.snapshot.state == HalfOpen ==> d.snapshot.recoverySuccesses < policy.recoverySuccesses
  }

  lemma BelowThresholdStep(d: CircuitData, policy: CircuitPolicy, c: Command)
    requires Inv(d, policy) && BelowThreshold(d, policy) && policy.maxHalfOpenProbes == 1
    ensures BelowThreshold(Step(d, policy, c), policy)
  {
  }

  lemma {:induction false} BelowThresholdRun(d: CircuitData, policy: CircuitPolicy, commands: seq<Command>)
    requires Inv(d, policy) && BelowThreshold(d, policy) && policy.maxHalfOpenProbes == 1
    ensures BelowThreshold(Run(d, policy, commands), policy)
    decreases commands
  {
    if commands != [] {
      BelowThresholdStep(d, policy, commands[0]);
      BelowThresholdRun(Step(d, policy, commands[0]), policy, commands[1..]);
    }
  }

  /** A closed circuit after `n` failures, all observed at time zero. */
  function Failed(accountId: Text, n: u32): CircuitData {
    var seen := if n == 0 then None else Some(0);
    CircuitData(CircuitSnapshot(accountId, 0, Closed, n, 0, 0, None, None, seen, seen), [], 1)
  }

  function FailAtZero(accountId: Text): Command {
    ObserveCommand(CircuitObservation(accountId, 0, 0, 0, RetryableFailure))
  }

  lemma {:induction false} FailuresAddUp(accountId: Text, policy: CircuitPolicy, n: u32)
    returns (commands: seq<Command>)
    requires n < policy.failureThreshold
    ensures Inv(Initial(accountId), policy) && Run(Initial(accountId), policy, commands) == Failed(accountId, n)
  {
    InitialInv(accountId, policy);
    commands := [];
    if n > 0 {
      var before := FailuresAddUp(accountId, policy, n - 1);
      commands := before + [FailAtZero(accountId)];
      RunThen(Initial(accountId), policy, before, FailAtZero(accountId));
    }
  }

  /** Opened at time zero by the last failure allowed. */
  function OpenedAtZero(accountId: Text, policy: CircuitPolicy): CircuitData {
    CircuitData(
      CircuitSnapshot(accountId, 1, Open, policy.failureThreshold, 0, 0, Some(0), Some(policy.recoveryWindowMillis),
                      Some(0), Some(0)),
      [], 1)
  }

  /** Half-open with `n` successes and one lease still out. */
  function Recovering(accountId: Text, policy: CircuitPolicy, n: u32): CircuitData {
    CircuitData(
      CircuitSnapshot(accountId, 1, HalfOpen, policy.failureThreshold, n, 1, Some(0), Some(policy.recoveryWindowMillis),
                      Some(policy.recoveryWindowMillis), Some(0)),
      [LeaseRecord(n + 1, policy.probeLeaseMillis)], n + 2)
  }

  function AcquireAtWindow(policy: CircuitPolicy): Command {
    AcquireCommand(1, policy.recoveryWindowMillis, 0)
  }

  /** Success on the lease that `Recovering` has outstanding after `n` successes. */
  function SucceedAtWindow(accountId: Text, policy: CircuitPolicy, n: u32): Command {
    CompleteCommand(ProbeLease(accountId, 1, n + 1, 0, policy.probeLeaseMillis), Success, policy.recoveryWindowMillis,
                    0)
  }

  lemma Opens(accountId: Text, policy: CircuitPolicy)
    ensures Inv(Failed(accountId, policy.failureThreshold - 1), policy)
    ensures Step(Failed(accountId, policy.failureThreshold - 1), policy, FailAtZero(accountId)) ==
              OpenedAtZero(accountId, policy)
  {
  }

  lemma StartsRecovering(accountId: Text, policy: CircuitPolicy)
    ensures Inv(OpenedAtZero(accountId, policy), policy)
    ensures Step(OpenedAtZero(accountId, policy), policy, AcquireAtWindow(policy)) == Recovering(accountId, policy, 0)
  {
    assert [] + [LeaseRecord(1, policy.probeLeaseMillis)] == [LeaseRecord(1, policy.probeLeaseMillis)];
  }

  lemma RecoveringInv(accountId: Text, policy: CircuitPolicy, n: u32)
    ensures Inv(Recovering(accountId, policy, n), policy)
  {
  }

  /** A second probe overlapping the first keeps the circuit half-open whatever the number of successes. */
  lemma OverlapContinues(accountId: Text, policy: CircuitPolicy, n: u32)
    requires policy.maxHalfOpenProbes >= 2 && n < U32_MAX
    ensures Inv(Recovering(accountId, policy, n), policy)
    ensures Step(Step(Recovering(accountId, policy, n), policy, AcquireAtWindow(policy)), policy,
                 SucceedAtWindow(accountId, policy, n))
            == Recovering(accountId, policy, n + 1)
  {
    RecoveringInv(accountId, policy, n);
    var d := Recovering(accountId, policy, n);
    var both := Step(d, policy, AcquireAtWindow(policy));
    assert both.leases == [LeaseRecord(n + 1, policy.probeLeaseMillis), LeaseRecord(n + 2, policy.probeLeaseMillis)];
    assert both.leases[0].id == n + 1;
    assert both.leases[1..] == [LeaseRecord(n + 2, policy.probeLeaseMillis)];
  }

  lemma RecoveryBegins(accountId: Text, policy: CircuitPolicy) returns (commands: seq<Command>)
    ensures Inv(Initial(accountId), policy)
            && Run(Initial(accountId), policy, commands) == Recovering(accountId, policy, 0)
  {
    hide Step, Run, Inv, Recovering, OpenedAtZero, Failed;
    var d := Initial(accountId);
    var failures := FailuresAddUp(accountId, policy, policy.failureThreshold - 1);
    RunThen(d, policy, failures, FailAtZero(accountId));
    Opens(accountId, policy);
    RunThen(d, policy, failures + [FailAtZero(accountId)], AcquireAtWindow(policy));
    StartsRecovering(accountId, policy);
    commands := failures + [FailAtZero(accountId)] + [AcquireAtWindow(policy)];
  }

  lemma {:induction false} SuccessesAddUp(accountId: Text, policy: CircuitPolicy, n: u32)
    returns (commands: seq<Command>)
    requires policy.maxHalfOpenProbes >= 2
    ensures Inv(Initial(accountId), policy)
            && Run(Initial(accountId), policy, commands) == Recovering(accountId, policy, n)
    decreases n
  {
    hide Step, Run, Inv, Recovering;
    if n == 0 {
      commands := RecoveryBegins(accountId, policy);
    } else {
      var d := Initial(accountId);
      var before := SuccessesAddUp(accountId, policy, n - 1);
      RunThen(d, policy, before, AcquireAtWindow(policy));
      RunThen(d, policy, before + [AcquireAtWindow(policy)], SucceedAtWindow(accountId, policy, n - 1));
      OverlapContinues(accountId, policy, n - 1);
      commands := before + [AcquireAtWindow(policy)] + [SucceedAtWindow(accountId, policy, n - 1)];
    }
  }

  /** A run after which one more success on an outstanding lease overflows the recovery counter. */
  ghost predicate Overfills(accountId: Text, policy: CircuitPolicy, commands: seq<Command>, c: Command)
    requires Inv(Initial(accountId), policy)
  {
    var d := Run(Initial(accountId), policy, commands);
    && c.CompleteCommand? && c.outcome == Success && d.snapshot.recoverySuccesses == U32_MAX
    && Presentable(d, c.lease, c.at, c.monotonic) && c.monotonic < c.lease.expiresAt
    && Failure(d, policy, c) == Some(VersionExhausted)
  }

  /** The recovery counter can overflow if and only if probes may overlap. */
  lemma RecoveryCounterOverflowsExactlyWithOverlap(accountId: Text, policy: CircuitPolicy)
    ensures Inv(Initial(accountId), policy)
    ensures (exists commands, c :: Overfills(accountId, policy, commands, c)) <==> policy.maxHalfOpenProbes >= 2
  {
    InitialInv(accountId, policy);
    if policy.maxHalfOpenProbes >= 2 {
      var commands := SuccessesAddUp(accountId, policy, U32_MAX);
      var c := SucceedAtWindow(accountId, policy, U32_MAX);
      var d := Recovering(accountId, policy, U32_MAX);
      RecoveringInv(accountId, policy, U32_MAX);
      assert d.leases[0].id == c.lease.id;
      CompletionExhaustion(d, policy, c.lease, Success, c.at, c.monotonic);
      assert Overfills(accountId, policy, commands, c);
    } else {
      forall commands, c ensures !Overfills(accountId, policy, commands, c) {
        BelowThresholdRun(Initial(accountId), policy, commands);
      }
    }
  }
}
