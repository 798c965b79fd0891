/** The values of the account circuit breaker and its transitions, each described by its whole resulting state. */
module CircuitModel {
  import opened Words

  const MAX_THRESHOLD: nat := 1048576
  const MAX_WINDOW_MILLIS: nat := 86_400_000
  const MAX_LEASE_MILLIS: nat := 300_000
  const MAX_PROBES: nat := 128
  const MAX_MONOTONIC: nat := 9_000_000_000_000_000

  type Monotonic = x: u64 | x <= MAX_MONOTONIC

  datatype CircuitErrorCode =
    | InvalidArgument
    | AccountMismatch
    | GenerationConflict
    | TimestampOutOfOrder
    | InvalidTransition
    | RecoveryWindowClosed
    | ProbeLimitReached
    | AdministrativeResetRequired
    | LeaseConflict
    | LeaseExpired
    | VersionExhausted
    | StateUnavailable

  datatype CircuitState = Closed | Open | HalfOpen | Terminal

  datatype CircuitOutcome = Success | Neutral | RetryableFailure | TerminalFailure

  datatype CircuitPolicyData = CircuitPolicyData(
    failureThreshold: u32,
    recoverySuccesses: u32,
    recoveryWindowMillis: u64,
    probeLeaseMillis: u64,
    maxHalfOpenProbes: u16)

  predicate ValidPolicy(p: CircuitPolicyData) {
    && 1 <= p.failureThreshold <= MAX_THRESHOLD
    && 1 <= p.recoverySuccesses <= MAX_THRESHOLD
    && 1 <= p.recoveryWindowMillis <= MAX_WINDOW_MILLIS
    && 1 <= p.probeLeaseMillis <= MAX_LEASE_MILLIS
    && 1 <= p.maxHalfOpenProbes <= MAX_PROBES
  }

  type CircuitPolicy = p: CircuitPolicyData | ValidPolicy(p) witness CircuitPolicyData(1, 1, 1, 1, 1)

  datatype CircuitObservation = CircuitObservation(
    accountId: Text, generation: u64, observedAt: u64, monotonic: Monotonic, outcome: CircuitOutcome)

  datatype ProbeLease = ProbeLease(
    accountId: Text, generation: u64, id: u64, issuedAt: Monotonic, expiresAt: Monotonic)

  datatype LeaseRecord = LeaseRecord(id: u64, expiresAt: Monotonic)

  datatype CircuitSnapshot = CircuitSnapshot(
    accountId: Text,
    generation: u64,
    state: CircuitState,
    consecutiveFailures: u32,
    recoverySuccesses: u32,
    halfOpenInFlight: u16,
    openedAt: Option<u64>,
    recoveryEligibleAt: Option<u64>,
    lastObservedAt: Option<u64>,
    lastMonotonic: Option<Monotonic>)

  datatype CircuitData = CircuitData(snapshot: CircuitSnapshot, leases: seq<LeaseRecord>, nextLeaseId: u64)

  function Initial(accountId: Text): CircuitData {
    CircuitData(CircuitSnapshot(accountId, 0, Closed, 0, 0, 0, None, None, None, None), [], 1)
  }

  /** Either clock runs behind what the circuit already accepted. */
  predicate ClockBehind(s: CircuitSnapshot, at: u64, monotonic: Monotonic) {
    || (s.lastObservedAt.Some? && at < s.lastObservedAt.value)
    || (s.lastMonotonic.Some? && monotonic < s.lastMonotonic.value)
  }

  // ---------- Resulting snapshots ----------

  /** Opening at `at` needs room in the generation counter and in the clock for the recovery window. */
  predicate CanOpen(s: CircuitSnapshot, policy: CircuitPolicy, at: u64) {
    at + policy.recoveryWindowMillis <= U64_MAX && s.generation < U64_MAX
  }

  function OpenedSnapshot(s: CircuitSnapshot, policy: CircuitPolicy, failures: u32, at: u64,
                          monotonic: Monotonic): CircuitSnapshot
    requires CanOpen(s, policy, at)
  {
    CircuitSnapshot(s.accountId, s.generation + 1, Open, failures, 0, 0,
                    Some(at), Some(at + policy.recoveryWindowMillis), Some(at), Some(monotonic))
  }

  function TerminalSnapshot(s: CircuitSnapshot, failures: u32, successes: u32, at: u64,
                            monotonic: Monotonic): CircuitSnapshot
    requires s.generation < U64_MAX
  {
    CircuitSnapshot(s.accountId, s.generation + 1, Terminal, failures, successes, 0, Some(at), None, Some(at),
                    Some(monotonic))
  }

  function ClosedSnapshot(s: CircuitSnapshot, successes: u32, at: u64, monotonic: Monotonic): CircuitSnapshot
    requires s.generation < U64_MAX
  {
    CircuitSnapshot(s.accountId, s.generation + 1, Closed, 0, successes, 0, None, None, Some(at), Some(monotonic))
  }

  // ---------- Operations ----------

  /** Every lease is void and the circuit reopens one generation later, unless a counter is exhausted. */
  function Reopen(d: CircuitData, policy: CircuitPolicy, at: u64, monotonic: Monotonic): (CircuitData, CircuitErrorCode)
  {
    if CanOpen(d.snapshot, policy, at)
    then (CircuitData(OpenedSnapshot(d.snapshot, policy, d.snapshot.consecutiveFailures, at, monotonic), [],
                      d.nextLeaseId), LeaseExpired)
    else (d, VersionExhausted)
  }

  /** An observation accepted by a closed circuit. */
  function ObservedSnapshot(s: CircuitSnapshot, policy: CircuitPolicy, outcome: CircuitOutcome, at: u64,
                            monotonic: Monotonic): Result<CircuitSnapshot, CircuitErrorCode>
  {
    var seen := s.(lastObservedAt := Some(at), lastMonotonic := Some(monotonic));
    match outcome
    case Success => Ok(seen.(consecutiveFailures := 0))
    case Neutral => Ok(seen)
    case RetryableFailure =>
      var failures := s.consecutiveFailures + 1;
      if failures > U32_MAX then Err(VersionExhausted)
      else if failures < policy.failureThreshold then Ok(seen.(consecutiveFailures := failures))
      else if CanOpen(s, policy, at) then Ok(OpenedSnapshot(s, policy, failures, at, monotonic))
      else Err(VersionExhausted)
    case TerminalFailure =>
      if s.generation == U64_MAX then Err(VersionExhausted)
      else Ok(TerminalSnapshot(s, policy.failureThreshold, s.recoverySuccesses, at, monotonic)
              .(halfOpenInFlight := s.halfOpenInFlight))
  }

  function Observe(d: CircuitData, policy: CircuitPolicy,
                   o: CircuitObservation): (CircuitData, Result<CircuitSnapshot, CircuitErrorCode>)
  {
    if o.accountId != d.snapshot.accountId then (d, Err(AccountMismatch))
    else if o.generation != d.snapshot.generation then (d, Err(GenerationConflict))
    else if ClockBehind(d.snapshot, o.observedAt, o.monotonic) then (d, Err(TimestampOutOfOrder))
    else if d.snapshot.state != Closed then (d, Err(InvalidTransition))
    else match ObservedSnapshot(d.snapshot, policy, o.outcome, o.observedAt, o.monotonic)
         case Err(e) => (d, Err(e))
         case Ok(s) => (d.(snapshot := s), Ok(s))
  }

  predicate AnyExpired(leases: seq<LeaseRecord>, monotonic: Monotonic) {
    exists i :: 0 <= i < |leases| && monotonic >= leases[i].expiresAt
  }

  /** Why no further probe is admitted, if so. */
  function ProbeRefusal(d: CircuitData, policy: CircuitPolicy, at: u64, monotonic: Monotonic): Option<CircuitErrorCode>
  {
    if d.snapshot.state == Closed then Some(InvalidTransition)
    else if d.snapshot.state == Terminal then Some(AdministrativeResetRequired)
    else if d.snapshot.recoveryEligibleAt.None? then Some(StateUnavailable)
    else if at < d.snapshot.recoveryEligibleAt.value then Some(RecoveryWindowClosed)
    else if |d.leases| >= policy.maxHalfOpenProbes then Some(ProbeLimitReached)
    else if d.nextLeaseId == U64_MAX then Some(VersionExhausted)
    else if monotonic + policy.probeLeaseMillis > MAX_MONOTONIC then Some(InvalidArgument)
    else None
  }

  function IssuedLease(d: CircuitData, policy: CircuitPolicy, monotonic: Monotonic): ProbeLease
    requires monotonic + policy.probeLeaseMillis <= MAX_MONOTONIC
  {
    ProbeLease(d.snapshot.accountId, d.snapshot.generation, d.nextLeaseId, monotonic,
               monotonic + policy.probeLeaseMillis)
  }

  /** A probe admitted: half-open in the same generation, with one more outstanding lease. */
  function Admitted(d: CircuitData, policy: CircuitPolicy, at: u64, monotonic: Monotonic): CircuitData
    requires monotonic + policy.probeLeaseMillis <= MAX_MONOTONIC && d.nextLeaseId < U64_MAX && |d.leases| < U16_MAX
  {
    CircuitData(
      d.snapshot.(state := HalfOpen,
                  recoverySuccesses := if d.snapshot.state == Open then 0 else d.snapshot.recoverySuccesses,
                  halfOpenInFlight := |d.leases| + 1,
                  lastObservedAt := Some(at),
                  lastMonotonic := Some(monotonic)),
      d.leases + [LeaseRecord(d.nextLeaseId, monotonic + policy.probeLeaseMillis)],
      d.nextLeaseId + 1)
  }

  function Acquire(d: CircuitData, policy: CircuitPolicy, expectedGeneration: u64, at: u64,
                   monotonic: Monotonic): (CircuitData, Result<ProbeLease, CircuitErrorCode>)
  {
    if ClockBehind(d.snapshot, at, monotonic) then (d, Err(TimestampOutOfOrder))
    else if d.snapshot.generation != expectedGeneration then (d, Err(GenerationConflict))
    else if AnyExpired(d.leases, monotonic) then
      var (d', e) := Reopen(d, policy, at, monotonic);
      (d', Err(e))
    else match ProbeRefusal(d, policy, at, monotonic)
         case Some(e) => (d, Err(e))
         case None => (Admitted(d, policy, at, monotonic), Ok(IssuedLease(d, policy, monotonic)))
  }

  predicate Outstanding(leases: seq<LeaseRecord>, id: u64) {
    exists i :: 0 <= i < |leases| && leases[i].id == id
  }

  /** Why a presented lease is not looked at any further, if so. */
  function LeaseRefusal(d: CircuitData, lease: ProbeLease, at: u64, monotonic: Monotonic): Option<CircuitErrorCode> {
    if lease.accountId != d.snapshot.accountId then Some(AccountMismatch)
    else if lease.generation != d.snapshot.generation then Some(GenerationConflict)
    else if ClockBehind(d.snapshot, at, monotonic) then Some(TimestampOutOfOrder)
    else if !Outstanding(d.leases, lease.id) then Some(LeaseConflict)
    else None
  }

  function ValidateProbe(d: CircuitData, policy: CircuitPolicy, lease: ProbeLease, at: u64,
                         monotonic: Monotonic): (CircuitData, Result<(), CircuitErrorCode>)
  {
    match LeaseRefusal(d, lease, at, monotonic)
    case Some(e) => (d, Err(e))
    case None =>
      if monotonic >= lease.expiresAt then
        var (d', e) := Reopen(d, policy, at, monotonic);
        (d', Err(e))
      else (d, Ok(()))
  }

  /** The leases without the first one carrying `id`. */
  function Without(leases: seq<LeaseRecord>, id: u64): seq<LeaseRecord> {
    if leases == [] then []
    else if leases[0].id == id then leases[1..]
    else [leases[0]] + Without(leases[1..], id)
  }

  /** The snapshot after a live lease completed while `remaining` others stay outstanding. */
  function CompletedSnapshot(s: CircuitSnapshot, policy: CircuitPolicy, remaining: u16, outcome: CircuitOutcome,
                             at: u64, monotonic: Monotonic): Result<CircuitSnapshot, CircuitErrorCode>
  {
    match outcome
    case RetryableFailure =>
      if CanOpen(s, policy, at) then Ok(OpenedSnapshot(s, policy, s.consecutiveFailures, at, monotonic))
        else Err(VersionExhausted)
    case TerminalFailure =>
      if s.generation < U64_MAX then Ok(TerminalSnapshot(s, s.consecutiveFailures, 0, at, monotonic))
        else Err(VersionExhausted)
    case _ =>
      var successes := s.recoverySuccesses + if outcome == Success then 1 else 0;
      if successes > U32_MAX then Err(VersionExhausted)
      else if successes < policy.recoverySuccesses || remaining > 0 then
        Ok(s.(recoverySuccesses := successes, halfOpenInFlight := remaining,
              lastObservedAt := Some(at), lastMonotonic := Some(monotonic)))
      else if s.generation == U64_MAX then Err(VersionExhausted)
      else Ok(ClosedSnapshot(s, successes, at, monotonic))
  }

  function CompleteProbe(d: CircuitData, policy: CircuitPolicy, lease: ProbeLease, outcome: CircuitOutcome, at: u64,
                         monotonic: Monotonic): (CircuitData, Result<CircuitSnapshot, CircuitErrorCode>)
    requires |d.leases| <= U16_MAX
  {
    match LeaseRefusal(d, lease, at, monotonic)
    case Some(e) => (d, Err(e))
    case None =>
      if monotonic >= lease.expiresAt then
        var (d', e) := Reopen(d, policy, at, monotonic);
        (d', Err(e))
      else
        match CompletedSnapshot(d.snapshot, policy, |d.leases| - 1, outcome, at, monotonic)
        case Err(e) => (d, Err(e))
        case Ok(s) => (CircuitData(s, if s.state == HalfOpen then Without(d.leases, lease.id) else [], d.nextLeaseId),
                       Ok(s))
  }

  function Reset(d: CircuitData, expectedGeneration: u64, at: u64,
                 monotonic: Monotonic): (CircuitData, Result<CircuitSnapshot, CircuitErrorCode>)
  {
    if d.snapshot.generation != expectedGeneration then (d, Err(GenerationConflict))
    else if ClockBehind(d.snapshot, at, monotonic) then (d, Err(TimestampOutOfOrder))
    else if d.snapshot.state != Terminal then (d, Err(InvalidTransition))
    else if d.snapshot.generation == U64_MAX then (d, Err(VersionExhausted))
    else
      var s := ClosedSnapshot(d.snapshot, 0, at, monotonic);
      (CircuitData(s, [], d.nextLeaseId), Ok(s))
  }

  // ---------- The invariant ----------

  predicate ShapeOf(s: CircuitSnapshot, policy: CircuitPolicy) {
    match s.state
    case Closed => s.openedAt.None? && s.recoveryEligibleAt.None? && s.consecutiveFailures < policy.failureThreshold
    case Terminal => s.openedAt.Some? && s.recoveryEligibleAt.None?
    case Open =>
      && s.openedAt.Some? && s.openedAt.value + policy.recoveryWindowMillis <= U64_MAX
      && s.recoveryEligibleAt == Some(s.openedAt.value + policy.recoveryWindowMillis)
      && s.recoverySuccesses == 0
    case HalfOpen =>
      && s.openedAt.Some? && s.openedAt.value + policy.recoveryWindowMillis <= U64_MAX
      && s.recoveryEligibleAt == Some(s.openedAt.value + policy.recoveryWindowMillis)
  }

  /** Lease identities ascend and stay below the next one to be issued. */
  ghost predicate LeasesOrdered(d: CircuitData) {
    && 1 <= d.nextLeaseId
    && (forall i, j :: 0 <= i < j < |d.leases| ==> d.leases[i].id < d.leases[j].id)
    && (forall i :: 0 <= i < |d.leases| ==> d.leases[i].id < d.nextLeaseId)
  }

  ghost predicate Inv(d: CircuitData, policy: CircuitPolicy) {
    && d.snapshot.halfOpenInFlight == |d.leases|
    && |d.leases| <= policy.maxHalfOpenProbes
    && (d.leases != [] ==> d.snapshot.state == HalfOpen)
    && ShapeOf(d.snapshot, policy)
    && d.snapshot.consecutiveFailures <= policy.failureThreshold
    && LeasesOrdered(d)
  }
}
