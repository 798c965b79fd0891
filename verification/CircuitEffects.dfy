/**
 * What each command does to a circuit, field by field, on the circuit before and after: which state follows, in which
 * generation, with which leases, counters and clocks, and which error a refusal carries.
 */
module CircuitEffects {
  import opened Words
  import opened CircuitModel
  import opened CircuitInvariant
  import opened CircuitRuns

  // ---------- Parts of an effect ----------

  /** Neither clock runs behind what the circuit accepted before. */
  predicate InOrder(s: CircuitSnapshot, at: u64, monotonic: Monotonic) {
    && (s.lastObservedAt == None || s.lastObservedAt.value <= at)
    && (s.lastMonotonic == None || s.lastMonotonic.value <= monotonic)
  }

  predicate Stamped(s: CircuitSnapshot, at: u64, monotonic: Monotonic) {
    s.lastObservedAt == Some(at) && s.lastMonotonic == Some(monotonic)
  }

  /** Opened at `at`, one generation later, with no lease left and eligible again after the window. */
  predicate OpensAt(d: CircuitData, d': CircuitData, policy: CircuitPolicy, at: u64) {
    && d'.snapshot.state == Open && d'.snapshot.generation == d.snapshot.generation + 1
    && d'.leases == [] && d'.snapshot.halfOpenInFlight == 0 && d'.snapshot.recoverySuccesses == 0
    && d'.snapshot.openedAt == Some(at)
    && at + policy.recoveryWindowMillis <= U64_MAX
    && d'.snapshot.recoveryEligibleAt == Some(at + policy.recoveryWindowMillis)
  }

  /** Terminal since `at`, one generation later, with no lease left and no way back by itself. */
  predicate EndsAt(d: CircuitData, d': CircuitData, at: u64) {
    && d'.snapshot.state == Terminal && d'.snapshot.generation == d.snapshot.generation + 1
    && d'.leases == [] && d'.snapshot.halfOpenInFlight == 0
    && d'.snapshot.openedAt == Some(at) && d'.snapshot.recoveryEligibleAt == None
  }

  /** Closed one generation later, with nothing left of the failure. */
  predicate Closes(d: CircuitData, d': CircuitData) {
    && d'.snapshot.state == Closed && d'.snapshot.generation == d.snapshot.generation + 1
    && d'.leases == [] && d'.snapshot.halfOpenInFlight == 0 && d'.snapshot.consecutiveFailures == 0
    && d'.snapshot.openedAt == None && d'.snapshot.recoveryEligibleAt == None
  }

  /** Whatever is accepted carries the command's clocks and leaves account and lease numbering alone. */
  predicate Accepts(d: CircuitData, d': CircuitData, r: Result<CircuitSnapshot, CircuitErrorCode>, at: u64,
                    monotonic: Monotonic)
  {
    && r == Ok(d'.snapshot) && Stamped(d'.snapshot, at, monotonic)
    && d'.snapshot.accountId == d.snapshot.accountId && d'.nextLeaseId == d.nextLeaseId
  }

  // ---------- Observation ----------

  /** What an accepted observation makes of a closed circuit. */
  lemma ObservationEffect(d: CircuitData, policy: CircuitPolicy, o: CircuitObservation)
    requires Inv(d, policy) && Observe(d, policy, o).1.Ok?
    ensures
      var (d', r) := Observe(d, policy, o);
      var s, s' := d.snapshot, d'.snapshot;
      && Accepts(d, d', r, o.observedAt, o.monotonic) && d'.leases == []
      && match o.outcome
         case Success => StaysClosed(s, s') && s'.consecutiveFailures == 0
         case Neutral => StaysClosed(s, s') && s'.consecutiveFailures == s.consecutiveFailures
         case RetryableFailure =>
           && s'.consecutiveFailures == s.consecutiveFailures + 1
           && (if s.consecutiveFailures + 1 < policy.failureThreshold
               then StaysClosed(s, s') else OpensAt(d, d', policy, o.observedAt))
         case TerminalFailure =>
           && EndsAt(d, d', o.observedAt)
           && s'.consecutiveFailures == policy.failureThreshold && s'.recoverySuccesses == s.recoverySuccesses
  {
  }

  /** A closed circuit of the same generation, of which only failures and clocks may have changed. */
  predicate StaysClosed(s: CircuitSnapshot, s': CircuitSnapshot) {
    && s.state == s'.state == Closed && s'.generation == s.generation
    && s'.recoverySuccesses == s.recoverySuccesses && s'.halfOpenInFlight == s.halfOpenInFlight
    && s'.openedAt == s.openedAt && s'.recoveryEligibleAt == s.recoveryEligibleAt
  }

  /** Which answer an observation gets, and that a refused one changes nothing. */
  lemma ObservationAnswer(d: CircuitData, policy: CircuitPolicy, o: CircuitObservation)
    requires Inv(d, policy)
    ensures
      var (d', r) := Observe(d, policy, o);
      var s := d.snapshot;
      var mine := o.accountId == s.accountId;
      var current := mine && o.generation == s.generation;
      var timely := current && InOrder(s, o.observedAt, o.monotonic);
      var exhausted :=
        || (o.outcome == TerminalFailure && s.generation == U64_MAX)
        || (o.outcome == RetryableFailure && s.consecutiveFailures + 1 == policy.failureThreshold
            && (s.generation == U64_MAX || o.observedAt + policy.recoveryWindowMillis > U64_MAX));
      && (r == Err(AccountMismatch) <==> !mine)
      && (r == Err(GenerationConflict) <==> mine && !current)
      && (r == Err(TimestampOutOfOrder) <==> current && !timely)
      && (r == Err(InvalidTransition) <==> timely && s.state != Closed)
      && (r == Err(VersionExhausted) <==> timely && s.state == Closed && exhausted)
      && (r.Ok? <==> timely && s.state == Closed && !exhausted)
      && (r.Err? ==> d' == d)
  {
  }

  // ---------- Probes ----------

  /** An outstanding lease of this account and generation, presented in order. */
  predicate Presented(d: CircuitData, lease: ProbeLease, at: u64, monotonic: Monotonic) {
    && lease.accountId == d.snapshot.accountId && lease.generation == d.snapshot.generation
    && InOrder(d.snapshot, at, monotonic)
    && exists i :: 0 <= i < |d.leases| && d.leases[i].id == lease.id
  }

  /** What an admitted probe is given and leaves behind. */
  lemma AdmissionEffect(d: CircuitData, policy: CircuitPolicy, generation: u64, at: u64, monotonic: Monotonic)
    requires Inv(d, policy) && Acquire(d, policy, generation, at, monotonic).1.Ok?
    ensures monotonic + policy.probeLeaseMillis <= MAX_MONOTONIC
    ensures
      var (d', r) := Acquire(d, policy, generation, at, monotonic);
      var s, s' := d.snapshot, d'.snapshot;
      var until: Monotonic := monotonic + policy.probeLeaseMillis;
      && r == Ok(ProbeLease(s.accountId, generation, d.nextLeaseId, monotonic, until))
      && d'.leases == d.leases + [LeaseRecord(d.nextLeaseId, until)] && d'.nextLeaseId == d.nextLeaseId + 1
      && s'.state == HalfOpen && s'.generation == s.generation == generation && s'.accountId == s.accountId
      && s'.halfOpenInFlight == |d'.leases| && Stamped(s', at, monotonic)
      && s'.recoverySuccesses == (if s.state == HalfOpen then s.recoverySuccesses else 0)
      && s'.consecutiveFailures == s.consecutiveFailures
      && s'.openedAt == s.openedAt && s'.recoveryEligibleAt == s.recoveryEligibleAt
  {
  }

  /** There is a generation to open in and a time to become eligible at. */
  predicate RoomToOpen(s: CircuitSnapshot, policy: CircuitPolicy, at: u64) {
    s.generation < U64_MAX && at + policy.recoveryWindowMillis <= U64_MAX
  }

  predicate SomeRanOut(leases: seq<LeaseRecord>, monotonic: Monotonic) {
    exists i :: 0 <= i < |leases| && leases[i].expiresAt <= monotonic
  }

  /** The recovery window has passed since the circuit opened. */
  predicate WindowPassed(s: CircuitSnapshot, policy: CircuitPolicy, at: u64) {
    s.openedAt.Some? && s.openedAt.value + policy.recoveryWindowMillis <= at
  }

  /** Which answer a request for a probe gets. */
  lemma AdmissionAnswer(d: CircuitData, policy: CircuitPolicy, generation: u64, at: u64, monotonic: Monotonic)
    requires Inv(d, policy)
    ensures
      var r := Acquire(d, policy, generation, at, monotonic).1;
      var s := d.snapshot;
      var timely := InOrder(s, at, monotonic);
      var current := timely && generation == s.generation;
      var expired := SomeRanOut(d.leases, monotonic);
      var waits := current && !expired && (s.state == Open || s.state == HalfOpen);
      var open := waits && WindowPassed(s, policy, at);
      var free := open && |d.leases| < policy.maxHalfOpenProbes;
      && (r == Err(TimestampOutOfOrder) <==> !timely)
      && (r == Err(GenerationConflict) <==> timely && !current)
      && (r == Err(LeaseExpired) <==> current && expired && RoomToOpen(s, policy, at))
      && (r == Err(InvalidTransition) <==> current && !expired && s.state == Closed)
      && (r == Err(AdministrativeResetRequired) <==> current && !expired && s.state == Terminal)
      && (r == Err(RecoveryWindowClosed) <==> waits && !open)
      && (r == Err(ProbeLimitReached) <==> open && !free)
      && (r == Err(VersionExhausted) <==>
          (current && expired && !RoomToOpen(s, policy, at)) || (free && d.nextLeaseId == U64_MAX))
      && (r == Err(InvalidArgument) <==>
          free && d.nextLeaseId < U64_MAX && monotonic + policy.probeLeaseMillis > MAX_MONOTONIC)
  {
    assert AnyExpired(d.leases, monotonic) <==> SomeRanOut(d.leases, monotonic);
    hide AnyExpired, SomeRanOut, LeasesOrdered, Reopen, Admitted;
    assert Reopen(d, policy, at, monotonic).1 ==
           if RoomToOpen(d.snapshot, policy, at) then LeaseExpired else VersionExhausted by {
      ReopenAnswer(d, policy, at, monotonic);
    }
  }

  lemma ReopenAnswer(d: CircuitData, policy: CircuitPolicy, at: u64, monotonic: Monotonic)
    ensures Reopen(d, policy, at, monotonic).1 ==
              if RoomToOpen(d.snapshot, policy, at) then LeaseExpired else VersionExhausted
  {
  }

  /** What a refused request for a probe leaves behind. */
  lemma RefusedAdmissionEffect(d: CircuitData, policy: CircuitPolicy, generation: u64, at: u64, monotonic: Monotonic)
    requires Inv(d, policy)
    ensures
      var (d', r) := Acquire(d, policy, generation, at, monotonic);
      && (r == Err(LeaseExpired) ==> Reopens(d, d', policy, at, monotonic))
      && (r.Err? && r.error != LeaseExpired ==> d' == d)
  {
  }

  /** What finding an expired lease does: the circuit opens anew and keeps its failures. */
  predicate Reopens(d: CircuitData, d': CircuitData, policy: CircuitPolicy, at: u64, monotonic: Monotonic) {
    && OpensAt(d, d', policy, at) && Stamped(d'.snapshot, at, monotonic)
    && d'.snapshot.consecutiveFailures == d.snapshot.consecutiveFailures
    && d'.snapshot.accountId == d.snapshot.accountId && d'.nextLeaseId == d.nextLeaseId
  }

  /** The answer to a presented lease, from the first requirement it misses. */
  ghost predicate LeaseAnswer(d: CircuitData, d': CircuitData, policy: CircuitPolicy, lease: ProbeLease, at: u64,
                              monotonic: Monotonic, failure: Option<CircuitErrorCode>)
  {
    var s := d.snapshot;
    var mine := lease.accountId == s.accountId;
    var current := mine && lease.generation == s.generation;
    var timely := current && InOrder(s, at, monotonic);
    var known := Presented(d, lease, at, monotonic);
    var room := RoomToOpen(s, policy, at);
    && (failure == Some(AccountMismatch) <==> !mine)
    && (failure == Some(GenerationConflict) <==> mine && !current)
    && (failure == Some(TimestampOutOfOrder) <==> current && !timely)
    && (failure == Some(LeaseConflict) <==> timely && !known)
    && (failure == Some(LeaseExpired) <==> known && lease.expiresAt <= monotonic && room)
    && (known && lease.expiresAt <= monotonic && !room ==> failure == Some(VersionExhausted))
    && (failure == Some(LeaseExpired) ==> Reopens(d, d', policy, at, monotonic))
    && (failure.Some? && failure != Some(LeaseExpired) ==> d' == d)
  }

  /** Revalidation succeeds exactly on a presentable lease before its expiry, and then changes nothing. */
  lemma ValidationAnswer(d: CircuitData, policy: CircuitPolicy, lease: ProbeLease, at: u64, monotonic: Monotonic)
    requires Inv(d, policy)
    ensures
      var (d', r) := ValidateProbe(d, policy, lease, at, monotonic);
      && LeaseAnswer(d, d', policy, lease, at, monotonic, ErrorOf(r))
      && (r.Ok? <==> Presented(d, lease, at, monotonic) && monotonic < lease.expiresAt)
      && (r.Ok? ==> d' == d)
  {
  }

  lemma CompletionAnswer(d: CircuitData, policy: CircuitPolicy, lease: ProbeLease, outcome: CircuitOutcome, at: u64,
                         monotonic: Monotonic)
    requires Inv(d, policy)
    ensures
      var (d', r) := CompleteProbe(d, policy, lease, outcome, at, monotonic);
      && LeaseAnswer(d, d', policy, lease, at, monotonic, ErrorOf(r))
      && (r.Err? && Presented(d, lease, at, monotonic) && monotonic < lease.expiresAt ==> r == Err(VersionExhausted))
  {
  }

  /** What an accepted completion makes of the circuit, outcome by outcome. */
  lemma CompletionEffect(d: CircuitData, policy: CircuitPolicy, lease: ProbeLease, outcome: CircuitOutcome, at: u64,
                         monotonic: Monotonic)
    requires Inv(d, policy) && CompleteProbe(d, policy, lease, outcome, at, monotonic).1.Ok?
    ensures
      var (d', r) := CompleteProbe(d, policy, lease, outcome, at, monotonic);
      var s, s' := d.snapshot, d'.snapshot;
      && Accepts(d, d', r, at, monotonic) && s.state == HalfOpen
      && match outcome
         case TerminalFailure =>
           EndsAt(d, d', at) && s'.recoverySuccesses == 0 && s'.consecutiveFailures == s.consecutiveFailures
         case RetryableFailure =>
           OpensAt(d, d', policy, at) && s'.consecutiveFailures == s.consecutiveFailures
         case Success => Recovers(d, d', policy, lease, s.recoverySuccesses + 1)
         case Neutral => Recovers(d, d', policy, lease, s.recoverySuccesses)
  {
    hide Without;
    CompletionRemoves(d, lease.id);
  }

  /** With `successes` probes succeeded: closed when that is enough and no other lease is out, half-open otherwise. */
  predicate Recovers(d: CircuitData, d': CircuitData, policy: CircuitPolicy, lease: ProbeLease, successes: int) {
    && d'.snapshot.recoverySuccesses == successes
    && if |d.leases| == 1 && successes >= policy.recoverySuccesses then Closes(d, d')
       else
         && d'.snapshot.state == HalfOpen && d'.snapshot.generation == d.snapshot.generation
         && LosesOne(d.leases, d'.leases, lease.id) && d'.snapshot.halfOpenInFlight == |d'.leases|
         && d'.snapshot.consecutiveFailures == d.snapshot.consecutiveFailures
         && d'.snapshot.openedAt == d.snapshot.openedAt
         && d'.snapshot.recoveryEligibleAt == d.snapshot.recoveryEligibleAt
  }

  /** Exactly the lease with that identity is gone; the others keep their order. */
  predicate LosesOne(before: seq<LeaseRecord>, after: seq<LeaseRecord>, id: u64) {
    exists k :: 0 <= k < |before| && before[k].id == id && after == before[..k] + before[k + 1..]
  }

  lemma CompletionRemoves(d: CircuitData, id: u64)
    requires LeasesOrdered(d) && Outstanding(d.leases, id)
    ensures LosesOne(d.leases, Without(d.leases, id), id) && |Without(d.leases, id)| == |d.leases| - 1
  {
    var k :| 0 <= k < |d.leases| && d.leases[k].id == id;
    WithoutAt(d.leases, k);
  }

  // ---------- Reset and creation ----------

  /** A reset takes a terminal circuit of the expected generation back to closed, and nothing else. */
  lemma ResetEffect(d: CircuitData, policy: CircuitPolicy, generation: u64, at: u64, monotonic: Monotonic)
    requires Inv(d, policy)
    ensures
      var (d', r) := Reset(d, generation, at, monotonic);
      var s := d.snapshot;
      var current := generation == s.generation;
      var timely := current && InOrder(s, at, monotonic);
      && (r == Err(GenerationConflict) <==> !current)
      && (r == Err(TimestampOutOfOrder) <==> current && !timely)
      && (r == Err(InvalidTransition) <==> timely && s.state != Terminal)
      && (r == Err(VersionExhausted) <==> timely && s.state == Terminal && s.generation == U64_MAX)
      && (r.Ok? <==> timely && s.state == Terminal && s.generation < U64_MAX)
      && (r.Err? ==> d' == d)
      && (r.Ok? ==> Accepts(d, d', r, at, monotonic) && Closes(d, d') && d'.snapshot.recoverySuccesses == 0)
  {
  }

  /** A new circuit is closed in generation zero, has seen nothing, and accepts its account's first observation. */
  lemma FreshCircuit(policy: CircuitPolicy, accountId: Text, at: u64, monotonic: Monotonic)
    ensures
      var d := Initial(accountId);
      var s := d.snapshot;
      && s.state == Closed && s.generation == 0 && s.consecutiveFailures == 0 && s.recoverySuccesses == 0
      && d.leases == [] && d.nextLeaseId == 1
      && Observe(d, policy, CircuitObservation(accountId, 0, at, monotonic, Neutral)).1.Ok?
  {
  }
}
