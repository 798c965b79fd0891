/** The circuit breaker as its methods change it, proved against the transitions of `CircuitModel`. */
module AccountCircuits {
  import opened Words
  import opened CircuitModel
  import opened CircuitInvariant

  function AdvanceClock(s: CircuitSnapshot, at: u64, monotonic: Monotonic): CircuitSnapshot {
    s.(lastObservedAt := Some(at), lastMonotonic := Some(monotonic))
  }

  function NextGeneration(s: CircuitSnapshot): Result<CircuitSnapshot, CircuitErrorCode> {
    match CheckedAdd(s.generation, 1)
    case None => Err(VersionExhausted)
    case Some(g) => Ok(s.(generation := g))
  }

  function MarkOpen(s: CircuitSnapshot, policy: CircuitPolicy): Result<CircuitSnapshot, CircuitErrorCode> {
    if s.lastObservedAt.None? then Err(StateUnavailable)
    else match CheckedAdd(s.lastObservedAt.value, policy.recoveryWindowMillis)
         case None => Err(VersionExhausted)
         case Some(eligible) =>
           Ok(s.(state := Open, openedAt := s.lastObservedAt, recoveryEligibleAt := Some(eligible),
                 recoverySuccesses := 0, halfOpenInFlight := 0))
  }

  function MarkTerminal(s: CircuitSnapshot): CircuitSnapshot {
    s.(state := Terminal, openedAt := s.lastObservedAt, recoveryEligibleAt := None,
       recoverySuccesses := 0, halfOpenInFlight := 0)
  }

  function FailClosed(s: CircuitSnapshot, policy: CircuitPolicy): Result<CircuitSnapshot, CircuitErrorCode> {
    match MarkOpen(s, policy)
    case Err(e) => Err(e)
    case Ok(next) => NextGeneration(next)
  }

  function CloseRecovered(s: CircuitSnapshot, policy: CircuitPolicy): CircuitSnapshot {
    if s.state == HalfOpen && s.recoverySuccesses >= policy.recoverySuccesses && s.halfOpenInFlight == 0
    then s.(state := Closed, consecutiveFailures := 0, openedAt := None, recoveryEligibleAt := None)
    else s
  }

  class AccountCircuit {
    const accountId: Text
    const policy: CircuitPolicy
    var snapshot: CircuitSnapshot
    var leases: seq<LeaseRecord>
    var nextLeaseId: u64

    ghost function Data(): CircuitData
      reads this
    {
      CircuitData(snapshot, leases, nextLeaseId)
    }

    ghost predicate Valid()
      reads this
    {
      Inv(Data(), policy) && snapshot.accountId == accountId
    }

    constructor (accountId: Text, policy: CircuitPolicy)
      ensures Valid()
      ensures this.accountId == accountId && this.policy == policy && Data() == Initial(accountId)
    {
      this.accountId := accountId;
      this.policy := policy;
      snapshot := CircuitSnapshot(accountId, 0, Closed, 0, 0, 0, None, None, None, None);
      leases := [];
      nextLeaseId := 1;
    }

    // ---------- Observation ----------

    method ApplyClosedOutcome(s: CircuitSnapshot, outcome: CircuitOutcome)
      returns (r: Result<CircuitSnapshot, CircuitErrorCode>)
      requires s.state == Closed && s.lastObservedAt.Some? && s.lastMonotonic.Some?
      ensures
        var expected := ObservedSnapshot(s, policy, outcome, s.lastObservedAt.value, s.lastMonotonic.value);
        r.Ok? && (r.value.state == Closed || s.generation < U64_MAX) ==>
          expected == Ok(if r.value.state == Closed then r.value else r.value.(generation := s.generation + 1))
      ensures
        var expected := ObservedSnapshot(s, policy, outcome, s.lastObservedAt.value, s.lastMonotonic.value);
        r.Err? || (r.value.state != Closed && s.generation == U64_MAX) ==> expected == Err(VersionExhausted)
      ensures r.Err? ==> r.error == VersionExhausted
      ensures r.Ok? ==> r.value.generation == s.generation
    {
      var next := s;
      match outcome {
        case Success =>
          next := next.(consecutiveFailures := 0);
        case Neutral =>
        case RetryableFailure =>
          if next.consecutiveFailures == U32_MAX {
            return Err(VersionExhausted);
          }
          next := next.(consecutiveFailures := next.consecutiveFailures + 1);
          if next.consecutiveFailures >= policy.failureThreshold {
            return MarkOpen(next, policy);
          }
        case TerminalFailure =>
          next := next.(consecutiveFailures := policy.failureThreshold);
          next := next.(state := Terminal);
          next := next.(openedAt := next.lastObservedAt);
          next := next.(recoveryEligibleAt := None);
      }
      r := Ok(next);
    }

    method Observe(observation: CircuitObservation) returns (r: Result<CircuitSnapshot, CircuitErrorCode>)
      requires Valid()
      modifies this
      ensures Valid()
      ensures (Data(), r) == CircuitModel.Observe(old(Data()), policy, observation)
    {
      ObserveInv(Data(), policy, observation);
      if observation.accountId != accountId {
        return Err(AccountMismatch);
      }
      if observation.generation != snapshot.generation {
        return Err(GenerationConflict);
      }
      if ClockBehind(snapshot, observation.observedAt, observation.monotonic) {
        return Err(TimestampOutOfOrder);
      }
      if snapshot.state != Closed {
        return Err(InvalidTransition);
      }
      var next := AdvanceClock(snapshot, observation.observedAt, observation.monotonic);
      var applied := ApplyClosedOutcome(next, observation.outcome);
      if applied.Err? {
        return applied;
      }
      next := applied.value;
      if next.state != snapshot.state {
        var advanced := NextGeneration(next);
        if advanced.Err? {
          return advanced;
        }
        next := advanced.value;
      }
      snapshot := next;
      r := Ok(next);
    }

    // ---------- Probe admission ----------

    method ReclaimExpiredLeases(at: u64, monotonic: Monotonic) returns (r: Result<(), CircuitErrorCode>)
      modifies this
      ensures !AnyExpired(old(leases), monotonic) ==> r == Ok(()) && Data() == old(Data())
      ensures AnyExpired(old(leases), monotonic) ==>
                var (d', e) := Reopen(old(Data()), policy, at, monotonic);
                r == Err(e) && Data() == d'
    {
      var expired := false;
      for i := 0 to |leases|
        invariant expired <==> exists j :: 0 <= j < i && monotonic >= leases[j].expiresAt
      {
        if monotonic >= leases[i].expiresAt {
          expired := true;
        }
      }
      if !expired {
        return Ok(());
      }
      var next := AdvanceClock(snapshot, at, monotonic);
      var closed := FailClosed(next, policy);
      if closed.Err? {
        return Err(closed.error);
      }
      leases := [];
      snapshot := closed.value;
      r := Err(LeaseExpired);
    }

    method AdmitProbe(at: u64, monotonic: Monotonic) returns (r: Result<ProbeLease, CircuitErrorCode>)
      requires Valid()
      modifies this
      ensures ProbeRefusal(old(Data()), policy, at, monotonic).Some? ==>
                Data() == old(Data()) && r == Err(ProbeRefusal(old(Data()), policy, at, monotonic).value)
      ensures ProbeRefusal(old(Data()), policy, at, monotonic).None? ==>
                Data() == Admitted(old(Data()), policy, at, monotonic)
                && r == Ok(IssuedLease(old(Data()), policy, monotonic))
    {
      if snapshot.state == Closed {
        return Err(InvalidTransition);
      }
      if snapshot.state == Terminal {
        return Err(AdministrativeResetRequired);
      }
      if snapshot.recoveryEligibleAt.None? {
        return Err(StateUnavailable);
      }
      if at < snapshot.recoveryEligibleAt.value {
        return Err(RecoveryWindowClosed);
      }
      if |leases| >= policy.maxHalfOpenProbes {
        return Err(ProbeLimitReached);
      }
      var nextId := CheckedAdd(nextLeaseId, 1);
      if nextId.None? {
        return Err(VersionExhausted);
      }
      var expires := CheckedAdd(monotonic, policy.probeLeaseMillis);
      if expires.None? {
        return Err(VersionExhausted);
      }
      if expires.value > MAX_MONOTONIC {
        return Err(InvalidArgument);
      }
      if snapshot.state == Open {
        snapshot := snapshot.(state := HalfOpen, recoverySuccesses := 0, halfOpenInFlight := 0);
      }
      var id := nextLeaseId;
      nextLeaseId := nextId.value;
      leases := leases + [LeaseRecord(id, expires.value)];
      snapshot := snapshot.(halfOpenInFlight := |leases|);
      snapshot := AdvanceClock(snapshot, at, monotonic);
      r := Ok(ProbeLease(accountId, snapshot.generation, id, monotonic, expires.value));
    }

    method AcquireProbe(expectedGeneration: u64, at: u64, monotonic: Monotonic)
      returns (r: Result<ProbeLease, CircuitErrorCode>)
      requires Valid()
      modifies this
      ensures Valid()
      ensures (Data(), r) == Acquire(old(Data()), policy, expectedGeneration, at, monotonic)
    {
      AcquireInv(Data(), policy, expectedGeneration, at, monotonic);
      if ClockBehind(snapshot, at, monotonic) {
        return Err(TimestampOutOfOrder);
      }
      if snapshot.generation != expectedGeneration {
        return Err(GenerationConflict);
      }
      var reclaimed := ReclaimExpiredLeases(at, monotonic);
      if reclaimed.Err? {
        return Err(reclaimed.error);
      }
      r := AdmitProbe(at, monotonic);
    }

    // ---------- Probe validation and completion ----------

    method ValidateLeaseRequest(lease: ProbeLease, at: u64, monotonic: Monotonic)
      returns (r: Result<nat, CircuitErrorCode>)
      requires Valid()
      ensures r.Err? <==> LeaseRefusal(Data(), lease, at, monotonic).Some?
      ensures r.Err? ==> LeaseRefusal(Data(), lease, at, monotonic) == Some(r.error)
      ensures r.Ok? ==> r.value < |leases| && leases[r.value].id == lease.id
                        && forall i :: 0 <= i < r.value ==> leases[i].id != lease.id
    {
      if lease.accountId != accountId {
        return Err(AccountMismatch);
      }
      if lease.generation != snapshot.generation {
        return Err(GenerationConflict);
      }
      if ClockBehind(snapshot, at, monotonic) {
        return Err(TimestampOutOfOrder);
      }
      for i := 0 to |leases|
        invariant forall j :: 0 <= j < i ==> leases[j].id != lease.id
      {
        if leases[i].id == lease.id {
          return Ok(i);
        }
      }
      r := Err(LeaseConflict);
    }

    method ExpireProbe(index: nat, at: u64, monotonic: Monotonic) returns (e: CircuitErrorCode)
      requires index < |leases|
      modifies this
      ensures (Data(), e) == Reopen(old(Data()), policy, at, monotonic)
    {
      var next := AdvanceClock(snapshot, at, monotonic);
      var closed := FailClosed(next, policy);
      if closed.Err? {
        return closed.error;
      }
      leases := leases[..index] + leases[index + 1..];
      leases := [];
      snapshot := closed.value;
      e := LeaseExpired;
    }

    method ValidateProbe(lease: ProbeLease, at: u64, monotonic: Monotonic) returns (r: Result<(), CircuitErrorCode>)
      requires Valid()
      modifies this
      ensures Valid()
      ensures (Data(), r) == CircuitModel.ValidateProbe(old(Data()), policy, lease, at, monotonic)
    {
      ValidateProbeInv(Data(), policy, lease, at, monotonic);
      var index := ValidateLeaseRequest(lease, at, monotonic);
      if index.Err? {
        return Err(index.error);
      }
      if monotonic >= lease.expiresAt {
        var e := ExpireProbe(index.value, at, monotonic);
        return Err(e);
      }
      r := Ok(());
    }

    method ApplyProbeOutcome(s: CircuitSnapshot, outcome: CircuitOutcome)
      returns (r: Result<CircuitSnapshot, CircuitErrorCode>)
      requires s.state == HalfOpen
      ensures outcome == Success && s.recoverySuccesses == U32_MAX ==> r == Err(VersionExhausted)
      ensures outcome == Success && s.recoverySuccesses < U32_MAX ==>
                r == Ok(CloseRecovered(s.(recoverySuccesses := s.recoverySuccesses + 1), policy))
      ensures outcome == Neutral ==> r == Ok(CloseRecovered(s, policy))
      ensures outcome == RetryableFailure ==> r == MarkOpen(s, policy)
      ensures outcome == TerminalFailure ==> r == Ok(MarkTerminal(s))
    {
      var next := s;
      match outcome {
        case Success =>
          if next.recoverySuccesses == U32_MAX {
            return Err(VersionExhausted);
          }
          next := next.(recoverySuccesses := next.recoverySuccesses + 1);
        case Neutral =>
        case RetryableFailure =>
          var marked := MarkOpen(next, policy);
          if marked.Err? {
            return marked;
          }
          next := marked.value;
        case TerminalFailure =>
          next := MarkTerminal(next);
      }
      r := Ok(CloseRecovered(next, policy));
    }

    method CompleteValidProbe(index: nat, outcome: CircuitOutcome, at: u64, monotonic: Monotonic)
      returns (r: Result<CircuitSnapshot, CircuitErrorCode>)
      requires Valid() && index < |leases|
      modifies this`leases
      ensures r == CompletedSnapshot(snapshot, policy, |old(leases)| - 1, outcome, at, monotonic)
      ensures r.Err? ==> leases == old(leases)
      ensures r.Ok? ==>
                leases == if r.value.state == HalfOpen then old(leases)[..index] + old(leases)[index + 1..] else []
    {
      var next := snapshot.(halfOpenInFlight := |leases| - 1);
      next := AdvanceClock(next, at, monotonic);
      var applied := ApplyProbeOutcome(next, outcome);
      if applied.Err? {
        return applied;
      }
      next := applied.value;
      if next.state != snapshot.state {
        var advanced := NextGeneration(next);
        if advanced.Err? {
          return advanced;
        }
        next := advanced.value;
      }
      leases := leases[..index] + leases[index + 1..];
      if next.state != HalfOpen {
        leases := [];
      }
      r := Ok(next);
    }

    method CompleteProbe(lease: ProbeLease, outcome: CircuitOutcome, at: u64, monotonic: Monotonic)
      returns (r: Result<CircuitSnapshot, CircuitErrorCode>)
      requires Valid()
      modifies this
      ensures Valid()
      ensures (Data(), r) == CircuitModel.CompleteProbe(old(Data()), policy, lease, outcome, at, monotonic)
    {
      CompleteProbeInv(Data(), policy, lease, outcome, at, monotonic);
      var index := ValidateLeaseRequest(lease, at, monotonic);
      if index.Err? {
        return Err(index.error);
      }
      if monotonic >= lease.expiresAt {
        var e := ExpireProbe(index.value, at, monotonic);
        return Err(e);
      }
      WithoutAt(leases, index.value);
      r := CompleteValidProbe(index.value, outcome, at, monotonic);
      if r.Ok? {
        snapshot := r.value;
      }
    }

    // ---------- Administrative reset ----------

    method Reset(expectedGeneration: u64, at: u64, monotonic: Monotonic)
      returns (r: Result<CircuitSnapshot, CircuitErrorCode>)
      requires Valid()
      modifies this
      ensures Valid()
      ensures (Data(), r) == CircuitModel.Reset(old(Data()), expectedGeneration, at, monotonic)
    {
      ResetInv(Data(), policy, expectedGeneration, at, monotonic);
      if snapshot.generation != expectedGeneration {
        return Err(GenerationConflict);
      }
      if ClockBehind(snapshot, at, monotonic) {
        return Err(TimestampOutOfOrder);
      }
      if snapshot.state != Terminal {
        return Err(InvalidTransition);
      }
      var next := AdvanceClock(snapshot, at, monotonic);
      next := next.(state := Closed, consecutiveFailures := 0, recoverySuccesses := 0, halfOpenInFlight := 0,
                    openedAt := None, recoveryEligibleAt := None);
      var advanced := NextGeneration(next);
      if advanced.Err? {
        return advanced;
      }
      leases := [];
      snapshot := advanced.value;
      r := advanced;
    }
  }
}
