/** Every transition of the circuit keeps its invariant and its account. */
module CircuitInvariant {
  import opened Words
  import opened CircuitModel

  /** `Without` removes the entry at the first index that carries the identity. */
  lemma {:induction false} WithoutAt(leases: seq<LeaseRecord>, index: nat)
    requires index < |leases|
    requires forall i :: 0 <= i < index ==> leases[i].id != leases[index].id
    ensures Without(leases, leases[index].id) == leases[..index] + leases[index + 1..]
  {
    if index == 0 {
      assert leases[..0] + leases[1..] == leases[1..];
    } else {
      var tail := leases[1..];
      assert tail[index - 1] == leases[index];
      WithoutAt(tail, index - 1);
      assert tail[..index - 1] == leases[1..index] && tail[index..] == leases[index + 1..];
      assert leases[..index] == [leases[0]] + leases[1..index];
    }
  }

  lemma RemovedOrdered(leases: seq<LeaseRecord>, k: nat)
    requires k < |leases| && forall i, j :: 0 <= i < j < |leases| ==> leases[i].id < leases[j].id
    ensures
      var rest := leases[..k] + leases[k + 1..];
      forall i, j :: 0 <= i < j < |rest| ==> rest[i].id < rest[j].id
  {
    var rest := leases[..k] + leases[k + 1..];
    forall i, j | 0 <= i < j < |rest| ensures rest[i].id < rest[j].id {
      var i' := if i < k then i else i + 1;
      var j' := if j < k then j else j + 1;
      assert rest[i] == leases[i'] && rest[j] == leases[j'];
    }
  }

  lemma RemovedBelow(leases: seq<LeaseRecord>, k: nat, bound: nat)
    requires k < |leases| && forall i :: 0 <= i < |leases| ==> leases[i].id < bound
    ensures
      var rest := leases[..k] + leases[k + 1..];
      |rest| == |leases| - 1 && forall i :: 0 <= i < |rest| ==> rest[i].id < bound
  {
  }

  /** Removing one lease keeps the others, in order. */
  lemma WithoutOrdered(d: CircuitData, id: u64)
    requires LeasesOrdered(d) && Outstanding(d.leases, id)
    ensures |Without(d.leases, id)| == |d.leases| - 1
    ensures LeasesOrdered(d.(leases := Without(d.leases, id)))
  {
    hide Without;
    var k :| 0 <= k < |d.leases| && d.leases[k].id == id;
    WithoutAt(d.leases, k);
    RemovedOrdered(d.leases, k);
    RemovedBelow(d.leases, k, d.nextLeaseId);
  }

  /** What stays outstanding when one lease is removed. */
  lemma WithoutRecords(d: CircuitData, id: u64, r: LeaseRecord)
    requires LeasesOrdered(d) && Outstanding(d.leases, id) && r in Without(d.leases, id)
    ensures r in d.leases && r.id != id
  {
    var k :| 0 <= k < |d.leases| && d.leases[k].id == id;
    WithoutAt(d.leases, k);
  }

  lemma InitialInv(accountId: Text, policy: CircuitPolicy)
    ensures Inv(Initial(accountId), policy)
  {
  }

  lemma ObserveInv(d: CircuitData, policy: CircuitPolicy, o: CircuitObservation)
    requires Inv(d, policy)
    ensures Inv(Observe(d, policy, o).0, policy)
    ensures Observe(d, policy, o).0.snapshot.accountId == d.snapshot.accountId
  {
  }

  lemma ReopenInv(d: CircuitData, policy: CircuitPolicy, at: u64, monotonic: Monotonic)
    requires Inv(d, policy)
    ensures Inv(Reopen(d, policy, at, monotonic).0, policy)
  {
  }

  lemma AdmittedInv(d: CircuitData, policy: CircuitPolicy, at: u64, monotonic: Monotonic)
    requires Inv(d, policy) && ProbeRefusal(d, policy, at, monotonic).None?
    ensures Inv(Admitted(d, policy, at, monotonic), policy)
  {
  }

  lemma AcquireInv(d: CircuitData, policy: CircuitPolicy, generation: u64, at: u64, monotonic: Monotonic)
    requires Inv(d, policy)
    ensures Inv(Acquire(d, policy, generation, at, monotonic).0, policy)
    ensures Acquire(d, policy, generation, at, monotonic).0.snapshot.accountId == d.snapshot.accountId
  {
    ReopenInv(d, policy, at, monotonic);
    if ProbeRefusal(d, policy, at, monotonic).None? {
      AdmittedInv(d, policy, at, monotonic);
    }
  }

  lemma ValidateProbeInv(d: CircuitData, policy: CircuitPolicy, lease: ProbeLease, at: u64, monotonic: Monotonic)
    requires Inv(d, policy)
    ensures Inv(ValidateProbe(d, policy, lease, at, monotonic).0, policy)
    ensures ValidateProbe(d, policy, lease, at, monotonic).0.snapshot.accountId == d.snapshot.accountId
  {
    ReopenInv(d, policy, at, monotonic);
  }

  lemma CompleteProbeInv(d: CircuitData, policy: CircuitPolicy, lease: ProbeLease, outcome: CircuitOutcome, at: u64,
                         monotonic: Monotonic)
    requires Inv(d, policy)
    ensures Inv(CompleteProbe(d, policy, lease, outcome, at, monotonic).0, policy)
    ensures CompleteProbe(d, policy, lease, outcome, at, monotonic).0.snapshot.accountId == d.snapshot.accountId
  {
    ReopenInv(d, policy, at, monotonic);
    if LeaseRefusal(d, lease, at, monotonic).None? {
      WithoutOrdered(d, lease.id);
    }
  }

  lemma ResetInv(d: CircuitData, policy: CircuitPolicy, generation: u64, at: u64, monotonic: Monotonic)
    requires Inv(d, policy)
    ensures Inv(Reset(d, generation, at, monotonic).0, policy)
    ensures Reset(d, generation, at, monotonic).0.snapshot.accountId == d.snapshot.accountId
  {
  }
}
