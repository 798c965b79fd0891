/** The ledger's invariant and its atomic transitions, as functions on states. */
module BudgetLedger {
  import opened Words
  import opened ByteOrder
  import opened BudgetModel
  import opened BudgetSums

  // ---------- The invariant ----------

  function Applicable(policies: map<Text, PolicyState>, request: ReservationRequest): set<Text> {
    set p | p in policies && Governs(policies[p].policy, request)
  }

  ghost predicate DistinctScopes(policies: map<Text, PolicyState>) {
    forall p, q :: p in policies && q in policies && p != q ==>
      policies[p].policy.scope != policies[q].policy.scope
      || policies[p].policy.limit.currency != policies[q].policy.limit.currency
  }

  ghost predicate WellFormed(s: BudgetState) {
    && (forall p :: p in s.policies ==> s.policies[p].policy.id == p)
    && DistinctScopes(s.policies)
    && (forall id :: id in s.reservations ==> RecordWellFormed(s, id))
    && |s.reservations| <= MAX_RESERVATIONS
  }

  ghost predicate RecordWellFormed(s: BudgetState, id: Text)
    requires id in s.reservations
  {
    var r := s.reservations[id];
    && r.request.id == id
    && r.appliedPolicies == Enumerate(Applicable(s.policies, r.request))
    && r.appliedPolicies != []
  }

  /** Both counters of every policy are the sums over the reservation table. */
  ghost predicate Conserved(s: BudgetState) {
    forall p :: p in s.policies ==> CountersExact(s, p)
  }

  ghost predicate CountersExact(s: BudgetState, p: Text)
    requires p in s.policies
  {
    && s.policies[p].reserved == Total(s.reservations, Reserved, p)
    && s.policies[p].committed == Total(s.reservations, Committed, p)
  }

  predicate PolicyWithinLimits(ps: PolicyState) {
    && ps.committed + ps.reserved <= U64_MAX
    && (ps.policy.enforcement == Hard ==> ps.committed + ps.reserved <= ps.policy.limit.minorUnits)
  }

  ghost predicate WithinLimits(s: BudgetState) {
    forall p :: p in s.policies ==> PolicyWithinLimits(s.policies[p])
  }

  ghost predicate Inv(s: BudgetState) {
    WellFormed(s) && Conserved(s) && WithinLimits(s)
  }

  /** Same policies, whatever the counters. */
  ghost predicate SamePolicies(a: map<Text, PolicyState>, b: map<Text, PolicyState>) {
    a.Keys == b.Keys && forall p :: p in a ==> a[p].policy == b[p].policy
  }

  lemma SamePoliciesApplicable(a: map<Text, PolicyState>, b: map<Text, PolicyState>, request: ReservationRequest)
    requires SamePolicies(a, b)
    ensures Applicable(a, request) == Applicable(b, request)
  {
  }

  /** Well-formedness survives any change to counters and record states. */
  lemma WellFormedKept(s: BudgetState, s': BudgetState)
    requires WellFormed(s) && SamePolicies(s.policies, s'.policies)
    requires SameTable(s.reservations, s'.reservations)
    ensures WellFormed(s')
  {
    assert |s'.reservations.Keys| == |s.reservations.Keys|;
    forall k | k in s'.reservations ensures RecordWellFormed(s', k) {
      assert RecordWellFormed(s, k);
      SamePoliciesApplicable(s.policies, s'.policies, s.reservations[k].request);
    }
  }

  /** Two versions of one record that differ at most in their state. */
  predicate SameTerms(a: ReservationRecord, b: ReservationRecord) {
    b == a.(state := b.state)
  }

  /** The same records up to their states. */
  ghost predicate SameTable(a: map<Text, ReservationRecord>, b: map<Text, ReservationRecord>) {
    a.Keys == b.Keys && forall k :: k in a ==> SameTerms(a[k], b[k])
  }

  /** Conservation leaves the counters no freedom: policies and table determine the state. */
  lemma StateDetermined(a: BudgetState, b: BudgetState)
    requires Conserved(a) && Conserved(b)
    requires SamePolicies(a.policies, b.policies) && a.reservations == b.reservations
    ensures a == b
  {
    forall p | p in a.policies ensures a.policies[p] == b.policies[p] {
      assert CountersExact(a, p) && CountersExact(b, p);
    }
    assert a.policies == b.policies;
  }

  /** An active record's amount is covered by the reserved counter of each policy it was applied to. */
  lemma ActiveChargeCovered(s: BudgetState, id: Text, p: Text)
    requires Inv(s) && id in s.reservations && s.reservations[id].state == Reserved
    requires p in s.reservations[id].appliedPolicies
    ensures p in s.policies
    ensures s.reservations[id].request.amount.minorUnits <= s.policies[p].reserved
    ensures s.policies[p].committed + s.reservations[id].request.amount.minorUnits <= U64_MAX
  {
    assert RecordWellFormed(s, id);
    assert p in s.policies;
    assert PolicyWithinLimits(s.policies[p]) && CountersExact(s, p);
    SumOverRemove(s.reservations, s.reservations.Keys, id, Reserved, p);
  }

  // ---------- Settling one active reservation ----------

  predicate CanMove(ps: PolicyState, amount: u64, target: ReservationState) {
    amount <= ps.reserved && (target == Committed ==> ps.committed + amount <= U64_MAX)
  }

  /** One policy's counters after an active charge of `amount` leaves `Reserved` for `target`. */
  function Moved(ps: PolicyState, amount: u64, target: ReservationState): PolicyState
    requires CanMove(ps, amount, target)
  {
    ps.(reserved := ps.reserved - amount,
        committed := if target == Committed then ps.committed + amount else ps.committed)
  }

  ghost predicate Active(s: BudgetState, id: Text) {
    id in s.reservations && s.reservations[id].state == Reserved
  }

  ghost predicate Covered(policies: map<Text, PolicyState>, r: ReservationRecord, target: ReservationState) {
    forall p :: p in r.appliedPolicies ==> p in policies && CanMove(policies[p], r.request.amount.minorUnits, target)
  }

  lemma ActiveCovered(s: BudgetState, id: Text, target: ReservationState)
    requires Inv(s) && Active(s, id)
    ensures Covered(s.policies, s.reservations[id], target)
  {
    forall p | p in s.reservations[id].appliedPolicies
      ensures p in s.policies && CanMove(s.policies[p], s.reservations[id].request.amount.minorUnits, target)
    {
      ActiveChargeCovered(s, id, p);
    }
  }

  ghost function SettledPolicies(policies: map<Text, PolicyState>, r: ReservationRecord,
                                 target: ReservationState): map<Text, PolicyState>
    requires Covered(policies, r, target)
  {
    map p | p in policies ::
      if p in r.appliedPolicies then Moved(policies[p], r.request.amount.minorUnits, target) else policies[p]
  }

  /** The ledger after the active reservation `id` became `target`. */
  ghost function Settle(s: BudgetState, id: Text, target: ReservationState): BudgetState
    requires Active(s, id) && Covered(s.policies, s.reservations[id], target)
  {
    var r := s.reservations[id];
    BudgetState(SettledPolicies(s.policies, r, target), s.reservations[id := r.(state := target)])
  }

  lemma SettleCounters(s: BudgetState, id: Text, target: ReservationState, p: Text)
    requires Conserved(s) && Active(s, id) && target != Reserved && Covered(s.policies, s.reservations[id], target)
    requires p in s.policies && PolicyWithinLimits(s.policies[p])
    ensures CountersExact(Settle(s, id, target), p)
    ensures PolicyWithinLimits(Settle(s, id, target).policies[p])
  {
    var r' := s.reservations[id].(state := target);
    TotalReplace(s.reservations, id, r', Reserved, p);
    TotalReplace(s.reservations, id, r', Committed, p);
  }

  lemma SettleTerms(s: BudgetState, id: Text, target: ReservationState)
    requires Active(s, id) && Covered(s.policies, s.reservations[id], target)
    ensures SamePolicies(s.policies, Settle(s, id, target).policies)
    ensures SameTable(s.reservations, Settle(s, id, target).reservations)
  {
  }

  lemma SettlePreserves(s: BudgetState, id: Text, target: ReservationState)
    requires Inv(s) && Active(s, id) && target != Reserved && Covered(s.policies, s.reservations[id], target)
    ensures Inv(Settle(s, id, target))
  {
    SettleTerms(s, id, target);
    WellFormedKept(s, Settle(s, id, target));
    forall p | p in s.policies
      ensures CountersExact(Settle(s, id, target), p) && PolicyWithinLimits(Settle(s, id, target).policies[p])
    {
      SettleCounters(s, id, target, p);
    }
  }

  // ---------- Batch expiry ----------

  /** The active reservations whose deadline is at or before `now`. */
  ghost function Due(rs: map<Text, ReservationRecord>, now: u64): set<Text> {
    set id | id in rs && rs[id].state == Reserved && rs[id].request.expiresAt <= now
  }

  ghost function ExpiredTable(rs: map<Text, ReservationRecord>, now: u64): map<Text, ReservationRecord> {
    map id | id in rs :: if id in Due(rs, now) then rs[id].(state := Expired) else rs[id]
  }

  /** Every due charge has a policy to be taken from, and no policy is asked for more than it has reserved. */
  ghost predicate ExpiryCovered(s: BudgetState, now: u64) {
    && (forall id, p :: id in Due(s.reservations, now) && p in s.reservations[id].appliedPolicies ==> p in s.policies)
    && (forall p :: p in s.policies ==>
          SumOver(s.reservations, Due(s.reservations, now), Reserved, p) <= s.policies[p].reserved)
  }

  lemma DueCovered(s: BudgetState, now: u64)
    requires WellFormed(s) && Conserved(s)
    ensures ExpiryCovered(s, now)
  {
    forall p | p in s.policies
      ensures SumOver(s.reservations, Due(s.reservations, now), Reserved, p) <= s.policies[p].reserved
    {
      assert CountersExact(s, p);
      SumOverSplit(s.reservations, s.reservations.Keys, Due(s.reservations, now), Reserved, p);
    }
    forall id, p | id in Due(s.reservations, now) && p in s.reservations[id].appliedPolicies
      ensures p in s.policies
    {
      assert RecordWellFormed(s, id);
    }
  }

  /** The ledger after every due reservation expired at once, each counter decreased by its aggregate. */
  ghost function ExpireDue(s: BudgetState, now: u64): BudgetState
    requires ExpiryCovered(s, now)
  {
    BudgetState(ExpiredPolicies(s, now), ExpiredTable(s.reservations, now))
  }

  ghost function ExpiredPolicies(s: BudgetState, now: u64): map<Text, PolicyState>
    requires ExpiryCovered(s, now)
  {
    map p | p in s.policies ::
      Decreased(s.policies[p], SumOver(s.reservations, Due(s.reservations, now), Reserved, p))
  }

  function Decreased(ps: PolicyState, amount: nat): PolicyState
    requires amount <= ps.reserved
  {
    ps.(reserved := ps.reserved - amount)
  }

  lemma ExpireDueTerms(s: BudgetState, now: u64)
    requires ExpiryCovered(s, now)
    ensures SamePolicies(s.policies, ExpireDue(s, now).policies)
    ensures SameTable(s.reservations, ExpireDue(s, now).reservations)
  {
  }

  lemma ExpireDueCounters(s: BudgetState, now: u64, p: Text)
    requires Conserved(s) && ExpiryCovered(s, now)
    requires p in s.policies && PolicyWithinLimits(s.policies[p])
    ensures p in ExpireDue(s, now).policies
    ensures CountersExact(ExpireDue(s, now), p) && PolicyWithinLimits(ExpireDue(s, now).policies[p])
  {
    assert CountersExact(s, p);
    ExpiredTotals(s.reservations, now, p);
  }

  lemma ExpireDuePreserves(s: BudgetState, now: u64)
    requires Inv(s)
    ensures ExpiryCovered(s, now)
    ensures Inv(ExpireDue(s, now))
  {
    DueCovered(s, now);
    ExpireDueTerms(s, now);
    WellFormedKept(s, ExpireDue(s, now));
    forall p | p in s.policies
      ensures CountersExact(ExpireDue(s, now), p) && PolicyWithinLimits(ExpireDue(s, now).policies[p])
    {
      ExpireDueCounters(s, now, p);
    }
  }

  lemma ExpiredTotals(rs: map<Text, ReservationRecord>, now: u64, p: Text)
    ensures Total(ExpiredTable(rs, now), Reserved, p) == Total(rs, Reserved, p) - SumOver(rs, Due(rs, now), Reserved, p)
    ensures Total(ExpiredTable(rs, now), Committed, p) == Total(rs, Committed, p)
  {
    var rs' := ExpiredTable(rs, now);
    var due := Due(rs, now);
    assert rs'.Keys == rs.Keys;
    SumOverSplit(rs, rs.Keys, due, Reserved, p);
    SumOverSplit(rs', rs.Keys, due, Reserved, p);
    SumOverNothing(rs', due, Reserved, p);
    SumOverAgree(rs, rs', rs.Keys - due, Reserved, p);
    SumOverAgree(rs, rs', rs.Keys, Committed, p);
  }

  // ---------- Admitting a new reservation ----------

  predicate Overflows(ps: PolicyState, amount: u64) {
    ps.committed + ps.reserved + amount > U64_MAX
  }

  predicate Breaches(ps: PolicyState, amount: u64) {
    ps.committed + ps.reserved + amount > ps.policy.limit.minorUnits
  }

  /**
   * The policies in `ids` with the given enforcement that `amount` would push over their limit, in the order of `ids`.
   */
  function Breached(policies: map<Text, PolicyState>, ids: seq<Text>, amount: u64,
                    enforcement: Enforcement): (r: seq<Text>)
    requires forall p :: p in ids ==> p in policies
    ensures forall p :: p in r <==>
              p in ids && policies[p].policy.enforcement == enforcement && Breaches(policies[p], amount)
  {
    if ids == [] then [] else
      var rest := Breached(policies, ids[..|ids| - 1], amount, enforcement);
      var last := ids[|ids| - 1];
      assert forall p :: p in ids <==> p in ids[..|ids| - 1] || p == last by {
        assert ids == ids[..|ids| - 1] + [last];
      }
      if policies[last].policy.enforcement == enforcement && Breaches(policies[last], amount)
      then rest + [last]
      else rest
  }

  /** Account-local exactly when every breached hard policy governs a single account. */
  ghost function RefusalScope(policies: map<Text, PolicyState>, ids: seq<Text>, amount: u64): BudgetRefusalScope
    requires forall p :: p in ids ==> p in policies
  {
    if forall p :: p in Breached(policies, ids, amount, Hard) ==> policies[p].policy.scope.Account?
    then AccountRefusal else RequestRefusal
  }

  /** What the capacity check answers: an overflow anywhere outranks a refusal, a hard breach outranks admission. */
  ghost function CapacityVerdict(policies: map<Text, PolicyState>, ids: seq<Text>,
                                 amount: u64): Result<seq<Text>, BudgetError>
    requires forall p :: p in ids ==> p in policies
  {
    if exists p :: p in ids && Overflows(policies[p], amount) then Err(Error(ArithmeticOverflow))
    else if exists p :: p in ids && policies[p].policy.enforcement == Hard && Breaches(policies[p], amount) then
      Err(BudgetError(HardLimitExceeded, Some(RefusalScope(policies, ids, amount))))
    else Ok(Breached(policies, ids, amount, Soft))
  }

  /** Whether a request with an unused identity is admitted, and which soft limits it crosses. */
  ghost function Admission(s: BudgetState, request: ReservationRequest, now: u64): Result<seq<Text>, BudgetError> {
    var applicable := Applicable(s.policies, request);
    if request.expiresAt <= now then Err(Error(InvalidArgument))
    else if |s.reservations| >= MAX_RESERVATIONS then Err(Error(LimitExceeded))
    else if applicable == {} then Err(Error(NoApplicablePolicy))
    else CapacityVerdict(s.policies, Enumerate(applicable), request.amount.minorUnits)
  }

  ghost predicate Admitted(s: BudgetState, request: ReservationRequest, now: u64) {
    Admission(s, request, now).Ok?
  }

  ghost function NewRecord(s: BudgetState, request: ReservationRequest, soft: seq<Text>): ReservationRecord {
    ReservationRecord(request, Reserved, Enumerate(Applicable(s.policies, request)), soft)
  }

  function Charged(ps: PolicyState, amount: u64): PolicyState
    requires !Overflows(ps, amount)
  {
    ps.(reserved := ps.reserved + amount)
  }

  /** Every governing policy charged once. */
  ghost function ChargedPolicies(policies: map<Text, PolicyState>, ids: seq<Text>, amount: u64): map<Text, PolicyState>
    requires forall p :: p in ids ==> p in policies && !Overflows(policies[p], amount)
  {
    map p | p in policies :: if p in ids then Charged(policies[p], amount) else policies[p]
  }

  /** The ledger after an admitted request was recorded. */
  ghost function Record(s: BudgetState, request: ReservationRequest, now: u64): BudgetState
    requires Admitted(s, request, now)
  {
    BudgetState(
      ChargedPolicies(s.policies, Enumerate(Applicable(s.policies, request)), request.amount.minorUnits),
      s.reservations[request.id := NewRecord(s, request, Admission(s, request, now).value)])
  }

  lemma AdmittedFits(s: BudgetState, request: ReservationRequest, now: u64, p: Text)
    requires Admitted(s, request, now) && p in Applicable(s.policies, request)
    ensures !Overflows(s.policies[p], request.amount.minorUnits)
    ensures s.policies[p].policy.enforcement == Hard ==> !Breaches(s.policies[p], request.amount.minorUnits)
  {
    assert p in Enumerate(Applicable(s.policies, request));
  }

  lemma RecordCounters(s: BudgetState, request: ReservationRequest, now: u64, p: Text)
    requires Conserved(s) && request.id !in s.reservations && Admitted(s, request, now)
    requires p in s.policies && PolicyWithinLimits(s.policies[p])
    ensures CountersExact(Record(s, request, now), p)
    ensures PolicyWithinLimits(Record(s, request, now).policies[p])
  {
    var r := NewRecord(s, request, Admission(s, request, now).value);
    TotalInsert(s.reservations, request.id, r, Reserved, p);
    TotalInsert(s.reservations, request.id, r, Committed, p);
    if p in Applicable(s.policies, request) {
      AdmittedFits(s, request, now, p);
    }
  }

  lemma NewRecordWellFormed(s: BudgetState, request: ReservationRequest, now: u64)
    requires Admitted(s, request, now)
    ensures RecordWellFormed(Record(s, request, now), request.id)
  {
    var applicable := Applicable(s.policies, request);
    assert |Enumerate(applicable)| == |applicable|;
    SamePoliciesApplicable(s.policies, Record(s, request, now).policies, request);
  }

  lemma OldRecordWellFormed(s: BudgetState, request: ReservationRequest, now: u64, k: Text)
    requires Admitted(s, request, now) && k in s.reservations && k != request.id && RecordWellFormed(s, k)
    ensures RecordWellFormed(Record(s, request, now), k)
  {
    SamePoliciesApplicable(s.policies, Record(s, request, now).policies, s.reservations[k].request);
  }

  lemma AdmittedHasRoom(s: BudgetState, request: ReservationRequest, now: u64)
    requires Admitted(s, request, now)
    ensures |s.reservations| < MAX_RESERVATIONS
  {
  }

  lemma RecordPolicies(s: BudgetState, request: ReservationRequest, now: u64)
    requires DistinctScopes(s.policies) && Admitted(s, request, now)
    ensures SamePolicies(s.policies, Record(s, request, now).policies)
            && DistinctScopes(Record(s, request, now).policies)
  {
    hide Admission, NewRecord;
  }

  /** Recording touches counters and one new row only, and fits the table. */
  lemma RecordTable(s: BudgetState, request: ReservationRequest, now: u64)
    requires WellFormed(s) && request.id !in s.reservations && Admitted(s, request, now)
    ensures
      var s' := Record(s, request, now);
      && SamePolicies(s.policies, s'.policies) && DistinctScopes(s'.policies)
      && s'.reservations.Keys == s.reservations.Keys + {request.id}
      && |s'.reservations| <= MAX_RESERVATIONS
  {
    hide RecordWellFormed, Admission, NewRecord, DistinctScopes;
    AdmittedHasRoom(s, request, now);
    RecordPolicies(s, request, now);
    var s' := Record(s, request, now);
    assert s'.reservations.Keys == s.reservations.Keys + {request.id};
    assert |s'.reservations| == |s'.reservations.Keys| == |s.reservations| + 1;
  }

  lemma RecordRecords(s: BudgetState, request: ReservationRequest, now: u64)
    requires WellFormed(s) && request.id !in s.reservations && Admitted(s, request, now)
    ensures WellFormed(Record(s, request, now))
  {
    hide RecordWellFormed, Admission, NewRecord, DistinctScopes;
    var s' := Record(s, request, now);
    RecordTable(s, request, now);
    forall k | k in s'.reservations ensures RecordWellFormed(s', k) {
      if k == request.id {
        NewRecordWellFormed(s, request, now);
      } else {
        OldRecordWellFormed(s, request, now, k);
      }
    }
  }

  lemma RecordPreserves(s: BudgetState, request: ReservationRequest, now: u64)
    requires Inv(s) && request.id !in s.reservations && Admitted(s, request, now)
    ensures Inv(Record(s, request, now))
  {
    var s' := Record(s, request, now);
    forall p | p in s'.policies ensures CountersExact(s', p) && PolicyWithinLimits(s'.policies[p]) {
      RecordCounters(s, request, now, p);
    }
    RecordRecords(s, request, now);
  }

  // ---------- The operations ----------

  /** The answer to a request whose identity is already in the table. */
  function Replay(record: ReservationRecord, request: ReservationRequest): Result<ReservationReceipt, BudgetError> {
    if record.request != request then Err(Error(ReplayConflict))
    else if record.state != Reserved then Err(Error(ReservationFinalized))
    else Ok(record.Receipt())
  }

  ghost function Insert(s: BudgetState, request: ReservationRequest,
                        now: u64): (BudgetState, Result<ReservationReceipt, BudgetError>)
  {
    match Admission(s, request, now)
    case Err(e) => (s, Err(e))
    case Ok(soft) => (Record(s, request, now), Ok(NewRecord(s, request, soft).Receipt()))
  }

  ghost function Reserve(s: BudgetState, request: ReservationRequest,
                         now: u64): (BudgetState, Result<ReservationReceipt, BudgetError>)
    requires ExpiryCovered(s, now)
  {
    var e := ExpireDue(s, now);
    if request.id in e.reservations then (e, Replay(e.reservations[request.id], request)) else Insert(e, request, now)
  }

  ghost function ReserveFresh(s: BudgetState, request: ReservationRequest,
                              now: u64): (BudgetState, Result<ReservationReceipt, BudgetError>)
    requires ExpiryCovered(s, now)
  {
    if request.id in s.reservations then (s, Err(Error(ReplayConflict))) else Insert(ExpireDue(s, now), request, now)
  }

  ghost function Transition(s: BudgetState, id: Text,
                            target: ReservationState): (BudgetState, Result<ReservationReceipt, BudgetError>)
    requires Active(s, id) ==> Covered(s.policies, s.reservations[id], target)
  {
    if id !in s.reservations then (s, Err(Error(ReservationNotFound)))
    else
      var r := s.reservations[id];
      if r.state == target then (s, Ok(r.Receipt()))
      else if r.state != Reserved then (s, Err(Error(ReservationFinalized)))
      else (Settle(s, id, target), Ok(r.(state := target).Receipt()))
  }

  /** No operation, whatever it answers, leaves a state outside the invariant. */
  lemma InsertPreserves(s: BudgetState, request: ReservationRequest, now: u64)
    requires Inv(s) && request.id !in s.reservations
    ensures Inv(Insert(s, request, now).0)
  {
    if Admitted(s, request, now) {
      RecordPreserves(s, request, now);
    }
  }

  lemma ReservePreserves(s: BudgetState, request: ReservationRequest, now: u64)
    requires Inv(s)
    ensures ExpiryCovered(s, now)
    ensures Inv(Reserve(s, request, now).0)
    ensures Inv(ReserveFresh(s, request, now).0)
  {
    ExpireDuePreserves(s, now);
    var e := ExpireDue(s, now);
    ExpireDueTerms(s, now);
    if request.id !in e.reservations {
      InsertPreserves(e, request, now);
    }
  }

  lemma TransitionPreserves(s: BudgetState, id: Text, target: ReservationState)
    requires Inv(s) && target != Reserved
    ensures Active(s, id) ==> Covered(s.policies, s.reservations[id], target)
    ensures Inv(Transition(s, id, target).0)
  {
    if Active(s, id) {
      ActiveCovered(s, id, target);
      SettlePreserves(s, id, target);
    }
  }
}
