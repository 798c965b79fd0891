/** What each command answers and leaves in the ledger, on requests, records, counters and limits. */
module BudgetEffects {
  import opened Words
  import opened ByteOrder
  import opened BudgetModel
  import opened BudgetSums
  import opened BudgetLedger
  import opened BudgetOpening
  import opened BudgetRuns
  import opened BudgetEnforcement

  // ---------- Admission ----------

  /** The policies whose scope and currency a request falls under. */
  ghost function Owing(s: BudgetState, request: ReservationRequest): set<Text> {
    set p | p in s.policies && OwedTo(request, s.policies[p].policy)
  }

  /** What a policy would count with the request on top. */
  function With(ps: PolicyState, request: ReservationRequest): nat {
    ps.committed + ps.reserved + request.amount.minorUnits
  }

  /** The request would take the policy over its limit. */
  predicate Exceeds(ps: PolicyState, request: ReservationRequest) {
    With(ps, request) > ps.policy.limit.minorUnits
  }

  /** The hard policies a request would take over their limit. */
  ghost function HardExceeded(s: BudgetState, request: ReservationRequest): set<Text> {
    set p | p in Owing(s, request) && s.policies[p].policy.enforcement == Hard && Exceeds(s.policies[p], request)
  }

  ghost predicate Countable(s: BudgetState, request: ReservationRequest) {
    forall p :: p in Owing(s, request) ==> With(s.policies[p], request) <= U64_MAX
  }

  /** A refusal concerns the account alone when every hard policy it exceeds does. */
  ghost function ExceededScope(s: BudgetState, request: ReservationRequest): BudgetRefusalScope {
    if forall p :: p in HardExceeded(s, request) ==> s.policies[p].policy.scope.Account?
    then AccountRefusal else RequestRefusal
  }

  function FailureOf<T>(r: Result<T, BudgetError>): Option<BudgetError> {
    if r.Err? then Some(r.error) else None
  }

  /** Why a request with a new identity is refused, if it is: the first requirement it misses. */
  ghost function NewFailure(s: BudgetState, request: ReservationRequest, now: u64): Option<BudgetError> {
    if request.expiresAt <= now then Some(BudgetError(InvalidArgument, None))
    else if |s.reservations| >= MAX_RESERVATIONS then Some(BudgetError(LimitExceeded, None))
    else if Owing(s, request) == {} then Some(BudgetError(NoApplicablePolicy, None))
    else if !Countable(s, request) then Some(BudgetError(ArithmeticOverflow, None))
    else if HardExceeded(s, request) != {} then Some(BudgetError(HardLimitExceeded, Some(ExceededScope(s, request))))
    else None
  }

  lemma OwingIsApplicable(s: BudgetState, request: ReservationRequest)
    ensures Owing(s, request) == Applicable(s.policies, request)
  {
    forall p | p in s.policies
      ensures OwedTo(request, s.policies[p].policy) <==> Governs(s.policies[p].policy, request)
    {
      GovernsExactly(s.policies[p].policy, request);
    }
  }

  lemma CountableExactly(s: BudgetState, request: ReservationRequest, ids: seq<Text>)
    requires forall p :: p in ids <==> p in Owing(s, request)
    ensures Countable(s, request) <==>
            !exists p :: p in ids && Overflows(s.policies[p], request.amount.minorUnits)
  {
    hide OwedTo;
  }

  lemma ExceededExactly(s: BudgetState, request: ReservationRequest, ids: seq<Text>)
    requires forall p :: p in ids <==> p in Owing(s, request)
    ensures forall p ::
              p in Breached(s.policies, ids, request.amount.minorUnits, Hard) <==> p in HardExceeded(s, request)
    ensures HardExceeded(s, request) != {} <==>
            exists p :: p in ids && s.policies[p].policy.enforcement == Hard
                        && Breaches(s.policies[p], request.amount.minorUnits)
  {
    hide OwedTo, Breached;
    if p :| p in HardExceeded(s, request) {
      assert p in ids;
    }
  }

  lemma LocalExactly(s: BudgetState, request: ReservationRequest, ids: seq<Text>)
    requires forall p :: p in ids <==> p in Owing(s, request)
    ensures RefusalScope(s.policies, ids, request.amount.minorUnits) == ExceededScope(s, request)
  {
    ExceededExactly(s, request, ids);
    hide Breached, HardExceeded;
  }

  /** The capacity check, on the policies a request falls under. */
  lemma VerdictExactly(s: BudgetState, request: ReservationRequest, ids: seq<Text>)
    requires forall p :: p in ids <==> p in Owing(s, request)
    ensures
      var v := CapacityVerdict(s.policies, ids, request.amount.minorUnits);
      if !Countable(s, request) then v == Err(BudgetError(ArithmeticOverflow, None))
      else if HardExceeded(s, request) == {} then v.Ok?
      else v == Err(BudgetError(HardLimitExceeded, Some(ExceededScope(s, request))))
  {
    CountableExactly(s, request, ids);
    ExceededExactly(s, request, ids);
    LocalExactly(s, request, ids);
    hide Countable, HardExceeded, Overflows, Breaches, Breached, RefusalScope, ExceededScope, Owing;
  }

  lemma AdmissionAnswer(s: BudgetState, request: ReservationRequest, now: u64)
    ensures FailureOf(Admission(s, request, now)) == NewFailure(s, request, now)
  {
    OwingIsApplicable(s, request);
    VerdictExactly(s, request, Enumerate(Applicable(s.policies, request)));
    hide Countable, HardExceeded, ExceededScope, CapacityVerdict, Owing, Applicable, Enumerate;
  }

  lemma InsertAnswer(s: BudgetState, request: ReservationRequest, now: u64)
    ensures FailureOf(Insert(s, request, now).1) == NewFailure(s, request, now)
    ensures Insert(s, request, now).1.Err? ==> Insert(s, request, now).0 == s
  {
    AdmissionAnswer(s, request, now);
    hide Admission, NewFailure, Record, NewRecord;
  }

  /** Which answer a reservation under a new identity gets; whatever is due expires first. */
  lemma NewReservationAnswer(s: BudgetState, request: ReservationRequest, now: u64)
    requires Inv(s) && request.id !in s.reservations
    ensures ExpiryCovered(s, now)
    ensures FailureOf(Reserve(s, request, now).1) == NewFailure(ExpireDue(s, now), request, now)
    ensures Reserve(s, request, now).1.Err? ==> Reserve(s, request, now).0 == ExpireDue(s, now)
    ensures ReserveFresh(s, request, now) == Reserve(s, request, now)
  {
    hide Inv, ExpiryCovered, ExpireDue, Insert, NewFailure;
    ExpireDuePreserves(s, now);
    ExpireDueTerms(s, now);
    InsertAnswer(ExpireDue(s, now), request, now);
  }

  /** `after` is `before` with the request charged to every policy it falls under. */
  ghost predicate ChargedOnce(before: BudgetState, after: BudgetState, request: ReservationRequest) {
    && after.policies.Keys == before.policies.Keys
    && forall p :: p in before.policies ==>
         && after.policies[p].policy == before.policies[p].policy
         && after.policies[p].committed == before.policies[p].committed
         && after.policies[p].reserved ==
            before.policies[p].reserved + if p in Owing(before, request) then request.amount.minorUnits else 0
  }

  /** The receipt of a new reservation names the charged policies and the soft limits crossed, each in order. */
  ghost predicate NewReceipt(s: BudgetState, request: ReservationRequest, receipt: ReservationReceipt) {
    && receipt.id == request.id && receipt.state == Reserved
    && receipt.amount == request.amount && receipt.expiresAt == request.expiresAt
    && (forall p :: p in receipt.appliedPolicies <==> p in Owing(s, request))
    && (forall p :: p in receipt.softLimitBreaches <==>
          p in Owing(s, request) && s.policies[p].policy.enforcement == Soft && Exceeds(s.policies[p], request))
    && Ascending(receipt.appliedPolicies) && Ascending(receipt.softLimitBreaches)
  }

  lemma {:induction false} BreachedAscends(policies: map<Text, PolicyState>, ids: seq<Text>, amount: u64,
                                           enforcement: Enforcement)
    requires Ascending(ids) && forall p :: p in ids ==> p in policies
    ensures Ascending(Breached(policies, ids, amount, enforcement))
  {
    if ids != [] {
      var init, last := ids[..|ids| - 1], ids[|ids| - 1];
      assert ids == init + [last];
      BreachedAscends(policies, init, amount, enforcement);
      var before := Breached(policies, init, amount, enforcement);
      forall k | 0 <= k < |before| ensures Less(before[k], last) {
        assert before[k] in init;
      }
    }
  }

  lemma SoftExactly(s: BudgetState, request: ReservationRequest, ids: seq<Text>)
    requires Ascending(ids) && forall p :: p in ids <==> p in Owing(s, request)
    ensures
      var soft := Breached(s.policies, ids, request.amount.minorUnits, Soft);
      && Ascending(soft)
      && forall p :: p in soft <==>
           p in Owing(s, request) && s.policies[p].policy.enforcement == Soft && Exceeds(s.policies[p], request)
  {
    BreachedAscends(s.policies, ids, request.amount.minorUnits, Soft);
    hide Breached, Ascending, OwedTo;
  }

  lemma AdmittedSoft(s: BudgetState, request: ReservationRequest, now: u64)
    requires Admission(s, request, now).Ok?
    ensures Admission(s, request, now).value ==
              Breached(s.policies, Enumerate(Applicable(s.policies, request)), request.amount.minorUnits, Soft)
  {
    hide Breached, Enumerate, Applicable, RefusalScope;
  }

  lemma InsertedReceipt(s: BudgetState, request: ReservationRequest, now: u64)
    requires Insert(s, request, now).1.Ok?
    ensures Admission(s, request, now).Ok?
    ensures Insert(s, request, now).1.value ==
              ReservationReceipt(request.id, Reserved, request.amount, request.expiresAt,
                                 Enumerate(Applicable(s.policies, request)), Admission(s, request, now).value)
  {
    hide Admission, Enumerate, Applicable, Record;
  }

  lemma ReceiptIsNew(s: BudgetState, request: ReservationRequest, now: u64)
    requires Insert(s, request, now).1.Ok?
    ensures NewReceipt(s, request, Insert(s, request, now).1.value)
  {
    hide Insert, Enumerate, Ascending, Breached, Applicable, Owing, Admission, Exceeds;
    OwingIsApplicable(s, request);
    EnumerateAscending(Applicable(s.policies, request));
    SoftExactly(s, request, Enumerate(Applicable(s.policies, request)));
    InsertedReceipt(s, request, now);
    AdmittedSoft(s, request, now);
  }

  lemma ChargedIs(s: BudgetState, s': BudgetState, request: ReservationRequest, ids: seq<Text>)
    requires forall p :: p in ids <==> p in Owing(s, request)
    requires forall p :: p in ids ==> p in s.policies && !Overflows(s.policies[p], request.amount.minorUnits)
    requires s'.policies == ChargedPolicies(s.policies, ids, request.amount.minorUnits)
    ensures ChargedOnce(s, s', request)
  {
    hide Owing;
  }

  lemma InsertCharges(s: BudgetState, request: ReservationRequest, now: u64)
    requires Insert(s, request, now).1.Ok?
    ensures ChargedOnce(s, Insert(s, request, now).0, request)
  {
    var ids := Enumerate(Applicable(s.policies, request));
    OwingIsApplicable(s, request);
    forall p | p in ids ensures p in s.policies && !Overflows(s.policies[p], request.amount.minorUnits) {
      AdmittedFits(s, request, now, p);
    }
    hide Admission, Enumerate, Owing, Applicable, Overflows, ChargedOnce, ChargedPolicies;
    ChargedIs(s, Insert(s, request, now).0, request, ids);
  }

  /** What an admitted request leaves: its record, its charges, and nothing else. */
  lemma InsertEffect(s: BudgetState, request: ReservationRequest, now: u64)
    requires Insert(s, request, now).1.Ok?
    ensures
      var (s', r) := Insert(s, request, now);
      && NewReceipt(s, request, r.value) && ChargedOnce(s, s', request)
      && request.id in s'.reservations
      && s'.reservations == s.reservations[request.id := s'.reservations[request.id]]
      && s'.reservations[request.id].request == request
      && ReceiptOf(s'.reservations[request.id], r.value)
  {
    ReceiptIsNew(s, request, now);
    InsertCharges(s, request, now);
    hide NewReceipt, ChargedOnce, Admission, ChargedPolicies, Enumerate, Applicable;
  }

  /** The receipt repeats the record. */
  predicate ReceiptOf(record: ReservationRecord, receipt: ReservationReceipt) {
    && receipt.id == record.request.id && receipt.state == record.state
    && receipt.amount == record.request.amount && receipt.expiresAt == record.request.expiresAt
    && receipt.appliedPolicies == record.appliedPolicies && receipt.softLimitBreaches == record.softLimitBreaches
  }

  lemma NewReservationEffect(s: BudgetState, request: ReservationRequest, now: u64)
    requires Inv(s) && request.id !in s.reservations
    ensures ExpiryCovered(s, now)
    ensures
      var e := ExpireDue(s, now);
      var (s', r) := Reserve(s, request, now);
      r.Ok? ==>
        && NewReceipt(e, request, r.value) && ChargedOnce(e, s', request)
        && request.id in s'.reservations
        && s'.reservations == e.reservations[request.id := s'.reservations[request.id]]
        && s'.reservations[request.id].request == request
        && ReceiptOf(s'.reservations[request.id], r.value)
  {
    hide Inv, ExpiryCovered, ExpireDue, Insert, NewReceipt, ChargedOnce, ReceiptOf;
    ExpireDuePreserves(s, now);
    ExpireDueTerms(s, now);
    var e := ExpireDue(s, now);
    if Insert(e, request, now).1.Ok? {
      InsertEffect(e, request, now);
    }
  }

  // ---------- Known identities ----------

  /** What a known identity is answered: the original receipt while it is reserved and not due, otherwise a refusal. */
  lemma KnownReservationAnswer(s: BudgetState, request: ReservationRequest, now: u64)
    requires Inv(s) && request.id in s.reservations
    ensures ExpiryCovered(s, now)
    ensures
      var (s', r) := Reserve(s, request, now);
      var record := s.reservations[request.id];
      var open := record.state == Reserved && now < record.request.expiresAt;
      && s' == ExpireDue(s, now)
      && (r == Err(BudgetError(ReplayConflict, None)) <==> record.request != request)
      && (r == Err(BudgetError(ReservationFinalized, None)) <==> record.request == request && !open)
      && (r.Ok? <==> record.request == request && open)
      && (r.Ok? ==> ReceiptOf(record, r.value))
    ensures ReserveFresh(s, request, now) == (s, Err(BudgetError(ReplayConflict, None)))
  {
    hide Inv, ExpiryCovered;
    ExpireDuePreserves(s, now);
  }

  // ---------- Expiry ----------

  /** Exactly the reserved records whose deadline has come expire, and they are what is counted. */
  lemma ExpiryEffect(s: BudgetState, now: u64)
    requires Inv(s)
    ensures ExpiryCovered(s, now)
    ensures
      var e := ExpireDue(s, now);
      && e.reservations.Keys == s.reservations.Keys
      && (forall id :: id in s.reservations ==>
            ExpiresOrStays(s.reservations[id], e.reservations[id], now))
      && SamePolicies(s.policies, e.policies)
      && (forall p :: p in e.policies ==>
            && e.policies[p].committed == s.policies[p].committed
            && e.policies[p].reserved == Total(e.reservations, Reserved, p))
    ensures Due(s.reservations, now) ==
              set id | id in s.reservations && s.reservations[id].state == Reserved
                       && s.reservations[id].request.expiresAt <= now
  {
    hide Inv, ExpiryCovered, Total;
    ExpireDuePreserves(s, now);
    ExpireDueTerms(s, now);
    var e := ExpireDue(s, now);
    forall p | p in e.policies ensures e.policies[p].reserved == Total(e.reservations, Reserved, p) {
      ReservedIsTotal(e, p);
    }
  }

  lemma ReservedIsTotal(s: BudgetState, p: Text)
    requires Inv(s) && p in s.policies
    ensures s.policies[p].reserved == Total(s.reservations, Reserved, p)
  {
    assert CountersExact(s, p);
  }

  predicate ExpiresOrStays(before: ReservationRecord, after: ReservationRecord, now: u64) {
    if before.state == Reserved && before.request.expiresAt <= now
    then after.state == Expired && after == before.(state := Expired)
    else after == before
  }

  // ---------- Commit and release ----------

  /** What committing or releasing answers and does to the record and the counters of its policies. */
  lemma SettlementEffect(s: BudgetState, id: Text, target: ReservationState)
    requires Inv(s) && target in {Committed, Released}
    ensures Active(s, id) ==> Covered(s.policies, s.reservations[id], target)
    ensures
      var (t, r) := Transition(s, id, target);
      && (r == Err(BudgetError(ReservationNotFound, None)) <==> id !in s.reservations)
      && (r == Err(BudgetError(ReservationFinalized, None)) <==>
          id in s.reservations && s.reservations[id].state !in {Reserved, target})
      && (r.Ok? <==> id in s.reservations && s.reservations[id].state in {Reserved, target})
      && (r.Ok? && s.reservations[id].state == Reserved ==> SettledAs(s, t, id, target))
      && (r.Ok? && s.reservations[id].state == Reserved ==>
            && ReceiptOf(s.reservations[id].(state := target), r.value))
      && (r.Ok? && s.reservations[id].state == target ==> t == s && ReceiptOf(s.reservations[id], r.value))
      && (r.Err? ==> t == s)
  {
    hide Inv;
    TransitionPreserves(s, id, target);
  }

  /**
   * The record became `target`; its amount left what its policies have reserved and is committed if that is the target.
   */
  ghost predicate SettledAs(s: BudgetState, t: BudgetState, id: Text, target: ReservationState)
    requires id in s.reservations
  {
    var record := s.reservations[id];
    var amount := record.request.amount.minorUnits;
    && t.reservations == s.reservations[id := record.(state := target)]
    && t.policies.Keys == s.policies.Keys
    && forall p :: p in s.policies ==>
         && t.policies[p].policy == s.policies[p].policy
         && t.policies[p].reserved == s.policies[p].reserved - (if p in record.appliedPolicies then amount else 0)
         && t.policies[p].committed ==
            s.policies[p].committed + (if p in record.appliedPolicies && target == Committed then amount else 0)
  }

  // ---------- Opening ----------

  /** Which lists of policies open a ledger, and how the first clash is reported. */
  lemma OpeningAnswer(policies: seq<BudgetPolicy>, i: nat)
    requires i < |policies|
    ensures
      var sameId := exists j :: 0 <= j < i && policies[j].id == policies[i].id;
      var sameScope := exists j :: 0 <= j < i && policies[j].scope == policies[i].scope
                                   && policies[j].limit.currency == policies[i].limit.currency;
      && (Clashes(policies, i) <==> sameId || sameScope)
      && ClashCode(policies, i) == if sameId then DuplicatePolicy else DuplicateScopeCurrency
  {
  }
}
