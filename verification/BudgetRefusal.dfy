/**
 * A run in which a hard-limit refusal changes the ledger: one cap, one small reservation that runs out, one too large.
 */
module BudgetRefusal {
  import opened Words
  import opened ByteOrder
  import opened BudgetModel
  import opened BudgetSums
  import opened BudgetLedger
  import opened BudgetOpening
  import opened BudgetRuns
  import BigEndian

  const TENANT: Text := BigEndian.Ascii("tenant.one")
  const CURRENCY: Text := BigEndian.Ascii("USD")
  const CAP: BudgetPolicy := BudgetPolicy(BigEndian.Ascii("policy.cap"), Tenant(TENANT), Money(CURRENCY, 10), Hard)

  /** A request of the tenant the cap governs. */
  function Asking(id: Text, minorUnits: u64, expiresAt: u64): ReservationRequest {
    ReservationRequest(id, BudgetContext(TENANT, None, BigEndian.Ascii("account.one")), Money(CURRENCY, minorUnits),
                       expiresAt)
  }

  const SMALL: ReservationRequest := Asking(BigEndian.Ascii("reservation.small"), 5, 50)
  const LARGE: ReservationRequest := Asking(BigEndian.Ascii("reservation.large"), 11, 200)

  /** A ledger whose one policy is the cap. */
  ghost predicate Capped(s: BudgetState) {
    s.policies.Keys == {CAP.id} && s.policies[CAP.id].policy == CAP
  }

  lemma CapOpens()
    ensures forall i :: 0 <= i < |[CAP]| ==> !Clashes([CAP], i)
    ensures Inv(Opening([CAP])) && Capped(Opening([CAP])) && Opening([CAP]).reservations == map[]
    ensures Usage(Opening([CAP]).policies[CAP.id]) == 0
  {
    OpeningInv([CAP]);
    assert OpeningPolicies([CAP][..0]) == map[];
  }

  lemma CapApplies(s: BudgetState, request: ReservationRequest)
    requires Capped(s) && Governs(CAP, request)
    ensures Applicable(s.policies, request) == {CAP.id}
  {
  }

  /** What the cap leaves room for is admitted. */
  lemma AdmittedWithinCap(s: BudgetState, request: ReservationRequest, now: u64)
    requires Capped(s) && Governs(CAP, request) && now < request.expiresAt && |s.reservations| < MAX_RESERVATIONS
    requires Usage(s.policies[CAP.id]) + request.amount.minorUnits <= 10
    ensures Admitted(s, request, now)
  {
    CapApplies(s, request);
  }

  /** What the cap leaves no room for is refused for it. */
  lemma RefusedOverCap(s: BudgetState, request: ReservationRequest, now: u64)
    requires Capped(s) && Governs(CAP, request) && now < request.expiresAt && |s.reservations| < MAX_RESERVATIONS
    requires 10 < Usage(s.policies[CAP.id]) + request.amount.minorUnits <= U64_MAX
    ensures Insert(s, request, now) == (s, Err(BudgetError(HardLimitExceeded, Some(RequestRefusal))))
  {
    CapApplies(s, request);
    var ids := Enumerate(Applicable(s.policies, request));
    assert CAP.id in ids;
    assert CAP.id in Breached(s.policies, ids, request.amount.minorUnits, Hard);
  }

  /** The ledger then holds the small reservation and nothing else, reserved until the instant 50. */
  ghost predicate HoldsSmall(s: BudgetState) {
    Capped(s) && s.reservations.Keys == {SMALL.id} && SMALL.id in Due(s.reservations, 60)
  }

  lemma SmallIsRecorded(s: BudgetState)
    requires Capped(s) && Usage(s.policies[CAP.id]) == 0 && s.reservations == map[]
    ensures Admitted(s, SMALL, 0) && HoldsSmall(Record(s, SMALL, 0))
  {
    AdmittedWithinCap(s, SMALL, 0);
  }

  /** With nothing due, reserving is inserting. */
  lemma ReserveInserts(s: BudgetState, request: ReservationRequest, now: u64)
    requires ExpiryCovered(s, now) && Due(s.reservations, now) == {} && request.id !in s.reservations
    ensures Reserve(s, request, now) == Insert(s, request, now)
  {
    hide ExpiryCovered, ExpireDue, Insert, Due;
    NothingDue(s, now);
  }

  lemma SmallIsReserved(s: BudgetState)
    requires Inv(s) && s == Opening([CAP])
    ensures HoldsSmall(Run(s, [ReserveCommand(SMALL, 0)]))
  {
    hide Inv, HoldsSmall, Record, ExpiryCovered, ExpireDue, Reserve, Opening;
    CapOpens();
    var command := ReserveCommand(SMALL, 0);
    ExpireDuePreserves(s, 0);
    ReserveInserts(s, SMALL, 0);
    SmallIsRecorded(s);
    assert Run(s, [command]) == Run(Step(s, command), [command][1..]);
    assert Step(s, command) == Reserve(s, SMALL, 0).0;
  }

  /** After expiry the cap still leaves no room for the large reservation. */
  lemma LargeIsRefused(s: BudgetState)
    requires Inv(s) && HoldsSmall(s)
    ensures ExpiryCovered(s, 60)
    ensures Reserve(s, LARGE, 60) == (ExpireDue(s, 60), Err(BudgetError(HardLimitExceeded, Some(RequestRefusal))))
  {
    hide ExpiryCovered, ExpireDue, Insert, Due, WellFormed, Conserved;
    ExpireDuePreserves(s, 60);
    ExpireDueTerms(s, 60);
    var e := ExpireDue(s, 60);
    assert PolicyWithinLimits(e.policies[CAP.id]);
    assert |e.reservations| == |e.reservations.Keys| == 1;
    RefusedOverCap(e, LARGE, 60);
    assert SMALL.id[12] == 's' as int && LARGE.id[12] == 'l' as int;
  }

  /** The large reservation is then refused by the hard limit, and the ledger is no longer what it was. */
  lemma HardLimitRefusalChangesTheLedger()
    ensures forall i :: 0 <= i < |[CAP]| ==> !Clashes([CAP], i)
    ensures Inv(Opening([CAP]))
    ensures
      var s := Run(Opening([CAP]), [ReserveCommand(SMALL, 0)]);
      && ExpiryCovered(s, 60) && SMALL.id in Due(s.reservations, 60)
      && Reserve(s, LARGE, 60).1 == Err(BudgetError(HardLimitExceeded, Some(RequestRefusal)))
      && Reserve(s, LARGE, 60).0 != s
  {
    hide Inv, Reserve, ExpireDue, ExpiryCovered, Run, Due, Clashes, Opening;
    CapOpens();
    SmallIsReserved(Opening([CAP]));
    var s := Run(Opening([CAP]), [ReserveCommand(SMALL, 0)]);
    LargeIsRefused(s);
    RefusalChangesNothingExactly(s, LARGE, 60);
  }
}
