/**
 * Which policies a reservation is charged to and what they then allow, with scopes, currencies and limits written out:
 * who governs, what is admitted, what is charged, settled and expired.
 */
module BudgetEnforcement {
  import opened Words
  import opened ByteOrder
  import opened BudgetModel
  import opened BudgetSums
  import opened BudgetLedger
  import opened BudgetOpening
  import opened BudgetRuns

  // ---------- Who governs ----------

  /** A request falls under a scope: its tenant, its group if it has one, or its account, each within the tenant. */
  predicate Under(request: ReservationRequest, scope: BudgetScope) {
    var context := request.context;
    || scope == Tenant(context.tenantId)
    || (context.groupId.Some? && scope == Group(context.tenantId, context.groupId.value))
    || scope == Account(context.tenantId, context.accountId)
  }

  /** A request in a currency, under a scope. */
  predicate Owed(request: ReservationRequest, scope: BudgetScope, currency: Text) {
    Under(request, scope) && request.amount.currency == currency
  }

  predicate OwedTo(request: ReservationRequest, policy: BudgetPolicy) {
    Owed(request, policy.scope, policy.limit.currency)
  }

  lemma GovernsExactly(policy: BudgetPolicy, request: ReservationRequest)
    ensures Governs(policy, request) <==> OwedTo(request, policy)
  {
  }

  lemma StepKeepsPolicies(s: BudgetState, c: Command)
    requires Inv(s)
    ensures SamePolicies(s.policies, Step(s, c).policies)
  {
    hide Inv, Conserved, WithinLimits, WellFormed;
    match c
    case ReserveCommand(request, now) => ReservePreserves(s, request, now); ReserveKeepsPolicies(s, request, now);
    case ReserveFreshCommand(request, now) => ReservePreserves(s, request, now); ReserveKeepsPolicies(s, request, now);
    case CommitCommand(id) => TransitionPreserves(s, id, Committed); TransitionKeepsPolicies(s, id, Committed);
    case ReleaseCommand(id) => TransitionPreserves(s, id, Released); TransitionKeepsPolicies(s, id, Released);
    case ExpireCommand(now) => ExpireDuePreserves(s, now); ExpireDueTerms(s, now);
  }

  lemma TransitionKeepsPolicies(s: BudgetState, id: Text, target: ReservationState)
    requires Active(s, id) ==> Covered(s.policies, s.reservations[id], target)
    ensures SamePolicies(s.policies, Transition(s, id, target).0.policies)
  {
  }

  lemma InsertKeepsPolicies(s: BudgetState, request: ReservationRequest, now: u64)
    ensures SamePolicies(s.policies, Insert(s, request, now).0.policies)
  {
    hide Admission;
  }

  lemma ReserveKeepsPolicies(s: BudgetState, request: ReservationRequest, now: u64)
    requires ExpiryCovered(s, now)
    ensures SamePolicies(s.policies, Reserve(s, request, now).0.policies)
    ensures SamePolicies(s.policies, ReserveFresh(s, request, now).0.policies)
  {
    hide ExpireDue, Insert, ExpiryCovered;
    ExpireDueTerms(s, now);
    InsertKeepsPolicies(ExpireDue(s, now), request, now);
  }

  lemma {:induction false} RunKeepsPolicies(s: BudgetState, commands: seq<Command>)
    requires Inv(s)
    ensures SamePolicies(s.policies, Run(s, commands).policies)
    decreases commands
  {
    hide Inv;
    if commands != [] {
      StepKeepsPolicies(s, commands[0]);
      RunKeepsPolicies(Step(s, commands[0]), commands[1..]);
    }
  }

  /** Every policy of a clash-free list is in the ledger it opens, with nothing charged. */
  lemma {:induction false} OpeningHolds(policies: seq<BudgetPolicy>, i: nat)
    requires i < |policies| && forall k :: 0 <= k < |policies| ==> !Clashes(policies, k)
    ensures policies[i].id in OpeningPolicies(policies)
    ensures OpeningPolicies(policies)[policies[i].id] == PolicyState(policies[i], 0, 0)
  {
    var last := |policies| - 1;
    if i < last {
      var fewer := policies[..last];
      forall k | 0 <= k < last ensures !Clashes(fewer, k) {
        assert !Clashes(policies, k);
      }
      OpeningHolds(fewer, i);
      assert !Clashes(policies, last);
    }
  }

  /** After any run a record is charged to a policy exactly when it falls under its scope in its currency. */
  lemma ChargedExactlyWhereOwed(policies: seq<BudgetPolicy>, commands: seq<Command>, id: Text, i: nat)
    requires forall k :: 0 <= k < |policies| ==> !Clashes(policies, k)
    requires i < |policies|
    ensures Inv(Opening(policies))
    ensures
      var rs := Run(Opening(policies), commands).reservations;
      id in rs ==> (policies[i].id in rs[id].appliedPolicies <==> OwedTo(rs[id].request, policies[i]))
  {
    hide Conserved, WithinLimits, Clashes;
    OpeningInv(policies);
    OpeningHolds(policies, i);
    RunKeepsPolicies(Opening(policies), commands);
    var s := Run(Opening(policies), commands);
    if id in s.reservations {
      assert RecordWellFormed(s, id);
      GovernsExactly(policies[i], s.reservations[id].request);
    }
  }

  // ---------- What hard limits bound ----------

  /** What a record counts towards a scope: its amount while it is reserved or committed. */
  function SpentOf(r: ReservationRecord, scope: BudgetScope, currency: Text): nat {
    if Owed(r.request, scope, currency) && (r.state == Reserved || r.state == Committed)
    then r.request.amount.minorUnits else 0
  }

  /** All that the records in `keys` count towards a scope. */
  ghost function Spent(rs: map<Text, ReservationRecord>, keys: set<Text>, scope: BudgetScope, currency: Text): nat
    requires keys <= rs.Keys
    decreases keys
  {
    if keys == {} then 0 else
      var k :| k in keys;
      SpentOf(rs[k], scope, currency) + Spent(rs, keys - {k}, scope, currency)
  }

  ghost predicate ChargedWhereOwed(rs: map<Text, ReservationRecord>, keys: set<Text>, policy: BudgetPolicy) {
    forall k :: k in keys ==> k in rs && (policy.id in rs[k].appliedPolicies <==> OwedTo(rs[k].request, policy))
  }

  lemma {:induction false} SpentIsCharged(rs: map<Text, ReservationRecord>, keys: set<Text>, policy: BudgetPolicy)
    requires keys <= rs.Keys && ChargedWhereOwed(rs, keys, policy)
    ensures SumOver(rs, keys, Reserved, policy.id) + SumOver(rs, keys, Committed, policy.id) ==
              Spent(rs, keys, policy.scope, policy.limit.currency)
    decreases keys
  {
    if keys != {} {
      var k :| k in keys && Spent(rs, keys, policy.scope, policy.limit.currency) ==
                 SpentOf(rs[k], policy.scope, policy.limit.currency)
                 + Spent(rs, keys - {k}, policy.scope, policy.limit.currency);
      SumOverRemove(rs, keys, k, Reserved, policy.id);
      SumOverRemove(rs, keys, k, Committed, policy.id);
      SpentIsCharged(rs, keys - {k}, policy);
      assert policy.id in rs[k].appliedPolicies <==> OwedTo(rs[k].request, policy);
      assert ChargeTo(rs[k], Reserved, policy.id) + ChargeTo(rs[k], Committed, policy.id) ==
             SpentOf(rs[k], policy.scope, policy.limit.currency);
    }
  }

  /**
   * After any run, what one tenant, group or account has reserved and committed in a currency is what its policy
   * counts, and stays within the limit when that is hard.
   */
  lemma SpendingStaysWithinLimits(policies: seq<BudgetPolicy>, commands: seq<Command>, i: nat)
    requires forall k :: 0 <= k < |policies| ==> !Clashes(policies, k)
    requires i < |policies|
    ensures Inv(Opening(policies))
    ensures
      var s := Run(Opening(policies), commands);
      var spent := Spent(s.reservations, s.reservations.Keys, policies[i].scope, policies[i].limit.currency);
      && policies[i].id in s.policies && s.policies[policies[i].id].policy == policies[i]
      && s.policies[policies[i].id].reserved + s.policies[policies[i].id].committed == spent
      && (policies[i].enforcement == Hard ==> spent <= policies[i].limit.minorUnits)
  {
    OpeningInv(policies);
    var s := Run(Opening(policies), commands);
    forall k | k in s.reservations.Keys
      ensures policies[i].id in s.reservations[k].appliedPolicies <==> OwedTo(s.reservations[k].request, policies[i])
    {
      ChargedExactlyWhereOwed(policies, commands, k, i);
    }
    SpentIsCharged(s.reservations, s.reservations.Keys, policies[i]);
    OpeningHolds(policies, i);
    RunKeepsPolicies(Opening(policies), commands);
    LedgerConserved(policies, commands, policies[i].id);
  }
}
