/** The values of the budget ledger: policies, requests, records, receipts and failures. */
module BudgetModel {
  import opened Words

  const MAX_POLICIES: nat := 4096
  const MAX_RESERVATIONS: nat := 131072

  datatype BudgetErrorCode =
    | InvalidArgument
    | LimitExceeded
    | DuplicatePolicy
    | DuplicateScopeCurrency
    | NoApplicablePolicy
    | HardLimitExceeded
    | ArithmeticOverflow
    | ReplayConflict
    | ReservationNotFound
    | ReservationFinalized
    | PolicyNotFound

  datatype BudgetRefusalScope = AccountRefusal | RequestRefusal

  datatype BudgetError = BudgetError(code: BudgetErrorCode, refusalScope: Option<BudgetRefusalScope>)

  function Error(code: BudgetErrorCode): BudgetError {
    BudgetError(code, None)
  }

  datatype Money = Money(currency: Text, minorUnits: u64)

  datatype BudgetScope =
    | Tenant(tenantId: Text)
    | Group(tenantId: Text, groupId: Text)
    | Account(tenantId: Text, accountId: Text)

  datatype BudgetContext = BudgetContext(tenantId: Text, groupId: Option<Text>, accountId: Text)

  predicate Matches(scope: BudgetScope, context: BudgetContext) {
    match scope
    case Tenant(t) => t == context.tenantId
    case Group(t, g) => t == context.tenantId && context.groupId == Some(g)
    case Account(t, a) => t == context.tenantId && a == context.accountId
  }

  datatype Enforcement = Hard | Soft

  datatype BudgetPolicy = BudgetPolicy(id: Text, scope: BudgetScope, limit: Money, enforcement: Enforcement)

  datatype ReservationRequest = ReservationRequest(id: Text, context: BudgetContext, amount: Money, expiresAt: u64)

  datatype ReservationState = Reserved | Committed | Released | Expired

  datatype ReservationReceipt = ReservationReceipt(
    id: Text,
    state: ReservationState,
    amount: Money,
    expiresAt: u64,
    appliedPolicies: seq<Text>,
    softLimitBreaches: seq<Text>)

  datatype ReservationRecord = ReservationRecord(
    request: ReservationRequest,
    state: ReservationState,
    appliedPolicies: seq<Text>,
    softLimitBreaches: seq<Text>)
  {
    function Receipt(): ReservationReceipt {
      ReservationReceipt(request.id, state, request.amount, request.expiresAt, appliedPolicies, softLimitBreaches)
    }
  }

  datatype PolicyState = PolicyState(policy: BudgetPolicy, reserved: u64, committed: u64)

  datatype BudgetState = BudgetState(policies: map<Text, PolicyState>, reservations: map<Text, ReservationRecord>)

  /** A policy governs a request when its scope covers the context and the currencies agree. */
  predicate Governs(policy: BudgetPolicy, request: ReservationRequest) {
    Matches(policy.scope, request.context) && policy.limit.currency == request.amount.currency
  }
}
