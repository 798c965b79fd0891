/** What holds of the ledger over whole runs of commands. */
module BudgetRuns {
  import opened Words
  import opened ByteOrder
  import opened BudgetModel
  import opened BudgetSums
  import opened BudgetLedger
  import opened BudgetOpening

  datatype Command =
    | ReserveCommand(request: ReservationRequest, now: u64)
    | ReserveFreshCommand(request: ReservationRequest, now: u64)
    | CommitCommand(id: Text)
    | ReleaseCommand(id: Text)
    | ExpireCommand(now: u64)

  ghost function Step(s: BudgetState, c: Command): (s': BudgetState)
    requires Inv(s)
    ensures Inv(s')
  {
    match c
    case ReserveCommand(request, now) => ReservePreserves(s, request, now); Reserve(s, request, now).0
    case ReserveFreshCommand(request, now) => ReservePreserves(s, request, now); ReserveFresh(s, request, now).0
    case CommitCommand(id) => TransitionPreserves(s, id, Committed); Transition(s, id, Committed).0
    case ReleaseCommand(id) => TransitionPreserves(s, id, Released); Transition(s, id, Released).0
    case ExpireCommand(now) => ExpireDuePreserves(s, now); ExpireDue(s, now)
  }

  ghost function Run(s: BudgetState, commands: seq<Command>): (s': BudgetState)
    requires Inv(s)
    ensures Inv(s')
    decreases commands
  {
    if commands == [] then s else Run(Step(s, commands[0]), commands[1..])
  }

  // ---------- Conservation and limits ----------

  /** Whatever is executed, counters equal the sums over the table, fit their words, and hard limits hold. */
  lemma LedgerConserved(policies: seq<BudgetPolicy>, commands: seq<Command>, p: Text)
    requires forall i :: 0 <= i < |policies| ==> !Clashes(policies, i)
    ensures Inv(Opening(policies))
    ensures
      var s := Run(Opening(policies), commands);
      p in s.policies ==>
        && s.policies[p].reserved == Total(s.reservations, Reserved, p)
        && s.policies[p].committed == Total(s.reservations, Committed, p)
        && s.policies[p].committed + s.policies[p].reserved <= U64_MAX
        && (s.policies[p].policy.enforcement == Hard ==>
              s.policies[p].committed + s.policies[p].reserved <= s.policies[p].policy.limit.minorUnits)
  {
    OpeningInv(policies);
    var s := Run(Opening(policies), commands);
    if p in s.policies {
      assert CountersExact(s, p) && PolicyWithinLimits(s.policies[p]);
    }
  }

  /**
   * Settling a reservation succeeds exactly when it is reserved or already settled that way, never for lack of a policy
   * or of room, and repeating a successful call returns the same receipt and changes nothing.
   */
  lemma SettlingIsTotalAndIdempotent(s: BudgetState, id: Text, target: ReservationState)
    requires Inv(s) && (target == Committed || target == Released)
    ensures Active(s, id) ==> Covered(s.policies, s.reservations[id], target)
    ensures
      var (t, r) := Transition(s, id, target);
      && (r.Ok? <==> id in s.reservations && s.reservations[id].state in {Reserved, target})
      && (r.Err? ==> t == s && r.error in {Error(ReservationNotFound), Error(ReservationFinalized)})
      && (r.Ok? ==> !Active(t, id) && Transition(t, id, target) == (t, r))
  {
    TransitionPreserves(s, id, target);
  }

  // ---------- Records never disappear and final states stay final ----------

  /** `b` retains every record of `a`, with the same terms, and every finalized record exactly. */
  ghost predicate Retains(a: BudgetState, b: BudgetState) {
    forall id :: id in a.reservations ==>
      && id in b.reservations
      && SameTerms(a.reservations[id], b.reservations[id])
      && (a.reservations[id].state != Reserved ==> b.reservations[id] == a.reservations[id])
  }

  lemma ExpireRetains(s: BudgetState, now: u64)
    requires ExpiryCovered(s, now)
    ensures Retains(s, ExpireDue(s, now))
  {
  }

  lemma InsertRetains(s: BudgetState, request: ReservationRequest, now: u64)
    requires request.id !in s.reservations
    ensures Retains(s, Insert(s, request, now).0)
  {
  }

  lemma TransitionRetains(s: BudgetState, id: Text, target: ReservationState)
    requires Active(s, id) ==> Covered(s.policies, s.reservations[id], target)
    ensures Retains(s, Transition(s, id, target).0)
  {
  }

  lemma RetainsTransitive(a: BudgetState, b: BudgetState, c: BudgetState)
    requires Retains(a, b) && Retains(b, c)
    ensures Retains(a, c)
  {
  }

  lemma ReserveRetains(s: BudgetState, request: ReservationRequest, now: u64)
    requires ExpiryCovered(s, now)
    ensures Retains(s, Reserve(s, request, now).0)
    ensures Retains(s, ReserveFresh(s, request, now).0)
  {
    var e := ExpireDue(s, now);
    ExpireRetains(s, now);
    if request.id !in s.reservations {
      InsertRetains(e, request, now);
      RetainsTransitive(s, e, Insert(e, request, now).0);
    }
  }

  lemma StepRetains(s: BudgetState, c: Command)
    requires Inv(s)
    ensures Retains(s, Step(s, c))
  {
    hide Inv, Retains, Reserve, ReserveFresh, Transition, ExpireDue, ExpiryCovered;
    match c
    case ReserveCommand(request, now) => ReservePreserves(s, request, now); ReserveRetains(s, request, now);
    case ReserveFreshCommand(request, now) => ReservePreserves(s, request, now); ReserveRetains(s, request, now);
    case CommitCommand(id) => TransitionPreserves(s, id, Committed); TransitionRetains(s, id, Committed);
    case ReleaseCommand(id) => TransitionPreserves(s, id, Released); TransitionRetains(s, id, Released);
    case ExpireCommand(now) => ExpireDuePreserves(s, now); ExpireRetains(s, now);
  }

  lemma {:induction false} RunRetains(s: BudgetState, commands: seq<Command>)
    requires Inv(s)
    ensures Retains(s, Run(s, commands))
    decreases commands
  {
    if commands != [] {
      StepRetains(s, commands[0]);
      RunRetains(Step(s, commands[0]), commands[1..]);
    }
  }

  // ---------- Charging ----------

  /** The reservation a command charges to its policies, if any. */
  ghost function Charging(s: BudgetState, c: Command): Option<ReservationRequest>
    requires Inv(s)
  {
    match c
    case ReserveCommand(request, now) =>
      ReservePreserves(s, request, now);
      if request.id !in s.reservations && Reserve(s, request, now).1.Ok? then Some(request) else None
    case ReserveFreshCommand(request, now) =>
      ReservePreserves(s, request, now);
      if ReserveFresh(s, request, now).1.Ok? then Some(request) else None
    case CommitCommand(_) => None
    case ReleaseCommand(_) => None
    case ExpireCommand(_) => None
  }

  function Usage(ps: PolicyState): nat {
    ps.committed + ps.reserved
  }

  lemma TransitionUsage(s: BudgetState, id: Text, target: ReservationState, p: Text)
    requires Active(s, id) ==> Covered(s.policies, s.reservations[id], target)
    requires p in s.policies
    ensures p in Transition(s, id, target).0.policies
    ensures Usage(Transition(s, id, target).0.policies[p]) <= Usage(s.policies[p])
  {
  }

  lemma ExpireUsage(s: BudgetState, now: u64, p: Text)
    requires ExpiryCovered(s, now) && p in s.policies
    ensures p in ExpireDue(s, now).policies
    ensures ExpireDue(s, now).policies[p].policy == s.policies[p].policy
    ensures Usage(ExpireDue(s, now).policies[p]) <= Usage(s.policies[p])
  {
  }

  /** What inserting a request adds to a policy's usage. */
  lemma InsertUsage(s: BudgetState, request: ReservationRequest, now: u64, p: Text)
    requires p in s.policies
    ensures p in Insert(s, request, now).0.policies
    ensures Usage(Insert(s, request, now).0.policies[p]) ==
            Usage(s.policies[p])
            + if Insert(s, request, now).1.Ok? && Governs(s.policies[p].policy, request)
              then request.amount.minorUnits
              else 0
  {
    if Admitted(s, request, now) {
      assert p in Enumerate(Applicable(s.policies, request)) <==> Governs(s.policies[p].policy, request);
      if Governs(s.policies[p].policy, request) {
        AdmittedFits(s, request, now, p);
      }
    }
  }

  lemma ReserveUsage(s: BudgetState, request: ReservationRequest, now: u64, p: Text)
    requires ExpiryCovered(s, now) && p in s.policies
    ensures p in Reserve(s, request, now).0.policies && p in ReserveFresh(s, request, now).0.policies
    ensures
      var e := ExpireDue(s, now);
      p in e.policies
      && Usage(e.policies[p]) <= Usage(s.policies[p])
      && (request.id in s.reservations ==>
            Reserve(s, request, now).0 == e && ReserveFresh(s, request, now).0 == s)
      && (request.id !in s.reservations ==>
            var (after, answer) := Insert(e, request, now);
            && Reserve(s, request, now) == (after, answer)
            && ReserveFresh(s, request, now) == (after, answer)
            && Usage(after.policies[p]) == Usage(e.policies[p])
               + if answer.Ok? && Governs(s.policies[p].policy, request) then request.amount.minorUnits else 0)
  {
    ExpireUsage(s, now, p);
    InsertUsage(ExpireDue(s, now), request, now, p);
  }

  /** What a command charges to policy `p`. */
  ghost function ChargeOf(s: BudgetState, c: Command, p: Text): nat
    requires Inv(s) && p in s.policies
  {
    var charging := Charging(s, c);
    if charging.Some? && Governs(s.policies[p].policy, charging.value) then charging.value.amount.minorUnits else 0
  }

  /** A command raises a policy's usage by no more than the one reservation it charges there. */
  lemma UsageGrowsOnlyByCharging(s: BudgetState, c: Command, p: Text)
    requires Inv(s) && p in s.policies
    ensures p in Step(s, c).policies
    ensures Usage(Step(s, c).policies[p]) <= Usage(s.policies[p]) + ChargeOf(s, c, p)
  {
    hide Inv, Insert, Reserve, ReserveFresh, Transition, ExpireDue, ExpiryCovered, Usage;
    match c
    case ReserveCommand(request, now) => ReservePreserves(s, request, now); ReserveUsage(s, request, now, p);
    case ReserveFreshCommand(request, now) => ReservePreserves(s, request, now); ReserveUsage(s, request, now, p);
    case CommitCommand(id) => TransitionPreserves(s, id, Committed); TransitionUsage(s, id, Committed, p);
    case ReleaseCommand(id) => TransitionPreserves(s, id, Released); TransitionUsage(s, id, Released, p);
    case ExpireCommand(now) => ExpireDuePreserves(s, now); ExpireUsage(s, now, p);
  }

  ghost function TimesCharged(s: BudgetState, commands: seq<Command>, id: Text): nat
    requires Inv(s)
    decreases commands
  {
    if commands == [] then 0 else
      var charging := Charging(s, commands[0]);
      (if charging.Some? && charging.value.id == id then 1 else 0) +
        TimesCharged(Step(s, commands[0]), commands[1..], id)
  }

  /** No identity is charged twice in any run, and none that is already on the table is charged at all. */
  lemma {:induction false} ChargedAtMostOnce(s: BudgetState, commands: seq<Command>, id: Text)
    requires Inv(s)
    ensures TimesCharged(s, commands, id) <= if id in s.reservations then 0 else 1
    decreases commands
  {
    if commands != [] {
      var c := commands[0];
      ChargedAtMostOnce(Step(s, c), commands[1..], id);
      StepRetains(s, c);
      if Charging(s, c).Some? && Charging(s, c).value.id == id {
        ChargingIsNew(s, c);
      }
    }
  }

  lemma ChargingIsNew(s: BudgetState, c: Command)
    requires Inv(s) && Charging(s, c).Some?
    ensures Charging(s, c).value.id !in s.reservations
    ensures Active(Step(s, c), Charging(s, c).value.id)
  {
    hide Inv, Active, Reserve, ReserveFresh, ExpireDue, ExpiryCovered;
    ReservePreserves(s, c.request, c.now);
    DuplicateIsRefused(s, c.request, c.now);
    if c.request.id !in s.reservations {
      FreshIsActive(s, c.request, c.now);
    }
  }

  lemma DuplicateIsRefused(s: BudgetState, request: ReservationRequest, now: u64)
    requires ExpiryCovered(s, now)
    ensures request.id in s.reservations ==> ReserveFresh(s, request, now).1.Err?
  {
  }

  lemma FreshIsActive(s: BudgetState, request: ReservationRequest, now: u64)
    requires ExpiryCovered(s, now) && request.id !in s.reservations
    ensures Reserve(s, request, now) == ReserveFresh(s, request, now)
    ensures Reserve(s, request, now).1.Ok? ==> Active(Reserve(s, request, now).0, request.id)
  {
    hide ExpiryCovered, Admission, ChargedPolicies;
    ExpireDueTerms(s, now);
  }

  // ---------- Failure atomicity and replay ----------

  /**
   * A refused `reserve` changes nothing but the expiry of what was due; a duplicate `reserve_fresh` changes nothing.
   */
  lemma FailedReserveOnlyExpires(s: BudgetState, request: ReservationRequest, now: u64)
    requires Inv(s)
    ensures ExpiryCovered(s, now)
    ensures Reserve(s, request, now).1.Err? ==> Reserve(s, request, now).0 == ExpireDue(s, now)
    ensures request.id in s.reservations ==>
              ReserveFresh(s, request, now) == (s, Err(Error(ReplayConflict)))
    ensures request.id !in s.reservations ==> ReserveFresh(s, request, now) == Reserve(s, request, now)
  {
    ExpireDuePreserves(s, now);
    ExpireDueTerms(s, now);
  }

  lemma NothingDue(s: BudgetState, now: u64)
    requires ExpiryCovered(s, now) && Due(s.reservations, now) == {}
    ensures ExpireDue(s, now) == s
  {
    assert ExpiredTable(s.reservations, now) == s.reservations;
    assert ExpiredPolicies(s, now) == s.policies;
  }

  lemma SomethingDue(s: BudgetState, now: u64, id: Text)
    requires ExpiryCovered(s, now) && id in Due(s.reservations, now)
    ensures ExpireDue(s, now) != s
  {
    hide ExpiryCovered, ExpiredPolicies;
    assert ExpiredTable(s.reservations, now)[id].state == Expired;
  }

  /** Expiry leaves the ledger exactly as it was if and only if nothing is due. */
  lemma ExpiryChangesExactlyTheDue(s: BudgetState, now: u64)
    requires ExpiryCovered(s, now)
    ensures ExpireDue(s, now) == s <==> Due(s.reservations, now) == {}
  {
    hide ExpiryCovered, ExpireDue, Due;
    if id :| id in Due(s.reservations, now) {
      SomethingDue(s, now, id);
    } else {
      NothingDue(s, now);
    }
  }

  /**
   * A refused `reserve`, for whatever reason, leaves the ledger as it was if and only if nothing was due, and so does a
   * refused `reserve_fresh`, unless it was refused as a duplicate.
   */
  lemma RefusalChangesNothingExactly(s: BudgetState, request: ReservationRequest, now: u64)
    requires Inv(s)
    ensures ExpiryCovered(s, now)
    ensures Reserve(s, request, now).1.Err? ==>
              (Reserve(s, request, now).0 == s <==> Due(s.reservations, now) == {})
    ensures ReserveFresh(s, request, now).1.Err? ==>
              (ReserveFresh(s, request, now).0 == s <==> request.id in s.reservations || Due(s.reservations, now) == {})
  {
    hide Inv, ExpiryCovered, Reserve, ExpireDue, Due;
    FailedReserveOnlyExpires(s, request, now);
    ExpiryChangesExactlyTheDue(s, now);
  }

  /**
   * Replaying an accepted request after any further run, while it is still active, returns the original receipt and
   * charges nothing.
   */
  lemma ReplayReturnsOriginalReceipt(s: BudgetState, request: ReservationRequest, now: u64, commands: seq<Command>,
                                     later: u64)
    requires Inv(s)
    requires ExpiryCovered(s, now) && Reserve(s, request, now).1.Ok?
    requires
      var s1 := Run(Step(s, ReserveCommand(request, now)), commands);
      ExpiryCovered(s1, later) && Active(ExpireDue(s1, later), request.id)
    ensures
      var s1 := Run(Step(s, ReserveCommand(request, now)), commands);
      Reserve(s1, request, later) == (ExpireDue(s1, later), Reserve(s, request, now).1)
  {
    var s0 := Step(s, ReserveCommand(request, now));
    ReservePreserves(s, request, now);
    AcceptedIsRecorded(s, request, now);
    RunRetains(s0, commands);
    var s1 := Run(s0, commands);
    ExpireDuePreserves(s1, later);
    ExpireDueTerms(s1, later);
  }

  lemma AcceptedIsRecorded(s: BudgetState, request: ReservationRequest, now: u64)
    requires Inv(s) && ExpiryCovered(s, now) && Reserve(s, request, now).1.Ok?
    ensures Active(Reserve(s, request, now).0, request.id)
    ensures Reserve(s, request, now).0.reservations[request.id].request == request
    ensures Reserve(s, request, now).1.value == Reserve(s, request, now).0.reservations[request.id].Receipt()
  {
    var e := ExpireDue(s, now);
    if request.id !in e.reservations {
      assert Admitted(e, request, now);
    }
  }

  // ---------- Batch expiry against one-by-one expiry ----------

  /** Expiring the listed reservations one after the other through the ordinary transition. */
  ghost function ExpireEach(s: BudgetState, order: seq<Text>): (s': BudgetState)
    requires Inv(s)
    ensures Inv(s')
    decreases order
  {
    if order == [] then s else
      TransitionPreserves(s, order[0], Expired);
      ExpireEach(Transition(s, order[0], Expired).0, order[1..])
  }

  /** The records after the reservations in `ids` became expired. */
  function ExpiredIn(rs: map<Text, ReservationRecord>, ids: set<Text>): map<Text, ReservationRecord> {
    map id | id in rs :: if id in ids then rs[id].(state := Expired) else rs[id]
  }

  ghost predicate AllActive(rs: map<Text, ReservationRecord>, order: seq<Text>) {
    forall k :: 0 <= k < |order| ==> order[k] in rs && rs[order[k]].state == Reserved
  }

  ghost function Elements(order: seq<Text>): set<Text> {
    set id | id in order
  }

  lemma ElementsHead(order: seq<Text>)
    requires order != []
    ensures Elements(order) == {order[0]} + Elements(order[1..])
  {
    assert order == [order[0]] + order[1..];
  }

  lemma ExpireOne(s: BudgetState, id: Text)
    requires Active(s, id) && Covered(s.policies, s.reservations[id], Expired)
    ensures Transition(s, id, Expired).0.reservations == ExpiredIn(s.reservations, {id})
    ensures SamePolicies(s.policies, Transition(s, id, Expired).0.policies)
  {
  }

  lemma RestActive(rs: map<Text, ReservationRecord>, order: seq<Text>)
    requires order != [] && NoDuplicates(order) && AllActive(rs, order)
    ensures AllActive(ExpiredIn(rs, {order[0]}), order[1..]) && NoDuplicates(order[1..])
  {
  }

  lemma ExpiredInTwice(rs: map<Text, ReservationRecord>, a: set<Text>, b: set<Text>)
    ensures ExpiredIn(ExpiredIn(rs, a), b) == ExpiredIn(rs, a + b)
  {
  }

  lemma ExpiredInNothing(rs: map<Text, ReservationRecord>)
    ensures ExpiredIn(rs, {}) == rs
  {
  }

  lemma {:induction false} ExpireEachTable(s: BudgetState, order: seq<Text>)
    requires Inv(s) && NoDuplicates(order) && AllActive(s.reservations, order)
    ensures ExpireEach(s, order).reservations == ExpiredIn(s.reservations, Elements(order))
    decreases order
  {
    if order == [] {
      ExpiredInNothing(s.reservations);
      assert Elements(order) == {};
    } else {
      var id := order[0];
      var s1 := ExpireHead(s, order);
      ExpireEachTable(s1, order[1..]);
      ExpiredInTwice(s.reservations, {id}, Elements(order[1..]));
      ElementsHead(order);
    }
  }

  lemma {:induction false} ExpireEachPolicies(s: BudgetState, order: seq<Text>)
    requires Inv(s) && NoDuplicates(order) && AllActive(s.reservations, order)
    ensures SamePolicies(s.policies, ExpireEach(s, order).policies)
    decreases order
  {
    if order != [] {
      var s1 := ExpireHead(s, order);
      ExpireEachPolicies(s1, order[1..]);
    }
  }

  lemma ExpireHead(s: BudgetState, order: seq<Text>) returns (s1: BudgetState)
    requires Inv(s) && order != [] && NoDuplicates(order) && AllActive(s.reservations, order)
    ensures Inv(s1) && NoDuplicates(order[1..]) && AllActive(s1.reservations, order[1..])
    ensures s1.reservations == ExpiredIn(s.reservations, {order[0]})
    ensures SamePolicies(s.policies, s1.policies)
    ensures ExpireEach(s, order) == ExpireEach(s1, order[1..])
  {
    TransitionPreserves(s, order[0], Expired);
    ExpireOne(s, order[0]);
    s1 := Transition(s, order[0], Expired).0;
    RestActive(s.reservations, order);
  }

  lemma ExpiredInDue(rs: map<Text, ReservationRecord>, now: u64)
    ensures ExpiredIn(rs, Due(rs, now)) == ExpiredTable(rs, now)
  {
  }

  lemma DueActive(rs: map<Text, ReservationRecord>, now: u64, order: seq<Text>)
    requires forall id :: id in order <==> id in Due(rs, now)
    ensures AllActive(rs, order)
    ensures Elements(order) == Due(rs, now)
  {
    forall k | 0 <= k < |order| ensures order[k] in Due(rs, now) {
      assert order[k] in order;
    }
  }

  /** One aggregated pass equals any one-by-one pass over the due reservations: same counters, same records. */
  lemma BatchExpiryIsAnyOrder(s: BudgetState, now: u64, order: seq<Text>)
    requires Inv(s) && NoDuplicates(order)
    requires forall id :: id in order <==> id in Due(s.reservations, now)
    ensures ExpiryCovered(s, now)
    ensures ExpireEach(s, order) == ExpireDue(s, now)
  {
    ExpireDuePreserves(s, now);
    ExpireDueTerms(s, now);
    DueActive(s.reservations, now, order);
    ExpireEachTable(s, order);
    ExpireEachPolicies(s, order);
    ExpiredInDue(s.reservations, now);
    StateDetermined(ExpireEach(s, order), ExpireDue(s, now));
  }

  // ---------- Hierarchy ----------

  lemma SameKindSamePolicy(policies: map<Text, PolicyState>, request: ReservationRequest, p: Text, q: Text)
    requires DistinctScopes(policies)
    requires p in Applicable(policies, request) && q in Applicable(policies, request)
    requires policies[p].policy.scope.Tenant? == policies[q].policy.scope.Tenant?
    requires policies[p].policy.scope.Group? == policies[q].policy.scope.Group?
    ensures p == q
  {
  }

  lemma OneOfEachKind(policies: map<Text, PolicyState>, request: ReservationRequest, kind: set<Text>)
    requires DistinctScopes(policies) && kind <= Applicable(policies, request)
    requires forall p, q :: p in kind && q in kind ==>
               && policies[p].policy.scope.Tenant? == policies[q].policy.scope.Tenant?
               && policies[p].policy.scope.Group? == policies[q].policy.scope.Group?
    ensures |kind| <= 1
  {
    forall p, q | p in kind && q in kind ensures p == q {
      SameKindSamePolicy(policies, request, p, q);
    }
    AtMostOne(kind);
  }

  /** At most one tenant, one group and one account policy govern a request. */
  lemma AtMostThreeApply(policies: map<Text, PolicyState>, request: ReservationRequest)
    requires DistinctScopes(policies)
    ensures |Applicable(policies, request)| <= 3
  {
    hide DistinctScopes, Governs;
    var all := Applicable(policies, request);
    var tenants := set p | p in all && policies[p].policy.scope.Tenant?;
    var groups := set p | p in all && policies[p].policy.scope.Group?;
    var accounts := set p | p in all && policies[p].policy.scope.Account?;
    assert all == tenants + groups + accounts;
    OneOfEachKind(policies, request, tenants);
    OneOfEachKind(policies, request, groups);
    OneOfEachKind(policies, request, accounts);
    UnionBound(tenants, groups);
    UnionBound(tenants + groups, accounts);
  }

  lemma UnionBound(a: set<Text>, b: set<Text>)
    ensures |a + b| <= |a| + |b|
  {
    assert a + b == a + (b - a);
    assert |a + (b - a)| == |a| + |b - a|;
    assert b == (b - a) + (b * a);
    assert |(b - a) + (b * a)| == |b - a| + |b * a|;
  }

  lemma AtMostOne(s: set<Text>)
    requires forall x, y :: x in s && y in s ==> x == y
    ensures |s| <= 1
  {
    if s != {} {
      var x :| x in s;
      assert s == {x};
    }
  }

  /** The verdict on capacity does not depend on the order in which the policies are visited. */
  lemma VerdictIgnoresOrder(policies: map<Text, PolicyState>, a: seq<Text>, b: seq<Text>, amount: u64)
    requires forall p :: p in a <==> p in b
    requires forall p :: p in a ==> p in policies
    ensures CapacityVerdict(policies, a, amount).Ok? <==> CapacityVerdict(policies, b, amount).Ok?
    ensures CapacityVerdict(policies, a, amount).Err? ==>
              CapacityVerdict(policies, a, amount) == CapacityVerdict(policies, b, amount)
    ensures CapacityVerdict(policies, a, amount).Ok? ==>
              forall p :: p in CapacityVerdict(policies, a, amount).value <==>
                p in CapacityVerdict(policies, b, amount).value
  {
    assert RefusalScope(policies, a, amount) == RefusalScope(policies, b, amount);
  }

  /** A refusal is account-local exactly when the one breached hard policy governs the account alone. */
  lemma AccountRefusalIsOnePolicy(policies: map<Text, PolicyState>, request: ReservationRequest, h: Text)
    requires DistinctScopes(policies)
    requires h in Breached(policies, Enumerate(Applicable(policies, request)), request.amount.minorUnits, Hard)
    ensures
      var ids := Enumerate(Applicable(policies, request));
      var amount := request.amount.minorUnits;
      RefusalScope(policies, ids, amount) == AccountRefusal
      <==> policies[h].policy.scope.Account? && forall q :: q in Breached(policies, ids, amount, Hard) ==> q == h
  {
    var ids := Enumerate(Applicable(policies, request));
    var breached := Breached(policies, ids, request.amount.minorUnits, Hard);
    forall q | q in breached && policies[q].policy.scope.Account? && policies[h].policy.scope.Account? ensures q == h {
      SameKindSamePolicy(policies, request, q, h);
    }
  }
}
