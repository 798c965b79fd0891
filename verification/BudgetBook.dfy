/** The in-process ledger: maps changed in place, proved against the transitions of `BudgetLedger`. */
module BudgetBooks {
  import opened Words
  import opened ByteOrder
  import opened BudgetModel
  import opened BudgetSums
  import opened BudgetLedger
  import opened BudgetOpening

  function MergeHardScope(current: Option<BudgetRefusalScope>, scope: BudgetScope): BudgetRefusalScope {
    if current == Some(RequestRefusal) || !scope.Account? then RequestRefusal else AccountRefusal
  }

  /** Every record lists each policy once. */
  ghost predicate ListsDistinct(records: seq<ReservationRecord>) {
    forall k :: 0 <= k < |records| ==> Ascending(records[k].appliedPolicies)
  }

  /** Records are stored under their own identity and list each policy once. */
  ghost predicate TableSound(rs: map<Text, ReservationRecord>) {
    forall id :: id in rs ==> rs[id].request.id == id && Ascending(rs[id].appliedPolicies)
  }

  lemma WellFormedTableSound(s: BudgetState)
    requires WellFormed(s)
    ensures TableSound(s.reservations)
  {
    forall id | id in s.reservations
      ensures s.reservations[id].request.id == id && Ascending(s.reservations[id].appliedPolicies)
    {
      assert RecordWellFormed(s, id);
      EnumerateAscending(Applicable(s.policies, s.reservations[id].request));
    }
  }

  /** What the listed records charge to `p` together. */
  ghost function ListSum(records: seq<ReservationRecord>, p: Text): nat {
    if records == [] then 0
    else ListSum(records[..|records| - 1], p) + ChargeTo(records[|records| - 1].(state := Reserved), Reserved, p)
  }

  lemma ListSumExtend(records: seq<ReservationRecord>, i: nat, p: Text)
    requires i < |records|
    ensures ListSum(records[..i + 1], p) ==
              ListSum(records[..i], p) + ChargeTo(records[i].(state := Reserved), Reserved, p)
  {
    assert records[..i + 1][..i] == records[..i];
  }

  lemma {:induction false} ListSumPrefix(records: seq<ReservationRecord>, i: nat, p: Text)
    requires i <= |records|
    ensures ListSum(records[..i], p) <= ListSum(records, p)
    decreases |records| - i
  {
    if i == |records| {
      assert records[..i] == records;
    } else {
      ListSumExtend(records, i, p);
      ListSumPrefix(records, i + 1, p);
    }
  }

  ghost predicate Listed(records: seq<ReservationRecord>, p: Text) {
    exists k :: 0 <= k < |records| && p in records[k].appliedPolicies
  }

  /** `records` enumerates exactly the records of `rs` whose identities lie in `ids`. */
  ghost predicate Lists(records: seq<ReservationRecord>, rs: map<Text, ReservationRecord>, ids: set<Text>) {
    && (forall j, k :: 0 <= j < k < |records| ==> records[j].request.id != records[k].request.id)
    && (forall k :: 0 <= k < |records| ==>
          records[k].request.id in ids && records[k].request.id in rs && records[k] == rs[records[k].request.id])
    && (forall id :: id in ids ==> exists k :: 0 <= k < |records| && records[k].request.id == id)
  }

  lemma {:induction false} ListSumIsSumOver(records: seq<ReservationRecord>, rs: map<Text, ReservationRecord>,
                                            ids: set<Text>, p: Text)
    requires ids <= rs.Keys && Lists(records, rs, ids)
    requires forall id :: id in ids ==> rs[id].state == Reserved
    ensures ListSum(records, p) == SumOver(rs, ids, Reserved, p)
  {
    if records == [] {
      assert ids == {};
    } else {
      var last := records[|records| - 1];
      var rest := records[..|records| - 1];
      assert last.(state := Reserved) == last;
      ListsRest(records, rs, ids);
      ListSumIsSumOver(rest, rs, ids - {last.request.id}, p);
      SumOverRemove(rs, ids, last.request.id, Reserved, p);
    }
  }

  lemma {:induction false} ListsCount(records: seq<ReservationRecord>, rs: map<Text, ReservationRecord>, ids: set<Text>)
    requires Lists(records, rs, ids)
    ensures |records| == |ids|
  {
    if records == [] {
      assert ids == {};
    } else {
      var rest := records[..|records| - 1];
      var last := records[|records| - 1].request.id;
      ListsRest(records, rs, ids);
      ListsCount(rest, rs, ids - {last});
    }
  }

  lemma ListsRest(records: seq<ReservationRecord>, rs: map<Text, ReservationRecord>, ids: set<Text>)
    requires Lists(records, rs, ids) && records != []
    ensures Lists(records[..|records| - 1], rs, ids - {records[|records| - 1].request.id})
    ensures records[|records| - 1].request.id in ids
  {
    var last := records[|records| - 1];
    var rest := records[..|records| - 1];
    forall id | id in ids - {last.request.id} ensures exists k :: 0 <= k < |rest| && rest[k].request.id == id {
      var k :| 0 <= k < |records| && records[k].request.id == id;
      assert rest[k] == records[k];
    }
  }

  /** What the listed due records charge is what the table says is due. */
  lemma DueSums(expired: seq<ReservationRecord>, s: BudgetState, now: u64)
    requires Lists(expired, s.reservations, Due(s.reservations, now))
    ensures forall p :: ListSum(expired, p) == SumOver(s.reservations, Due(s.reservations, now), Reserved, p)
    ensures forall p :: Listed(expired, p) <==>
              exists id :: id in Due(s.reservations, now) && p in s.reservations[id].appliedPolicies
    ensures forall p :: !Listed(expired, p) ==> ListSum(expired, p) == 0
  {
    var due := Due(s.reservations, now);
    forall p ensures ListSum(expired, p) == SumOver(s.reservations, due, Reserved, p) {
      ListSumIsSumOver(expired, s.reservations, due, p);
    }
    forall p ensures Listed(expired, p) <==> exists id :: id in due && p in s.reservations[id].appliedPolicies {
      if Listed(expired, p) {
        var k :| 0 <= k < |expired| && p in expired[k].appliedPolicies;
        assert expired[k].request.id in due;
      }
      if id :| id in due && p in s.reservations[id].appliedPolicies {
        var k :| 0 <= k < |expired| && expired[k].request.id == id;
        assert p in expired[k].appliedPolicies;
      }
    }
    forall p | !Listed(expired, p) ensures ListSum(expired, p) == 0 {
      SumOverNothing(s.reservations, due, Reserved, p);
    }
  }

  /**
   * The aggregated plan is executable exactly when the due charges are covered, and executing it is `ExpiredPolicies`.
   */
  lemma PlanExact(s: BudgetState, now: u64, expired: seq<ReservationRecord>, decrements: map<Text, u64>)
    requires Lists(expired, s.reservations, Due(s.reservations, now))
    requires forall p :: p in decrements <==> Listed(expired, p)
    requires forall p :: p in decrements ==> decrements[p] == ListSum(expired, p)
    requires forall p :: p in decrements ==> p in s.policies && decrements[p] <= s.policies[p].reserved
    ensures ExpiryCovered(s, now)
    ensures ExpiredPolicies(s, now) == map p | p in s.policies ::
                                         if p in decrements
                                         then Decreased(s.policies[p], decrements[p])
                                         else s.policies[p]
  {
    hide Lists, ListSum, SumOver;
    DueSums(expired, s, now);
    forall id, p | id in Due(s.reservations, now) && p in s.reservations[id].appliedPolicies ensures p in s.policies {
      assert Listed(expired, p);
    }
    forall p | p in s.policies
      ensures SumOver(s.reservations, Due(s.reservations, now), Reserved, p) ==
                Decrement(decrements, p) <= s.policies[p].reserved
    {
    }
  }

  lemma PlanFits(s: BudgetState, now: u64, expired: seq<ReservationRecord>)
    requires Lists(expired, s.reservations, Due(s.reservations, now))
    requires ExpiryCovered(s, now)
    ensures forall p :: ListSum(expired, p) <= U64_MAX
    ensures forall p :: Listed(expired, p) ==> p in s.policies && ListSum(expired, p) <= s.policies[p].reserved
  {
    DueSums(expired, s, now);
    forall p ensures ListSum(expired, p) <= U64_MAX {
      if Listed(expired, p) {
        var id :| id in Due(s.reservations, now) && p in s.reservations[id].appliedPolicies;
        assert p in s.policies;
      }
    }
  }

  lemma MarkedTable(rs: map<Text, ReservationRecord>, now: u64, expired: seq<ReservationRecord>)
    requires Lists(expired, rs, Due(rs, now))
    ensures ExpiredTable(rs, now) == map id | id in rs ::
                                       if exists k :: 0 <= k < |expired| && expired[k].request.id == id
                                       then rs[id].(state := Expired) else rs[id]
  {
    forall id | id in rs
      ensures id in Due(rs, now) <==> exists k :: 0 <= k < |expired| && expired[k].request.id == id
    {
    }
  }

  lemma ListsExtend(records: seq<ReservationRecord>, rs: map<Text, ReservationRecord>, ids: set<Text>,
                    record: ReservationRecord)
    requires Lists(records, rs, ids) && record.request.id !in ids
    requires record.request.id in rs && rs[record.request.id] == record
    ensures Lists(records + [record], rs, ids + {record.request.id})
  {
    var all := records + [record];
    forall id | id in ids + {record.request.id} ensures exists k :: 0 <= k < |all| && all[k].request.id == id {
      if id in ids {
        var k :| 0 <= k < |records| && records[k].request.id == id;
        assert all[k].request.id == id;
      } else {
        assert all[|records|].request.id == id;
      }
    }
  }

  lemma ListedExtend(records: seq<ReservationRecord>, i: nat)
    requires i < |records|
    ensures forall p :: Listed(records[..i + 1], p) <==> Listed(records[..i], p) || p in records[i].appliedPolicies
  {
    forall p ensures Listed(records[..i + 1], p) <==> Listed(records[..i], p) || p in records[i].appliedPolicies {
      if Listed(records[..i], p) {
        var k :| 0 <= k < |records[..i]| && p in records[..i][k].appliedPolicies;
        assert records[..i + 1][k] == records[k];
      }
      if p in records[i].appliedPolicies {
        assert records[..i + 1][i] == records[i];
      }
      if Listed(records[..i + 1], p) && p !in records[i].appliedPolicies {
        var k :| 0 <= k < |records[..i + 1]| && p in records[..i + 1][k].appliedPolicies;
        assert records[..i][k] == records[k];
      }
    }
  }

  function Decrement(decrements: map<Text, u64>, p: Text): u64 {
    if p in decrements then decrements[p] else 0
  }

  /** The refusal scope accumulated over the hard breaches among `ids`. */
  ghost function ScopeSoFar(policies: map<Text, PolicyState>, ids: seq<Text>, amount: u64): Option<BudgetRefusalScope>
    requires forall p :: p in ids ==> p in policies
  {
    if Breached(policies, ids, amount, Hard) == [] then None else Some(RefusalScope(policies, ids, amount))
  }

  lemma ScopeSoFarExtend(policies: map<Text, PolicyState>, ids: seq<Text>, i: nat, amount: u64)
    requires i < |ids| && forall p :: p in ids[..i + 1] ==> p in policies
    ensures forall p :: p in ids[..i] ==> p in policies
    ensures ids[i] in policies
    ensures ScopeSoFar(policies, ids[..i + 1], amount) ==
            if policies[ids[i]].policy.enforcement == Hard && Breaches(policies[ids[i]], amount)
            then Some(MergeHardScope(ScopeSoFar(policies, ids[..i], amount), policies[ids[i]].policy.scope))
            else ScopeSoFar(policies, ids[..i], amount)
  {
    assert ids[..i + 1] == ids[..i] + [ids[i]];
    assert ids[..i + 1][..i] == ids[..i];
    var before := Breached(policies, ids[..i], amount, Hard);
    var after := Breached(policies, ids[..i + 1], amount, Hard);
    assert forall p :: p in after <==>
             p in before || (p == ids[i] && policies[p].policy.enforcement == Hard && Breaches(policies[p], amount));
    assert before == [] || before[0] in before;
  }

  lemma ScopeSoFarVerdict(policies: map<Text, PolicyState>, ids: seq<Text>, amount: u64)
    requires forall p :: p in ids ==> p in policies && !Overflows(policies[p], amount)
    ensures ScopeSoFar(policies, ids, amount).Some? <==>
            exists p :: p in ids && policies[p].policy.enforcement == Hard && Breaches(policies[p], amount)
  {
    var breached := Breached(policies, ids, amount, Hard);
    assert breached == [] || breached[0] in breached;
  }

  predicate Planned(update: (Text, u64, u64), id: Text, ps: PolicyState, amount: u64, target: ReservationState)
    requires CanMove(ps, amount, target)
  {
    update.0 == id && ps.(reserved := update.1, committed := update.2) == Moved(ps, amount, target)
  }

  /** `updates` are the moved counters of the record's policies, in order. */
  ghost predicate Plans(updates: seq<(Text, u64, u64)>, policies: map<Text, PolicyState>, r: ReservationRecord,
                        target: ReservationState)
    requires Covered(policies, r, target)
  {
    && |updates| == |r.appliedPolicies|
    && forall j :: 0 <= j < |updates| ==>
         Planned(updates[j], r.appliedPolicies[j], policies[r.appliedPolicies[j]], r.request.amount.minorUnits, target)
  }

  class BudgetBook {
    var policies: map<Text, PolicyState>
    var reservations: map<Text, ReservationRecord>

    ghost function State(): BudgetState
      reads this
    {
      BudgetState(policies, reservations)
    }

    ghost predicate Valid()
      reads this
    {
      Inv(State())
    }

    constructor (states: map<Text, PolicyState>)
      ensures State() == BudgetState(states, map[])
    {
      policies := states;
      reservations := map[];
    }

    static method New(policies: seq<BudgetPolicy>) returns (r: Result<BudgetBook, BudgetError>)
      ensures r.Ok? <==> 0 < |policies| <= MAX_POLICIES && forall i :: 0 <= i < |policies| ==> !Clashes(policies, i)
      ensures r.Ok? ==> fresh(r.value) && r.value.Valid() && r.value.State() == Opening(policies)
      ensures |policies| == 0 ==> r == Err(Error(InvalidArgument))
      ensures |policies| > MAX_POLICIES ==> r == Err(Error(LimitExceeded))
      ensures 0 < |policies| <= MAX_POLICIES && r.Err? ==>
                exists i :: 0 <= i < |policies| && Clashes(policies, i)
                            && (forall j :: 0 <= j < i ==> !Clashes(policies, j))
                            && r.error == Error(ClashCode(policies, i))
    {
      if |policies| == 0 {
        return Err(Error(InvalidArgument));
      }
      if |policies| > MAX_POLICIES {
        return Err(Error(LimitExceeded));
      }
      var identities: set<Text> := {};
      var scopes: set<(BudgetScope, Text)> := {};
      var states: map<Text, PolicyState> := map[];
      for i := 0 to |policies|
        invariant identities == set j | 0 <= j < i :: policies[j].id
        invariant scopes == set j | 0 <= j < i :: ScopeKey(policies[j])
        invariant states == OpeningPolicies(policies[..i])
        invariant forall j :: 0 <= j < i ==> !Clashes(policies, j)
      {
        var policy := policies[i];
        if policy.id in identities {
          assert SameIdBefore(policies, i) && Clashes(policies, i);
          return Err(Error(DuplicatePolicy));
        }
        assert !SameIdBefore(policies, i);
        identities := identities + {policy.id};
        if ScopeKey(policy) in scopes {
          assert SameScopeBefore(policies, i) && Clashes(policies, i);
          return Err(Error(DuplicateScopeCurrency));
        }
        scopes := scopes + {ScopeKey(policy)};
        states := states[policy.id := PolicyState(policy, 0, 0)];
        assert policies[..i + 1][..i] == policies[..i];
      }
      assert policies[..|policies|] == policies;
      var book := new BudgetBook(states);
      OpeningInv(policies);
      r := Ok(book);
    }

    // ---------- Admission ----------

    method ApplicablePolicyIds(request: ReservationRequest) returns (r: Result<seq<Text>, BudgetError>)
      ensures r == (if Applicable(policies, request) == {} then Err(Error(NoApplicablePolicy))
                    else Ok(Enumerate(Applicable(policies, request))))
    {
      hide Ascending, Enumerate, Less;
      var keys := Enumerate(policies.Keys);
      EnumerateAscending(policies.Keys);
      var ids: seq<Text> := [];
      NothingAscending();
      for i := 0 to |keys|
        invariant forall p :: p in ids <==> p in keys[..i] && p in Applicable(policies, request)
        invariant Ascending(ids)
      {
        var ps := policies[keys[i]];
        assert keys[..i + 1] == keys[..i] + [keys[i]];
        if Matches(ps.policy.scope, request.context) && ps.policy.limit.currency == request.amount.currency {
          forall j | 0 <= j < |ids| ensures Less(ids[j], keys[i]) {
            assert ids[j] in keys[..i];
            AscendingBefore(keys, i, ids[j]);
          }
          AscendingAppend(ids, keys[i]);
          ids := ids + [keys[i]];
        }
      }
      assert keys[..|keys|] == keys;
      EnumerateAscending(Applicable(policies, request));
      AscendingUnique(ids, Enumerate(Applicable(policies, request)));
      if ids == [] {
        assert Applicable(policies, request) == {} by {
          assert |Enumerate(Applicable(policies, request))| == |Applicable(policies, request)|;
        }
        return Err(Error(NoApplicablePolicy));
      }
      assert ids[0] in Applicable(policies, request);
      r := Ok(ids);
    }

    method ProjectedUsage(ps: PolicyState, amount: u64) returns (r: Result<u64, BudgetError>)
      ensures r ==
                if Overflows(ps, amount) then Err(Error(ArithmeticOverflow))
                else Ok(ps.committed + ps.reserved + amount)
    {
      var usage := CheckedAdd(ps.committed, ps.reserved);
      if usage.None? {
        return Err(Error(ArithmeticOverflow));
      }
      var total := CheckedAdd(usage.value, amount);
      if total.None? {
        return Err(Error(ArithmeticOverflow));
      }
      r := Ok(total.value);
    }

    method ValidateCapacity(policyIds: seq<Text>, amount: Money) returns (r: Result<seq<Text>, BudgetError>)
      ensures (forall p :: p in policyIds ==> p in policies) ==>
                r == CapacityVerdict(policies, policyIds, amount.minorUnits)
      ensures (exists p :: p in policyIds && p !in policies) ==>
                r.Err? && r.error.code in {PolicyNotFound, ArithmeticOverflow}
    {
      var units := amount.minorUnits;
      var softBreaches: seq<Text> := [];
      var hardScope: Option<BudgetRefusalScope> := None;
      for i := 0 to |policyIds|
        invariant forall p :: p in policyIds[..i] ==> p in policies && !Overflows(policies[p], units)
        invariant softBreaches == Breached(policies, policyIds[..i], units, Soft)
        invariant hardScope == ScopeSoFar(policies, policyIds[..i], units)
      {
        var id := policyIds[i];
        if id !in policies {
          return Err(Error(PolicyNotFound));
        }
        var projected := ProjectedUsage(policies[id], units);
        if projected.Err? {
          return Err(projected.error);
        }
        assert policyIds[..i + 1][..i] == policyIds[..i];
        if projected.value > policies[id].policy.limit.minorUnits {
          match policies[id].policy.enforcement
          case Hard => hardScope := Some(MergeHardScope(hardScope, policies[id].policy.scope));
          case Soft => softBreaches := softBreaches + [id];
        }
        ScopeSoFarExtend(policies, policyIds, i, units);
      }
      assert policyIds[..|policyIds|] == policyIds;
      ScopeSoFarVerdict(policies, policyIds, units);
      if hardScope.Some? {
        return Err(BudgetError(HardLimitExceeded, hardScope));
      }
      r := Ok(softBreaches);
    }

    method ReserveCapacity(policyIds: seq<Text>, amount: u64) returns (r: Result<(), BudgetError>)
      modifies this`policies
      ensures r.Ok? <==> forall p :: p in policyIds ==>
                           p in old(policies) && old(policies)[p].reserved + amount <= U64_MAX
      ensures r.Err? ==> policies == old(policies)
      ensures r.Ok? ==> policies == map p | p in old(policies) ::
                                      if p in policyIds
                                      then old(policies)[p].(reserved := old(policies)[p].reserved + amount)
                                      else old(policies)[p]
    {
      var updates: seq<(Text, u64)> := [];
      for i := 0 to |policyIds|
        invariant |updates| == i
        invariant forall j :: 0 <= j < i ==>
                    && policyIds[j] in policies
                    && policies[policyIds[j]].reserved + amount <= U64_MAX
                    && updates[j] == (policyIds[j], policies[policyIds[j]].reserved + amount)
      {
        var id := policyIds[i];
        if id !in policies {
          return Err(Error(PolicyNotFound));
        }
        var reserved := CheckedAdd(policies[id].reserved, amount);
        if reserved.None? {
          return Err(Error(ArithmeticOverflow));
        }
        updates := updates + [(id, reserved.value)];
      }
      for i := 0 to |updates|
        invariant policies.Keys == old(policies).Keys
        invariant forall p :: p in policies ==>
                    policies[p] ==
                      if p in policyIds[..i]
                      then old(policies)[p].(reserved := old(policies)[p].reserved + amount)
                      else old(policies)[p]
      {
        var id := updates[i].0;
        assert policyIds[..i + 1] == policyIds[..i] + [policyIds[i]];
        policies := policies[id := policies[id].(reserved := updates[i].1)];
      }
      assert policyIds[..|policyIds|] == policyIds;
      r := Ok(());
    }

    method InsertReservation(request: ReservationRequest, now: u64) returns (r: Result<ReservationReceipt, BudgetError>)
      modifies this
      ensures (State(), r) == Insert(old(State()), request, now)
    {
      hide Enumerate, Governs, CapacityVerdict;
      if request.expiresAt <= now {
        return Err(Error(InvalidArgument));
      }
      if |reservations| >= MAX_RESERVATIONS {
        return Err(Error(LimitExceeded));
      }
      var ids := ApplicablePolicyIds(request);
      if ids.Err? {
        return Err(ids.error);
      }
      var policyIds := ids.value;
      var soft := ValidateCapacity(policyIds, request.amount);
      if soft.Err? {
        return Err(soft.error);
      }
      assert Admission(State(), request, now) == Ok(soft.value);
      forall p | p in policyIds ensures p in policies && !Overflows(policies[p], request.amount.minorUnits) {
        AdmittedFits(State(), request, now, p);
      }
      hide Admission, CapacityVerdict, Overflows;
      var charged := ReserveCapacity(policyIds, request.amount.minorUnits);
      var record := ReservationRecord(request, Reserved, policyIds, soft.value);
      var receipt := record.Receipt();
      reservations := reservations[receipt.id := record];
      assert policies == Record(old(State()), request, now).policies;
      r := Ok(receipt);
    }

    // ---------- Settlement ----------

    /** What each applied policy's counters become, or the first that cannot bear the move. */
    method PlanTransition(record: ReservationRecord, target: ReservationState)
        returns (r: Result<seq<(Text, u64, u64)>, BudgetError>)
      ensures r.Ok? <==> Covered(policies, record, target)
      ensures r.Ok? ==> Plans(r.value, policies, record, target)
    {
      var amount := record.request.amount.minorUnits;
      var applied := record.appliedPolicies;
      var updates: seq<(Text, u64, u64)> := [];
      for i := 0 to |applied|
        invariant |updates| == i
        invariant forall j :: 0 <= j < i ==>
                    && applied[j] in policies && CanMove(policies[applied[j]], amount, target)
                    && Planned(updates[j], applied[j], policies[applied[j]], amount, target)
      {
        var id := applied[i];
        if id !in policies {
          return Err(Error(PolicyNotFound));
        }
        var reserved := CheckedSub(policies[id].reserved, amount);
        if reserved.None? {
          return Err(Error(ArithmeticOverflow));
        }
        var committed := policies[id].committed;
        if target == Committed {
          var sum := CheckedAdd(policies[id].committed, amount);
          if sum.None? {
            return Err(Error(ArithmeticOverflow));
          }
          committed := sum.value;
        }
        updates := updates + [(id, reserved.value, committed)];
      }
      r := Ok(updates);
    }

    method ApplyTransitionUsage(record: ReservationRecord, target: ReservationState)
      returns (r: Result<(), BudgetError>)
      modifies this`policies
      ensures r.Ok? <==> Covered(old(policies), record, target)
      ensures r.Err? ==> policies == old(policies)
      ensures r.Ok? ==> policies == SettledPolicies(old(policies), record, target)
    {
      hide CanMove;
      var amount := record.request.amount.minorUnits;
      var applied := record.appliedPolicies;
      var updates :- PlanTransition(record, target);
      for i := 0 to |updates|
        invariant policies.Keys == old(policies).Keys
        invariant forall p :: p in policies ==>
                    policies[p] ==
                      if p in applied[..i] then Moved(old(policies)[p], amount, target) else old(policies)[p]
      {
        var id := updates[i].0;
        assert applied[..i + 1] == applied[..i] + [applied[i]];
        assert Planned(updates[i], applied[i], old(policies)[applied[i]], amount, target);
        policies := policies[id := policies[id].(reserved := updates[i].1, committed := updates[i].2)];
      }
      assert applied[..|applied|] == applied;
      r := Ok(());
    }

    method TransitionRecord(id: Text, target: ReservationState) returns (r: Result<ReservationReceipt, BudgetError>)
      requires Active(State(), id) ==> Covered(policies, reservations[id], target)
      modifies this
      ensures (State(), r) == Transition(old(State()), id, target)
    {
      if id !in reservations {
        return Err(Error(ReservationNotFound));
      }
      var record := reservations[id];
      if record.state == target {
        return Ok(record.Receipt());
      }
      if record.state != Reserved {
        return Err(Error(ReservationFinalized));
      }
      var moved := ApplyTransitionUsage(record, target);
      reservations := reservations[id := record.(state := target)];
      r := Ok(reservations[id].Receipt());
    }

    // ---------- Expiry ----------

    method DueRecords(now: u64) returns (expired: seq<ReservationRecord>)
      requires TableSound(reservations)
      ensures Lists(expired, reservations, Due(reservations, now))
      ensures ListsDistinct(expired)
    {
      var keys := OrderedKeys(reservations.Keys);
      expired := [];
      ghost var seen: set<Text> := {};
      for i := 0 to |keys|
        invariant seen == set id | id in keys[..i] && id in Due(reservations, now)
        invariant Lists(expired, reservations, seen)
        invariant ListsDistinct(expired)
      {
        var record := reservations[keys[i]];
        assert keys[..i + 1] == keys[..i] + [keys[i]];
        if record.state == Reserved && record.request.expiresAt <= now {
          ListsExtend(expired, reservations, seen, record);
          expired := expired + [record];
          seen := seen + {keys[i]};
        }
      }
      assert keys[..|keys|] == keys;
      assert seen == Due(reservations, now);
    }

    static method ExpiryDecrements(expired: seq<ReservationRecord>) returns (r: Result<map<Text, u64>, BudgetError>)
      requires ListsDistinct(expired)
      ensures r.Ok? <==> forall p :: ListSum(expired, p) <= U64_MAX
      ensures r.Ok? ==> forall p :: p in r.value <==> Listed(expired, p)
      ensures r.Ok? ==> forall p :: p in r.value ==> r.value[p] == ListSum(expired, p)
      ensures r.Err? ==> r.error == Error(ArithmeticOverflow)
    {
      var decrements: map<Text, u64> := map[];
      for i := 0 to |expired|
        invariant forall p :: p in decrements <==> Listed(expired[..i], p)
        invariant forall p :: Decrement(decrements, p) == ListSum(expired[..i], p)
      {
        var record := expired[i];
        var amount := record.request.amount.minorUnits;
        var applied := record.appliedPolicies;
        for j := 0 to |applied|
          invariant forall p :: p in decrements <==> Listed(expired[..i], p) || p in applied[..j]
          invariant forall p :: Decrement(decrements, p)
                                == ListSum(expired[..i], p) + if p in applied[..j] then amount else 0
        {
          var id := applied[j];
          var total := Decrement(decrements, id);
          AscendingFresh(applied, j);
          var next := CheckedAdd(total, amount);
          if next.None? {
            ListSumExtend(expired, i, id);
            ListSumPrefix(expired, i + 1, id);
            return Err(Error(ArithmeticOverflow));
          }
          decrements := decrements[id := next.value];
        }
        assert applied[..|applied|] == applied;
        forall p ensures ListSum(expired[..i + 1], p) == ListSum(expired[..i], p) + if p in applied then amount else 0 {
          ListSumExtend(expired, i, p);
        }
        ListedExtend(expired, i);
      }
      assert expired[..|expired|] == expired;
      forall p ensures ListSum(expired, p) <= U64_MAX {
        assert Decrement(decrements, p) == ListSum(expired, p);
      }
      r := Ok(decrements);
    }

    method ValidateExpiryDecrements(decrements: map<Text, u64>) returns (r: Result<(), BudgetError>)
      ensures r.Ok? <==> forall p :: p in decrements ==> p in policies && decrements[p] <= policies[p].reserved
    {
      var keys := OrderedKeys(decrements.Keys);
      for i := 0 to |keys|
        invariant forall p :: p in keys[..i] ==> p in policies && decrements[p] <= policies[p].reserved
      {
        assert keys[i] in decrements.Keys;
        if keys[i] !in policies {
          return Err(Error(PolicyNotFound));
        }
        if policies[keys[i]].reserved < decrements[keys[i]] {
          return Err(Error(ArithmeticOverflow));
        }
        assert keys[..i + 1] == keys[..i] + [keys[i]];
      }
      assert keys[..|keys|] == keys;
      r := Ok(());
    }

    method DecreaseReserved(decrements: map<Text, u64>)
      requires forall p :: p in decrements ==> p in policies && decrements[p] <= policies[p].reserved
      modifies this`policies
      ensures policies == map p | p in old(policies) ::
                            if p in decrements then Decreased(old(policies)[p], decrements[p]) else old(policies)[p]
    {
      var keys := OrderedKeys(decrements.Keys);
      for i := 0 to |keys|
        invariant policies.Keys == old(policies).Keys
        invariant forall p :: p in policies ==>
                    policies[p] ==
                      if p in keys[..i] then Decreased(old(policies)[p], decrements[p]) else old(policies)[p]
      {
        var id := keys[i];
        assert keys[..i + 1] == keys[..i] + [id];
        policies := policies[id := policies[id].(reserved := policies[id].reserved - decrements[id])];
      }
      assert keys[..|keys|] == keys;
    }

    method MarkExpired(expired: seq<ReservationRecord>)
      requires forall k :: 0 <= k < |expired| ==> expired[k].request.id in reservations
      modifies this`reservations
      ensures reservations == map id | id in old(reservations) ::
                                if exists k :: 0 <= k < |expired| && expired[k].request.id == id
                                then old(reservations)[id].(state := Expired) else old(reservations)[id]
    {
      for i := 0 to |expired|
        invariant reservations.Keys == old(reservations).Keys
        invariant forall id :: id in reservations ==>
                    reservations[id] == if exists k :: 0 <= k < i && expired[k].request.id == id
                                        then old(reservations)[id].(state := Expired) else old(reservations)[id]
      {
        var id := expired[i].request.id;
        reservations := reservations[id := reservations[id].(state := Expired)];
      }
    }

    method ExpireRecords(now: u64) returns (r: Result<nat, BudgetError>)
      requires TableSound(reservations)
      modifies this
      ensures r.Ok? <==> ExpiryCovered(old(State()), now)
      ensures r.Err? ==> State() == old(State())
      ensures r.Ok? ==> State() == ExpireDue(old(State()), now)
      ensures r.Ok? ==> r.value == |Due(old(reservations), now)|
    {
      var expired := DueRecords(now);
      ghost var due := Due(reservations, now);
      ListsCount(expired, reservations, due);
      if ExpiryCovered(State(), now) {
        PlanFits(State(), now, expired);
      }
      var decrements := ExpiryDecrements(expired);
      if decrements.Err? {
        return Err(decrements.error);
      }
      var valid := ValidateExpiryDecrements(decrements.value);
      if valid.Err? {
        return Err(valid.error);
      }
      PlanExact(State(), now, expired, decrements.value);
      DecreaseReserved(decrements.value);
      MarkExpired(expired);
      MarkedTable(old(reservations), now, expired);
      r := Ok(|expired|);
    }

    // ---------- Public operations ----------

    method Reserve(request: ReservationRequest, now: u64) returns (r: Result<ReservationReceipt, BudgetError>)
      requires Valid()
      modifies this
      ensures Valid()
      ensures ExpiryCovered(old(State()), now)
      ensures (State(), r) == BudgetLedger.Reserve(old(State()), request, now)
    {
      ReservePreserves(State(), request, now);
      WellFormedTableSound(State());
      var expired := ExpireRecords(now);
      if request.id in reservations {
        return BudgetLedger.Replay(reservations[request.id], request);
      }
      r := InsertReservation(request, now);
    }

    method ReserveFresh(request: ReservationRequest, now: u64) returns (r: Result<ReservationReceipt, BudgetError>)
      requires Valid()
      modifies this
      ensures Valid()
      ensures ExpiryCovered(old(State()), now)
      ensures (State(), r) == BudgetLedger.ReserveFresh(old(State()), request, now)
    {
      ReservePreserves(State(), request, now);
      WellFormedTableSound(State());
      if request.id in reservations {
        return Err(Error(ReplayConflict));
      }
      var expired := ExpireRecords(now);
      r := InsertReservation(request, now);
    }

    method Commit(id: Text) returns (r: Result<ReservationReceipt, BudgetError>)
      requires Valid()
      modifies this
      ensures Valid()
      ensures Active(old(State()), id) ==> Covered(old(policies), old(reservations)[id], Committed)
      ensures (State(), r) == Transition(old(State()), id, Committed)
    {
      TransitionPreserves(State(), id, Committed);
      r := TransitionRecord(id, Committed);
    }

    method Release(id: Text) returns (r: Result<ReservationReceipt, BudgetError>)
      requires Valid()
      modifies this
      ensures Valid()
      ensures Active(old(State()), id) ==> Covered(old(policies), old(reservations)[id], Released)
      ensures (State(), r) == Transition(old(State()), id, Released)
    {
      TransitionPreserves(State(), id, Released);
      r := TransitionRecord(id, Released);
    }

    method Expire(now: u64) returns (r: Result<nat, BudgetError>)
      requires Valid()
      modifies this
      ensures Valid()
      ensures ExpiryCovered(old(State()), now)
      ensures State() == ExpireDue(old(State()), now)
      ensures r == Ok(|Due(old(reservations), now)|)
    {
      ExpireDuePreserves(State(), now);
      WellFormedTableSound(State());
      r := ExpireRecords(now);
    }
  }
}
