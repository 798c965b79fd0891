/** The opening state of a ledger and the clashes that prevent one. */
module BudgetOpening {
  import opened Words
  import opened BudgetModel
  import opened BudgetLedger

  function ScopeKey(policy: BudgetPolicy): (BudgetScope, Text) {
    (policy.scope, policy.limit.currency)
  }

  ghost predicate SameIdBefore(policies: seq<BudgetPolicy>, i: nat)
    requires i < |policies|
  {
    exists j :: 0 <= j < i && policies[j].id == policies[i].id
  }

  ghost predicate SameScopeBefore(policies: seq<BudgetPolicy>, i: nat)
    requires i < |policies|
  {
    exists j :: 0 <= j < i && ScopeKey(policies[j]) == ScopeKey(policies[i])
  }

  /** Policy `i` repeats the identity, or the scope and currency, of an earlier one. */
  ghost predicate Clashes(policies: seq<BudgetPolicy>, i: nat)
    requires i < |policies|
  {
    SameIdBefore(policies, i) || SameScopeBefore(policies, i)
  }

  ghost function ClashCode(policies: seq<BudgetPolicy>, i: nat): BudgetErrorCode
    requires i < |policies|
  {
    if SameIdBefore(policies, i) then DuplicatePolicy else DuplicateScopeCurrency
  }

  ghost function OpeningPolicies(policies: seq<BudgetPolicy>): map<Text, PolicyState> {
    if policies == [] then map[] else
      var last := policies[|policies| - 1];
      OpeningPolicies(policies[..|policies| - 1])[last.id := PolicyState(last, 0, 0)]
  }

  ghost function Opening(policies: seq<BudgetPolicy>): BudgetState {
    BudgetState(OpeningPolicies(policies), map[])
  }

  lemma {:induction false} OpeningContents(policies: seq<BudgetPolicy>, p: Text)
    requires p in OpeningPolicies(policies)
    ensures exists i ::
              && 0 <= i < |policies| && policies[i].id == p
              && OpeningPolicies(policies)[p] == PolicyState(policies[i], 0, 0)
  {
    var last := policies[|policies| - 1];
    if p == last.id {
      assert OpeningPolicies(policies)[p] == PolicyState(policies[|policies| - 1], 0, 0);
    } else {
      OpeningContents(policies[..|policies| - 1], p);
    }
  }

  /** A clash-free policy list opens a ledger that satisfies the invariant. */
  lemma OpeningInv(policies: seq<BudgetPolicy>)
    requires forall i :: 0 <= i < |policies| ==> !Clashes(policies, i)
    ensures Inv(Opening(policies))
  {
    var s := Opening(policies);
    forall p | p in s.policies
      ensures s.policies[p].policy.id == p && CountersExact(s, p) && PolicyWithinLimits(s.policies[p])
    {
      OpeningContents(policies, p);
    }
    forall p, q | p in s.policies && q in s.policies && p != q
      ensures s.policies[p].policy.scope != s.policies[q].policy.scope
              || s.policies[p].policy.limit.currency != s.policies[q].policy.limit.currency
    {
      OpeningContents(policies, p);
      OpeningContents(policies, q);
      var i :| 0 <= i < |policies| && policies[i].id == p && s.policies[p] == PolicyState(policies[i], 0, 0);
      var j :| 0 <= j < |policies| && policies[j].id == q && s.policies[q] == PolicyState(policies[j], 0, 0);
      assert !Clashes(policies, i) && !Clashes(policies, j);
    }
  }
}
