/** Sums of charged amounts over parts of the reservation table. */
module BudgetSums {
  import opened Words
  import opened BudgetModel

  /** What one record contributes to policy `p` among the records in state `st`. */
  function ChargeTo(r: ReservationRecord, st: ReservationState, p: Text): nat {
    if r.state == st && p in r.appliedPolicies then r.request.amount.minorUnits else 0
  }

  /** The amounts charged to `p` by the records named in `keys` that are in state `st`. */
  ghost function SumOver(rs: map<Text, ReservationRecord>, keys: set<Text>, st: ReservationState, p: Text): nat
    requires keys <= rs.Keys
    decreases keys
  {
    if keys == {} then 0 else
      var k :| k in keys;
      ChargeTo(rs[k], st, p) + SumOver(rs, keys - {k}, st, p)
  }

  lemma {:induction false} SumOverRemove(rs: map<Text, ReservationRecord>, keys: set<Text>, k: Text,
                                         st: ReservationState, p: Text)
    requires keys <= rs.Keys && k in keys
    ensures SumOver(rs, keys, st, p) == ChargeTo(rs[k], st, p) + SumOver(rs, keys - {k}, st, p)
    decreases keys
  {
    var j :| j in keys && SumOver(rs, keys, st, p) == ChargeTo(rs[j], st, p) + SumOver(rs, keys - {j}, st, p);
    if j != k {
      SumOverRemove(rs, keys - {j}, k, st, p);
      SumOverRemove(rs, keys - {k}, j, st, p);
      assert keys - {j} - {k} == keys - {k} - {j};
    }
  }

  lemma {:induction false} SumOverAgree(rs: map<Text, ReservationRecord>, rs': map<Text, ReservationRecord>,
                                        keys: set<Text>, st: ReservationState, p: Text)
    requires keys <= rs.Keys && keys <= rs'.Keys
    requires forall k :: k in keys ==> ChargeTo(rs[k], st, p) == ChargeTo(rs'[k], st, p)
    ensures SumOver(rs, keys, st, p) == SumOver(rs', keys, st, p)
    decreases keys
  {
    if keys != {} {
      var k :| k in keys;
      SumOverRemove(rs, keys, k, st, p);
      SumOverRemove(rs', keys, k, st, p);
      SumOverAgree(rs, rs', keys - {k}, st, p);
    }
  }

  lemma {:induction false} SumOverSplit(rs: map<Text, ReservationRecord>, keys: set<Text>, part: set<Text>,
                                        st: ReservationState, p: Text)
    requires keys <= rs.Keys && part <= keys
    ensures SumOver(rs, keys, st, p) == SumOver(rs, part, st, p) + SumOver(rs, keys - part, st, p)
    decreases part
  {
    if part == {} {
      assert keys - part == keys;
    } else {
      var k :| k in part;
      SumOverRemove(rs, keys, k, st, p);
      SumOverRemove(rs, part, k, st, p);
      SumOverSplit(rs, keys - {k}, part - {k}, st, p);
      assert keys - {k} - (part - {k}) == keys - part;
    }
  }

  lemma {:induction false} SumOverNothing(rs: map<Text, ReservationRecord>, keys: set<Text>, st: ReservationState,
                                          p: Text)
    requires keys <= rs.Keys
    requires forall k :: k in keys ==> ChargeTo(rs[k], st, p) == 0
    ensures SumOver(rs, keys, st, p) == 0
    decreases keys
  {
    if keys != {} {
      var k :| k in keys;
      SumOverRemove(rs, keys, k, st, p);
      SumOverNothing(rs, keys - {k}, st, p);
    }
  }

  /** The total charged to `p` in state `st` over the whole table. */
  ghost function Total(rs: map<Text, ReservationRecord>, st: ReservationState, p: Text): nat {
    SumOver(rs, rs.Keys, st, p)
  }

  /** Adding a record under a new key adds exactly its charge. */
  lemma TotalInsert(rs: map<Text, ReservationRecord>, id: Text, r: ReservationRecord, st: ReservationState, p: Text)
    requires id !in rs
    ensures Total(rs[id := r], st, p) == Total(rs, st, p) + ChargeTo(r, st, p)
  {
    var rs' := rs[id := r];
    SumOverRemove(rs', rs'.Keys, id, st, p);
    assert rs'.Keys - {id} == rs.Keys;
    SumOverAgree(rs, rs', rs.Keys, st, p);
  }

  /** Replacing a record moves the total by the difference of the two charges. */
  lemma TotalReplace(rs: map<Text, ReservationRecord>, id: Text, r: ReservationRecord, st: ReservationState, p: Text)
    requires id in rs
    ensures Total(rs[id := r], st, p) + ChargeTo(rs[id], st, p) == Total(rs, st, p) + ChargeTo(r, st, p)
  {
    var rs' := rs[id := r];
    assert rs'.Keys == rs.Keys;
    SumOverRemove(rs', rs'.Keys, id, st, p);
    SumOverRemove(rs, rs.Keys, id, st, p);
    SumOverAgree(rs, rs', rs.Keys - {id}, st, p);
  }
}
