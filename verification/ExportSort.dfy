/** Stable sorting of records by account identity, as the standard library's `sort_by` orders them. */
module ExportSort {
  import opened ByteOrder
  import opened ExportModel

  /** Insert behind every record whose account does not come after. */
  function InsertStable(sorted: seq<ExportRecord>, r: ExportRecord): seq<ExportRecord> {
    if sorted == [] then [r] else
      var last := sorted[|sorted| - 1];
      if Less(r.accountId, last.accountId) then InsertStable(sorted[..|sorted| - 1], r) + [last] else sorted + [r]
  }

  function SortByAccount(rs: seq<ExportRecord>): seq<ExportRecord> {
    if rs == [] then [] else InsertStable(SortByAccount(rs[..|rs| - 1]), rs[|rs| - 1])
  }

  /** Strictly ascending accounts: the canonical order. */
  ghost predicate Canonical(rs: seq<ExportRecord>) {
    forall i, j :: 0 <= i < j < |rs| ==> Less(rs[i].accountId, rs[j].accountId)
  }

  ghost predicate DistinctAccounts(rs: seq<ExportRecord>) {
    forall i, j :: 0 <= i < j < |rs| ==> rs[i].accountId != rs[j].accountId
  }

  lemma {:induction false} InsertContents(sorted: seq<ExportRecord>, r: ExportRecord)
    ensures multiset(InsertStable(sorted, r)) == multiset(sorted) + multiset{r}
    ensures |InsertStable(sorted, r)| == |sorted| + 1
  {
    if sorted != [] {
      var init := sorted[..|sorted| - 1];
      InsertContents(init, r);
      assert sorted == init + [sorted[|sorted| - 1]];
    }
  }

  lemma {:induction false} SortContents(rs: seq<ExportRecord>)
    ensures multiset(SortByAccount(rs)) == multiset(rs)
    ensures |SortByAccount(rs)| == |rs|
  {
    if rs != [] {
      var init := rs[..|rs| - 1];
      SortContents(init);
      InsertContents(SortByAccount(init), rs[|rs| - 1]);
      assert rs == init + [rs[|rs| - 1]];
    }
  }

  lemma {:induction false} InsertCanonical(sorted: seq<ExportRecord>, r: ExportRecord)
    requires Canonical(sorted)
    requires forall i :: 0 <= i < |sorted| ==> sorted[i].accountId != r.accountId
    ensures Canonical(InsertStable(sorted, r))
  {
    if sorted != [] {
      var n := |sorted| - 1;
      var init := sorted[..n];
      LessTotal(r.accountId, sorted[n].accountId);
      if Less(r.accountId, sorted[n].accountId) {
        InsertCanonical(init, r);
        InsertContents(init, r);
        var inserted := InsertStable(init, r);
        forall i | 0 <= i < |inserted| ensures Less(inserted[i].accountId, sorted[n].accountId) {
          InsertMember(init, r, inserted[i]);
        }
      } else {
        forall i | 0 <= i < n ensures Less(sorted[i].accountId, r.accountId) {
          LessTransitive(sorted[i].accountId, sorted[n].accountId, r.accountId);
        }
      }
    }
  }

  lemma InsertMember(sorted: seq<ExportRecord>, r: ExportRecord, x: ExportRecord)
    requires x in InsertStable(sorted, r)
    ensures x == r || x in sorted
  {
    InsertContents(sorted, r);
    assert x in multiset(InsertStable(sorted, r));
    assert x in multiset(sorted) + multiset{r};
  }

  lemma SortMember(rs: seq<ExportRecord>, x: ExportRecord)
    ensures x in SortByAccount(rs) <==> x in rs
  {
    SortContents(rs);
    assert x in SortByAccount(rs) <==> x in multiset(SortByAccount(rs));
    assert x in rs <==> x in multiset(rs);
  }

  /** Sorting records of distinct accounts puts them in canonical order. */
  lemma {:induction false} SortCanonical(rs: seq<ExportRecord>)
    requires DistinctAccounts(rs)
    ensures Canonical(SortByAccount(rs))
  {
    if rs != [] {
      var n := |rs| - 1;
      var init := rs[..n];
      SortCanonical(init);
      forall i | 0 <= i < |SortByAccount(init)| ensures SortByAccount(init)[i].accountId != rs[n].accountId {
        var x := SortByAccount(init)[i];
        SortMember(init, x);
        var j :| 0 <= j < |init| && init[j] == x;
        assert rs[j] == x;
      }
      InsertCanonical(SortByAccount(init), rs[n]);
    }
  }

  lemma CanonicalDistinct(rs: seq<ExportRecord>)
    requires Canonical(rs)
    ensures DistinctAccounts(rs)
  {
    forall i, j | 0 <= i < j < |rs| ensures rs[i].accountId != rs[j].accountId {
      LessIrreflexive(rs[i].accountId);
    }
  }

  /** Canonical order leaves no freedom: equal contents, equal sequences. */
  lemma {:induction false} CanonicalUnique(a: seq<ExportRecord>, b: seq<ExportRecord>)
    requires Canonical(a) && Canonical(b) && multiset(a) == multiset(b)
    ensures a == b
  {
    if a == [] {
      assert |multiset(b)| == 0;
    } else {
      assert |multiset(a)| == |a| && |multiset(b)| == |b|;
      CanonicalHead(a, b);
      assert a == [a[0]] + a[1..] && b == [b[0]] + b[1..];
      assert multiset(a) == multiset{a[0]} + multiset(a[1..]);
      assert multiset(b) == multiset{b[0]} + multiset(b[1..]);
      assert multiset(a[1..]) == multiset(a) - multiset{a[0]};
      assert multiset(b[1..]) == multiset(b) - multiset{b[0]};
      CanonicalUnique(a[1..], b[1..]);
    }
  }

  lemma CanonicalHead(a: seq<ExportRecord>, b: seq<ExportRecord>)
    requires Canonical(a) && Canonical(b) && multiset(a) == multiset(b) && a != [] && b != []
    ensures a[0] == b[0]
  {
    assert a[0] in multiset(b) && b[0] in multiset(a);
    var i :| 0 <= i < |b| && b[i] == a[0];
    var j :| 0 <= j < |a| && a[j] == b[0];
    if i > 0 && j > 0 {
      LessAsymmetric(b[0].accountId, a[0].accountId);
    }
  }

  /** Whatever order distinct accounts come in, sorting gives the same sequence; sorted input is left alone. */
  lemma SortIgnoresOrder(a: seq<ExportRecord>, b: seq<ExportRecord>)
    requires DistinctAccounts(a) && DistinctAccounts(b) && multiset(a) == multiset(b)
    ensures SortByAccount(a) == SortByAccount(b)
    ensures Canonical(a) ==> SortByAccount(b) == a
  {
    SortCanonical(a);
    SortCanonical(b);
    SortContents(a);
    SortContents(b);
    CanonicalUnique(SortByAccount(a), SortByAccount(b));
    if Canonical(a) {
      CanonicalUnique(a, SortByAccount(b));
    }
  }
}
