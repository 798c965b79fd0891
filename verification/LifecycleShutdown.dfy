/** The greedy consumer-first shutdown order. */
module LifecycleShutdown {
  import opened Words
  import opened ByteOrder
  import opened LifecycleGraph

  /** What the order depends on: who is live, who depends on whom, and the tie-breaking keys. */
  datatype StopPlan = StopPlan(graph: Graph, live: seq<bool>, priority: seq<nat>, ids: seq<Text>)

  ghost predicate Sound(s: StopPlan) {
    && |s.live| == |s.priority| == |s.ids| == |s.graph|
    && WellFormed(s.graph) && AmongActive(s.graph, s.live)
    && (forall i, j :: 0 <= i < j < |s.ids| ==> s.ids[i] != s.ids[j])
  }

  /** `a` stops before `b` among otherwise equal candidates: higher priority, then lower identity. */
  predicate StopsFirst(s: StopPlan, a: nat, b: nat)
    requires |s.priority| == |s.ids| && a < |s.ids| && b < |s.ids|
  {
    s.priority[a] > s.priority[b] || (s.priority[a] == s.priority[b] && Less(s.ids[a], s.ids[b]))
  }

  ghost function LiveSet(s: StopPlan): set<nat> {
    set v: nat | v < |s.live| && s.live[v]
  }

  /** Nobody who is still to be stopped depends on `v`. */
  ghost predicate Leaf(s: StopPlan, remaining: set<nat>, v: nat) {
    forall c :: c in remaining && c < |s.graph| ==> v !in s.graph[c]
  }

  ghost function Leaves(s: StopPlan, remaining: set<nat>): set<nat> {
    set v | v in remaining && Leaf(s, remaining, v)
  }

  /** Leaves when there are any, everything that remains otherwise. */
  ghost function Eligible(s: StopPlan, remaining: set<nat>): set<nat> {
    if Leaves(s, remaining) != {} then Leaves(s, remaining) else remaining
  }

  ghost predicate First(s: StopPlan, candidates: set<nat>, v: nat)
    requires |s.priority| == |s.ids| && forall x :: x in candidates ==> x < |s.ids|
  {
    v in candidates && forall x :: x in candidates && x != v ==> StopsFirst(s, v, x)
  }

  ghost function Remaining(s: StopPlan, stopped: seq<nat>): set<nat> {
    set v | v in LiveSet(s) && v !in stopped
  }

  /** Every pick is the first among those eligible at that moment. */
  ghost predicate Greedy(s: StopPlan, order: seq<nat>)
    requires |s.live| == |s.priority| == |s.ids| == |s.graph|
  {
    forall k :: 0 <= k < |order| ==> First(s, Eligible(s, Remaining(s, order[..k])), order[k])
  }

  // ---------- Dependent counts ----------

  /** How many of the first `n` nodes that remain depend on `v`. */
  ghost function Dependents(s: StopPlan, stopped: seq<nat>, v: nat, n: nat): nat
    requires n <= |s.graph| && |s.live| == |s.graph|
  {
    if n == 0 then 0
    else
      (if s.live[n - 1] && (n - 1) !in stopped && v in s.graph[n - 1] then 1 else 0)
      + Dependents(s, stopped, v, n - 1)
  }

  lemma {:induction false} DependentsZero(s: StopPlan, stopped: seq<nat>, v: nat, n: nat)
    requires n <= |s.graph| && |s.live| == |s.graph|
    ensures Dependents(s, stopped, v, n) == 0 <==>
            forall c :: 0 <= c < n && s.live[c] && c !in stopped ==> v !in s.graph[c]
  {
    if n > 0 {
      DependentsZero(s, stopped, v, n - 1);
    }
  }

  lemma {:induction false} DependentsStop(s: StopPlan, stopped: seq<nat>, x: nat, v: nat, n: nat)
    requires n <= |s.graph| && |s.live| == |s.graph| && x < |s.graph| && s.live[x] && x !in stopped
    ensures Dependents(s, stopped + [x], v, n) + (if x < n && v in s.graph[x] then 1 else 0) ==
              Dependents(s, stopped, v, n)
  {
    if n > 0 {
      DependentsStop(s, stopped, x, v, n - 1);
    }
  }

  ghost predicate Counts(s: StopPlan, stopped: seq<nat>, counts: seq<nat>)
    requires |s.live| == |s.graph|
  {
    |counts| == |s.graph| && forall v :: 0 <= v < |counts| ==> counts[v] == Dependents(s, stopped, v, |s.graph|)
  }

  method DependentCounts(s: StopPlan) returns (counts: seq<nat>)
    requires Sound(s)
    ensures Counts(s, [], counts)
  {
    counts := seq(|s.graph|, _ => 0);
    for c := 0 to |s.graph|
      invariant |counts| == |s.graph|
      invariant forall v :: 0 <= v < |counts| ==> counts[v] == Dependents(s, [], v, c)
    {
      ghost var before := counts;
      var providers := s.graph[c];
      for j := 0 to |providers|
        invariant |counts| == |s.graph|
        invariant forall v :: 0 <= v < |counts| ==> counts[v] == before[v] + if v in providers[..j] then 1 else 0
      {
        var p := providers[j];
        assert p in providers && p !in providers[..j];
        counts := counts[p := counts[p] + 1];
        assert providers[..j + 1] == providers[..j] + [p];
      }
      assert providers[..|providers|] == providers;
      assert providers != [] ==> s.live[c];
    }
  }

  method ReleaseShutdownDependencies(s: StopPlan, consumer: nat, ghost stopped: seq<nat>, counts: seq<nat>)
    returns (r: seq<nat>)
    requires Sound(s) && Counts(s, stopped, counts)
    requires consumer < |s.graph| && s.live[consumer] && consumer !in stopped
    ensures Counts(s, stopped + [consumer], r)
  {
    r := counts;
    var providers := s.graph[consumer];
    forall v | 0 <= v < |counts|
      ensures Dependents(s, stopped + [consumer], v, |s.graph|) + (if v in providers then 1 else 0) == counts[v]
    {
      DependentsStop(s, stopped, consumer, v, |s.graph|);
    }
    for j := 0 to |providers|
      invariant |r| == |counts|
      invariant forall v :: 0 <= v < |r| ==> r[v] + (if v in providers[..j] then 1 else 0) == counts[v]
    {
      var p := providers[j];
      assert p in providers && p !in providers[..j];
      r := r[p := if r[p] > 0 then r[p] - 1 else 0];
      assert providers[..j + 1] == providers[..j] + [p];
    }
    assert providers[..|providers|] == providers;
  }

  // ---------- Choosing the next module ----------

  method ShutdownCandidates(s: StopPlan, counts: seq<nat>, selected: seq<bool>, requireLeaf: bool) returns (r: seq<nat>)
    requires |s.live| == |counts| == |selected|
    ensures forall v :: v in r <==> 0 <= v < |s.live| && s.live[v] && !selected[v] && (requireLeaf ==> counts[v] == 0)
  {
    r := [];
    for i := 0 to |s.live|
      invariant forall v :: v in r <==> 0 <= v < i && s.live[v] && !selected[v] && (requireLeaf ==> counts[v] == 0)
    {
      if s.live[i] && !selected[i] && (!requireLeaf || counts[i] == 0) {
        r := r + [i];
      }
    }
  }

  lemma StopsFirstTotal(s: StopPlan, a: nat, b: nat)
    requires Sound(s) && a < |s.ids| && b < |s.ids| && a != b
    ensures StopsFirst(s, a, b) || StopsFirst(s, b, a)
  {
    LessTotal(s.ids[a], s.ids[b]);
  }

  lemma StopsFirstTransitive(s: StopPlan, a: nat, b: nat, c: nat)
    requires Sound(s) && a < |s.ids| && b < |s.ids| && c < |s.ids|
    requires StopsFirst(s, a, b) && StopsFirst(s, b, c)
    ensures StopsFirst(s, a, c)
  {
    if s.priority[a] == s.priority[b] == s.priority[c] {
      LessTransitive(s.ids[a], s.ids[b], s.ids[c]);
    }
  }

  /** The head of the candidates sorted by shutdown order. */
  method FirstToStop(s: StopPlan, candidates: seq<nat>) returns (r: nat)
    requires Sound(s) && candidates != [] && forall i :: 0 <= i < |candidates| ==> candidates[i] < |s.ids|
    ensures r in candidates && r < |s.ids|
    ensures forall i :: 0 <= i < |candidates| && candidates[i] != r ==> StopsFirst(s, r, candidates[i])
  {
    r := candidates[0];
    for i := 1 to |candidates|
      invariant r in candidates && r < |s.ids|
      invariant forall j :: 0 <= j < i && candidates[j] != r ==> StopsFirst(s, r, candidates[j])
    {
      var next := candidates[i];
      if next != r {
        StopsFirstTotal(s, next, r);
        if StopsFirst(s, next, r) {
          forall j | 0 <= j < i && candidates[j] != next ensures StopsFirst(s, next, candidates[j]) {
            if candidates[j] != r {
              StopsFirstTransitive(s, next, r, candidates[j]);
            }
          }
          r := next;
        }
      }
    }
  }

  /** `selected` marks exactly the stopped modules. */
  ghost predicate Marks(s: StopPlan, stopped: seq<nat>, selected: seq<bool>) {
    |selected| == |s.live| && forall v :: 0 <= v < |selected| ==> (selected[v] <==> v in stopped)
  }

  lemma CandidatesAreEligible(s: StopPlan, stopped: seq<nat>, counts: seq<nat>, selected: seq<bool>, leaves: seq<nat>)
    requires Sound(s) && Counts(s, stopped, counts) && Marks(s, stopped, selected)
    requires forall v :: v in leaves <==> 0 <= v < |s.live| && s.live[v] && !selected[v] && counts[v] == 0
    ensures Leaves(s, Remaining(s, stopped)) == set v | v in leaves
  {
    var remaining := Remaining(s, stopped);
    forall v | v in remaining ensures Leaf(s, remaining, v) <==> counts[v] == 0 {
      DependentsZero(s, stopped, v, |s.graph|);
    }
  }

  method NextShutdownModule(s: StopPlan, counts: seq<nat>, selected: seq<bool>, ghost stopped: seq<nat>)
    returns (r: Option<nat>)
    requires Sound(s) && Counts(s, stopped, counts) && Marks(s, stopped, selected)
    ensures r.None? <==> Remaining(s, stopped) == {}
    ensures r.Some? ==> r.value in Remaining(s, stopped) && First(s, Eligible(s, Remaining(s, stopped)), r.value)
  {
    var eligible := ShutdownCandidates(s, counts, selected, true);
    CandidatesAreEligible(s, stopped, counts, selected, eligible);
    if eligible == [] {
      eligible := ShutdownCandidates(s, counts, selected, false);
    } else {
      assert eligible[0] in Leaves(s, Remaining(s, stopped));
    }
    if eligible == [] {
      return None;
    }
    assert eligible[0] in eligible;
    forall i | 0 <= i < |eligible| ensures eligible[i] < |s.ids| {
      assert eligible[i] in eligible;
    }
    var first := FirstToStop(s, eligible);
    assert forall v :: v in eligible <==> v in Eligible(s, Remaining(s, stopped));
    r := Some(first);
  }

  lemma StopShrinks(s: StopPlan, stopped: seq<nat>, v: nat)
    requires v in Remaining(s, stopped)
    ensures |Remaining(s, stopped + [v])| == |Remaining(s, stopped)| - 1
  {
    assert Remaining(s, stopped + [v]) == Remaining(s, stopped) - {v};
  }

  method CountLive(s: StopPlan) returns (target: nat)
    requires Sound(s)
    ensures target == |LiveSet(s)|
  {
    target := 0;
    ghost var seen: set<nat> := {};
    for i := 0 to |s.live|
      invariant seen == set v: nat | v < i && v < |s.live| && s.live[v]
      invariant target == |seen|
    {
      if s.live[i] {
        seen := seen + {i};
        target := target + 1;
      }
    }
    assert seen == LiveSet(s);
  }

  /** Always a permutation of the live modules, each pick the first among those eligible. */
  method ShutdownOrder(s: StopPlan) returns (order: seq<nat>)
    requires Sound(s)
    ensures Distinct(order) && forall v :: v in order <==> v in LiveSet(s)
    ensures Greedy(s, order)
  {
    var counts := DependentCounts(s);
    var selected := seq(|s.live|, _ => false);
    var target := CountLive(s);
    order := [];
    assert Remaining(s, []) == LiveSet(s);
    while |order| < target
      invariant Distinct(order) && forall v :: v in order ==> v in LiveSet(s)
      invariant Counts(s, order, counts) && Marks(s, order, selected)
      invariant |order| + |Remaining(s, order)| == target
      invariant Greedy(s, order)
    {
      var next := NextShutdownModule(s, counts, selected, order);
      if next.None? {
        break;
      }
      var index := next.value;
      StopShrinks(s, order, index);
      counts := ReleaseShutdownDependencies(s, index, order, counts);
      selected := selected[index := true];
      GreedyExtends(s, order, index);
      order := order + [index];
    }
    assert Remaining(s, order) == {};
    forall v | v in LiveSet(s) ensures v in order {
      assert v !in Remaining(s, order);
    }
  }

  lemma GreedyExtends(s: StopPlan, order: seq<nat>, index: nat)
    requires |s.live| == |s.priority| == |s.ids| == |s.graph|
    requires Greedy(s, order) && First(s, Eligible(s, Remaining(s, order)), index)
    ensures Greedy(s, order + [index])
  {
    var more := order + [index];
    forall k | 0 <= k < |more| ensures First(s, Eligible(s, Remaining(s, more[..k])), more[k]) {
      if k < |order| {
        assert more[..k] == order[..k];
      } else {
        assert more[..k] == order;
      }
    }
  }

  // ---------- Acyclic graphs ----------

  /** In an acyclic graph something can always be stopped that nobody still needs. */
  lemma LeafExists(s: StopPlan, remaining: set<nat>)
    requires Sound(s) && Acyclic(s.graph) && remaining <= LiveSet(s) && remaining != {}
    ensures Leaves(s, remaining) != {}
  {
    if Leaves(s, remaining) == {} {
      forall v | v in remaining ensures HasPredecessor(s.graph, remaining, v) {
        assert v !in Leaves(s, remaining);
        var c :| c in remaining && c < |s.graph| && v in s.graph[c];
      }
      var w := NoSourceMeansCycle(s.graph, remaining);
    }
  }

  lemma PickIsLeaf(s: StopPlan, order: seq<nat>, k: nat)
    requires Sound(s) && Acyclic(s.graph) && Greedy(s, order) && k < |order|
    ensures order[k] in Leaves(s, Remaining(s, order[..k]))
  {
    var remaining := Remaining(s, order[..k]);
    assert First(s, Eligible(s, remaining), order[k]);
    LeafExists(s, remaining);
  }

  lemma NotYetStopped(s: StopPlan, order: seq<nat>, k: nat, c: nat)
    requires Distinct(order) && k <= c < |order| && order[c] in LiveSet(s)
    ensures order[c] in Remaining(s, order[..k])
  {
  }

  /** With acyclic dependencies the fallback is never used and every consumer stops before its providers. */
  lemma ConsumersStopFirst(s: StopPlan, order: seq<nat>, c: nat, p: nat)
    requires Sound(s) && Acyclic(s.graph) && Greedy(s, order)
    requires Distinct(order) && forall v :: v in order <==> v in LiveSet(s)
    requires p < |order| && c < |order| && order[p] in s.graph[order[c]]
    ensures c < p
  {
    PickIsLeaf(s, order, p);
    if c >= p {
      NotYetStopped(s, order, p, c);
    }
  }

  /** `order` stops each consumer strictly before each of its providers. */
  ghost predicate ConsumersBeforeProviders(g: Graph, order: seq<nat>) {
    forall c, p :: 0 <= c < |order| && 0 <= p < |order| && order[c] < |g| && order[p] in g[order[c]] ==> c < p
  }

  lemma {:induction false} WalkDescends(g: Graph, order: seq<nat>, path: seq<nat>, i: nat) returns (k: nat)
    requires ConsumersBeforeProviders(g, order) && Walk(g, path) && i < |path|
    requires forall j :: 0 <= j < |path| ==> path[j] in order
    requires Distinct(order)
    ensures k < |order| && order[k] == path[i]
    ensures i > 0 ==> forall j :: 0 <= j < |order| && order[j] == path[0] ==> j < k
  {
    assert path[i] in order;
    k :| 0 <= k < |order| && order[k] == path[i];
    if i > 0 {
      var before := WalkDescends(g, order, path, i - 1);
      assert path[i] in g[path[i - 1]];
    }
  }

  /**
   * The documented promise, exactly: consumers stop before providers if and only if the live dependencies are acyclic.
   */
  lemma ConsumersFirstExactlyWhenAcyclic(s: StopPlan, order: seq<nat>)
    requires Sound(s) && Greedy(s, order) && Distinct(order) && forall v :: v in order <==> v in LiveSet(s)
    ensures ConsumersBeforeProviders(s.graph, order) <==> Acyclic(s.graph)
  {
    if Acyclic(s.graph) {
      forall c, p | 0 <= c < |order| && 0 <= p < |order| && order[c] < |s.graph| && order[p] in s.graph[order[c]]
        ensures c < p
      {
        ConsumersStopFirst(s, order, c, p);
      }
    }
    if ConsumersBeforeProviders(s.graph, order) {
      forall v | 0 <= v < |s.graph| ensures !OnCycle(s.graph, v) {
        OrderedNotOnCycle(s, order, v);
      }
    }
  }

  lemma OrderedNotOnCycle(s: StopPlan, order: seq<nat>, v: nat)
    requires Sound(s) && Distinct(order) && forall x :: x in order <==> x in LiveSet(s)
    requires ConsumersBeforeProviders(s.graph, order)
    ensures !OnCycle(s.graph, v)
  {
    if OnCycle(s.graph, v) {
      var path :| Path(s.graph, path, v, v);
      forall j | 0 <= j < |path| ensures path[j] in order {
        OnWalkIsLive(s, path, j);
      }
      var k := WalkDescends(s.graph, order, path, |path| - 1);
    }
  }

  lemma OnWalkIsLive(s: StopPlan, path: seq<nat>, j: nat)
    requires Sound(s) && Walk(s.graph, path) && |path| >= 2 && j < |path|
    ensures path[j] in LiveSet(s)
  {
    if j == 0 {
      assert path[1] in s.graph[path[0]];
    } else {
      assert path[j] in s.graph[path[j - 1]];
    }
  }

  // ---------- Uniqueness ----------

  lemma StopsFirstAsymmetric(s: StopPlan, a: nat, b: nat)
    requires Sound(s) && a < |s.ids| && b < |s.ids| && StopsFirst(s, a, b)
    ensures !StopsFirst(s, b, a)
  {
    if s.priority[a] == s.priority[b] {
      LessAsymmetric(s.ids[a], s.ids[b]);
    }
  }

  lemma FirstUnique(s: StopPlan, candidates: set<nat>, a: nat, b: nat)
    requires Sound(s) && (forall x :: x in candidates ==> x < |s.ids|)
    requires First(s, candidates, a) && First(s, candidates, b)
    ensures a == b
  {
    if a != b {
      StopsFirstAsymmetric(s, a, b);
    }
  }

  lemma {:induction false} GreedyPrefix(s: StopPlan, a: seq<nat>, b: seq<nat>, k: nat)
    requires Sound(s) && Greedy(s, a) && Greedy(s, b) && k <= |a| && k <= |b|
    ensures a[..k] == b[..k]
  {
    if k > 0 {
      GreedyPrefix(s, a, b, k - 1);
      FirstUnique(s, Eligible(s, Remaining(s, a[..k - 1])), a[k - 1], b[k - 1]);
      assert a[..k] == a[..k - 1] + [a[k - 1]] && b[..k] == b[..k - 1] + [b[k - 1]];
    }
  }

  lemma NextIsNew(a: seq<nat>, n: nat)
    requires Distinct(a) && n < |a|
    ensures a[n] in a && a[n] !in a[..n]
  {
  }

  lemma NoLonger(a: seq<nat>, b: seq<nat>)
    requires Distinct(a) && |b| <= |a| && a[..|b|] == b && forall v :: v in a ==> v in b
    ensures a == b
  {
    if |b| < |a| {
      NextIsNew(a, |b|);
    }
  }

  /** The shutdown order is fully determined by who is live, who needs whom, the priorities and the identities. */
  lemma ShutdownOrderUnique(s: StopPlan, a: seq<nat>, b: seq<nat>)
    requires Sound(s) && Greedy(s, a) && Greedy(s, b) && Distinct(a) && Distinct(b)
    requires (forall v :: v in a <==> v in LiveSet(s)) && (forall v :: v in b <==> v in LiveSet(s))
    ensures a == b
  {
    if |a| <= |b| {
      GreedyPrefix(s, a, b, |a|);
      NoLonger(b, a);
    } else {
      GreedyPrefix(s, a, b, |b|);
      NoLonger(a, b);
    }
  }

  // ---------- An order exists ----------

  lemma {:induction false} FirstExists(s: StopPlan, candidates: set<nat>) returns (v: nat)
    requires Sound(s) && candidates != {} && forall x :: x in candidates ==> x < |s.ids|
    ensures First(s, candidates, v)
    decreases candidates
  {
    v :| v in candidates;
    var others := candidates - {v};
    assert forall x :: x in candidates ==> x == v || x in others;
    if others != {} {
      var w := FirstExists(s, others);
      StopsFirstTotal(s, v, w);
      if StopsFirst(s, v, w) {
        forall x | x in candidates && x != v ensures StopsFirst(s, v, x) {
          if x != w {
            StopsFirstTransitive(s, v, w, x);
          }
        }
      } else {
        v := w;
      }
    }
  }

  /** Whatever is live, in whatever graph, has a shutdown order. */
  lemma ShutdownOrderExists(s: StopPlan) returns (order: seq<nat>)
    requires Sound(s)
    ensures Distinct(order) && Greedy(s, order) && forall v :: v in order <==> v in LiveSet(s)
  {
    order := [];
    var left := LiveSet(s);
    while left != {}
      invariant Distinct(order) && Greedy(s, order)
      invariant forall v :: v in order ==> v in LiveSet(s)
      invariant left == Remaining(s, order)
      decreases left
    {
      var v := FirstExists(s, Eligible(s, left));
      GreedyExtends(s, order, v);
      order, left := order + [v], left - {v};
    }
    forall v | v in LiveSet(s) ensures v in order {
      assert v !in Remaining(s, order);
    }
  }
}
