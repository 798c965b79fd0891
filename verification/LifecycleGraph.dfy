/** Dependency graphs: cycles, their detection, and orderings of what remains. */
module LifecycleGraph {
  /** `g[v]` lists the providers node `v` depends on. */
  type Graph = seq<seq<nat>>

  ghost predicate Distinct(s: seq<nat>) {
    forall i, j :: 0 <= i < j < |s| ==> s[i] != s[j]
  }

  ghost predicate WellFormed(g: Graph) {
    forall v :: 0 <= v < |g| ==> Distinct(g[v]) && forall d :: d in g[v] ==> d < |g|
  }

  // ---------- Walks and cycles ----------

  ghost predicate Walk(g: Graph, p: seq<nat>) {
    && p != []
    && (forall i :: 0 <= i < |p| ==> p[i] < |g|)
    && (forall i :: 0 < i < |p| ==> p[i] in g[p[i - 1]])
  }

  /** `p` is a non-empty dependency path from `a` to `b`. */
  ghost predicate Path(g: Graph, p: seq<nat>, a: nat, b: nat) {
    Walk(g, p) && |p| >= 2 && p[0] == a && p[|p| - 1] == b
  }

  ghost predicate Reaches(g: Graph, a: nat, b: nat) {
    exists p :: Path(g, p, a, b)
  }

  ghost predicate OnCycle(g: Graph, v: nat) {
    Reaches(g, v, v)
  }

  ghost predicate Acyclic(g: Graph) {
    forall v :: 0 <= v < |g| ==> !OnCycle(g, v)
  }

  lemma EdgeReaches(g: Graph, a: nat, b: nat)
    requires a < |g| && b < |g| && b in g[a]
    ensures Reaches(g, a, b)
  {
    assert Path(g, [a, b], a, b);
  }

  lemma ReachesFurther(g: Graph, a: nat, b: nat, c: nat)
    requires Reaches(g, a, b) && c < |g| && c in g[b]
    ensures Reaches(g, a, c)
  {
    var p :| Path(g, p, a, b);
    assert Path(g, p + [c], a, c);
  }

  lemma ReachesFromBefore(g: Graph, a: nat, b: nat, c: nat)
    requires a < |g| && b in g[a] && Reaches(g, b, c)
    ensures Reaches(g, a, c)
  {
    var p :| Path(g, p, b, c);
    assert Path(g, [a] + p, a, c);
  }

  ghost predicate Nodes(g: Graph, u: set<nat>) {
    forall v :: v in u ==> v < |g|
  }

  ghost predicate HasSuccessor(g: Graph, u: set<nat>, v: nat)
    requires v < |g|
  {
    exists d :: d in g[v] && d in u
  }

  ghost predicate HasPredecessor(g: Graph, u: set<nat>, v: nat)
    requires Nodes(g, u)
  {
    exists c :: c in u && v in g[c]
  }

  ghost function After(g: Graph, u: set<nat>, v: nat): set<nat> {
    set x | x in u && Reaches(g, v, x)
  }

  ghost function Before(g: Graph, u: set<nat>, v: nat): set<nat> {
    set x | x in u && Reaches(g, x, v)
  }

  lemma AfterHasSuccessors(g: Graph, u: set<nat>, v: nat, x: nat)
    requires Nodes(g, u) && x in After(g, u, v) && HasSuccessor(g, u, x)
    ensures HasSuccessor(g, After(g, u, v), x)
  {
    var y :| y in g[x] && y in u;
    ReachesFurther(g, v, x, y);
    assert y in After(g, u, v);
  }

  lemma BeforeHasPredecessors(g: Graph, u: set<nat>, v: nat, x: nat)
    requires Nodes(g, u) && x in Before(g, u, v) && HasPredecessor(g, u, x)
    ensures HasPredecessor(g, Before(g, u, v), x)
  {
    var y :| y in u && x in g[y];
    ReachesFromBefore(g, y, x, v);
    assert y in Before(g, u, v);
  }

  /** A non-empty node set in which everyone has a successor contains a cycle. */
  lemma {:induction false} NoSinkMeansCycle(g: Graph, u: set<nat>) returns (w: nat)
    requires u != {} && Nodes(g, u) && forall v :: v in u ==> HasSuccessor(g, u, v)
    ensures w in u && OnCycle(g, w)
    decreases u
  {
    var v :| v in u;
    if OnCycle(g, v) {
      w := v;
    } else {
      var d :| d in g[v] && d in u;
      EdgeReaches(g, v, d);
      var after := After(g, u, v);
      assert d in after && v !in after;
      forall x | x in after ensures HasSuccessor(g, after, x) {
        AfterHasSuccessors(g, u, v, x);
      }
      w := NoSinkMeansCycle(g, after);
    }
  }

  /** A non-empty node set in which everyone has a predecessor contains a cycle. */
  lemma {:induction false} NoSourceMeansCycle(g: Graph, u: set<nat>) returns (w: nat)
    requires u != {} && Nodes(g, u) && forall v :: v in u ==> HasPredecessor(g, u, v)
    ensures w in u && OnCycle(g, w)
    decreases u
  {
    var v :| v in u;
    if OnCycle(g, v) {
      w := v;
    } else {
      assert HasPredecessor(g, u, v);
      var c :| c in u && v in g[c];
      EdgeReaches(g, c, v);
      var before := Before(g, u, v);
      assert c in before && v !in before;
      forall x | x in before ensures HasPredecessor(g, before, x) {
        BeforeHasPredecessors(g, u, v, x);
      }
      w := NoSourceMeansCycle(g, before);
    }
  }

  /** `h` has no edge that `g` lacks. */
  ghost predicate Within(h: Graph, g: Graph) {
    |h| == |g| && forall v, d :: 0 <= v < |h| && d in h[v] ==> d in g[v]
  }

  lemma CycleInLarger(h: Graph, g: Graph, v: nat)
    requires Within(h, g) && OnCycle(h, v)
    ensures OnCycle(g, v)
  {
    var p :| Path(h, p, v, v);
    assert Path(g, p, v, v);
  }

  /** Cutting off every node that lies on a cycle leaves an acyclic graph. */
  lemma CycleRemovalAcyclic(g: Graph, h: Graph)
    requires Within(h, g)
    requires forall v :: 0 <= v < |g| && OnCycle(g, v) ==> h[v] == []
    ensures Acyclic(h)
  {
    forall v | 0 <= v < |h| ensures !OnCycle(h, v) {
      if OnCycle(h, v) {
        CycleInLarger(h, g, v);
        CycleHasEdge(h, v);
      }
    }
  }

  lemma CycleHasEdge(h: Graph, v: nat)
    requires OnCycle(h, v)
    ensures v < |h| && h[v] != []
  {
    var p :| Path(h, p, v, v);
    assert p[1] in h[p[0]];
  }

  // ---------- Cycle detection by breadth-first search ----------

  ghost function Unvisited(visited: seq<bool>): nat {
    if visited == [] then 0
    else (if visited[|visited| - 1] then 0 else 1) + Unvisited(visited[..|visited| - 1])
  }

  lemma {:induction false} VisitShrinks(visited: seq<bool>, i: nat)
    requires i < |visited| && !visited[i]
    ensures Unvisited(visited[i := true]) < Unvisited(visited)
  {
    var n := |visited| - 1;
    if i < n {
      VisitShrinks(visited[..n], i);
      assert visited[i := true][..n] == visited[..n][i := true];
    } else {
      assert visited[i := true][..n] == visited[..n];
    }
  }

  /** Everything a search from `origin` still owes: successors of visited nodes are visited or pending. */
  ghost predicate Covered(g: Graph, origin: nat, visited: seq<bool>, pending: seq<nat>)
    requires |visited| == |g| && origin < |g| && WellFormed(g)
  {
    forall v, d :: 0 <= v < |g| && (v == origin || visited[v]) && d in g[v] ==> visited[d] || d in pending
  }

  lemma {:induction false} ClosedKeepsPath(g: Graph, origin: nat, visited: seq<bool>, p: seq<nat>, i: nat)
    requires |visited| == |g| && origin < |g| && WellFormed(g) && Covered(g, origin, visited, [])
    requires Walk(g, p) && p[0] == origin && 0 < i < |p|
    ensures visited[p[i]]
  {
    if i > 1 {
      ClosedKeepsPath(g, origin, visited, p, i - 1);
    }
    assert p[i] in g[p[i - 1]];
  }

  lemma PopCovered(g: Graph, origin: nat, visited: seq<bool>, pending: seq<nat>)
    requires |visited| == |g| && origin < |g| && WellFormed(g) && Covered(g, origin, visited, pending)
    requires pending != [] && pending[0] < |g|
    ensures visited[pending[0]] ==> Covered(g, origin, visited, pending[1..])
    ensures Covered(g, origin, visited[pending[0] := true], pending[1..] + g[pending[0]])
  {
    var x := pending[0];
    assert pending == [x] + pending[1..];
    forall v, d | 0 <= v < |g| && (v == origin || visited[x := true][v]) && d in g[v]
      ensures visited[x := true][d] || d in pending[1..] + g[x]
    {
      if v == x {
        assert d in pending[1..] + g[x];
      } else {
        assert visited[d] || d in pending;
      }
    }
  }

  lemma SuccessorsReached(g: Graph, origin: nat, v: nat)
    requires WellFormed(g) && origin < |g| && v < |g| && (v == origin || Reaches(g, origin, v))
    ensures forall i :: 0 <= i < |g[v]| ==> g[v][i] < |g| && Reaches(g, origin, g[v][i])
  {
    forall i | 0 <= i < |g[v]| ensures g[v][i] < |g| && Reaches(g, origin, g[v][i]) {
      var d := g[v][i];
      assert d in g[v];
      if Reaches(g, origin, v) {
        ReachesFurther(g, origin, v, d);
      } else {
        EdgeReaches(g, v, d);
      }
    }
  }

  /** Whether a non-empty dependency path leads from the origin back to itself. */
  method DependencyPathReturnsTo(origin: nat, g: Graph) returns (r: bool)
    requires WellFormed(g) && origin < |g|
    ensures r <==> OnCycle(g, origin)
  {
    var pending: seq<nat> := g[origin];
    var visited := seq(|g|, _ => false);
    SuccessorsReached(g, origin, origin);
    while pending != []
      invariant |visited| == |g| && !visited[origin]
      invariant forall i :: 0 <= i < |pending| ==> pending[i] < |g| && Reaches(g, origin, pending[i])
      invariant Covered(g, origin, visited, pending)
      decreases Unvisited(visited), |pending|
    {
      var index := pending[0];
      PopCovered(g, origin, visited, pending);
      pending := pending[1..];
      if index == origin {
        return true;
      }
      if !visited[index] {
        VisitShrinks(visited, index);
        visited := visited[index := true];
        SuccessorsReached(g, origin, index);
        pending := pending + g[index];
      }
    }
    if OnCycle(g, origin) {
      var p :| Path(g, p, origin, origin);
      ClosedKeepsPath(g, origin, visited, p, |p| - 1);
    }
    r := false;
  }

  // ---------- Kahn's ordering ----------

  /** How many of `deps` are not in `done`. */
  ghost function Missing(deps: seq<nat>, done: seq<nat>): nat {
    if deps == [] then 0
    else (if deps[|deps| - 1] in done then 0 else 1) + Missing(deps[..|deps| - 1], done)
  }

  lemma {:induction false} MissingNone(deps: seq<nat>)
    ensures Missing(deps, []) == |deps|
  {
    if deps != [] {
      MissingNone(deps[..|deps| - 1]);
    }
  }

  lemma {:induction false} MissingZero(deps: seq<nat>, done: seq<nat>)
    ensures Missing(deps, done) == 0 <==> forall d :: d in deps ==> d in done
  {
    if deps != [] {
      MissingZero(deps[..|deps| - 1], done);
      assert deps == deps[..|deps| - 1] + [deps[|deps| - 1]];
    }
  }

  lemma {:induction false} MissingDone(deps: seq<nat>, done: seq<nat>, x: nat)
    requires Distinct(deps) && x !in done
    ensures Missing(deps, done + [x]) == Missing(deps, done) - if x in deps then 1 else 0
  {
    if deps != [] {
      var n := |deps| - 1;
      MissingDone(deps[..n], done, x);
      assert deps == deps[..n] + [deps[n]];
      assert deps[n] == x ==> x !in deps[..n];
    }
  }

  /** Edges run between active nodes only. */
  ghost predicate AmongActive(g: Graph, active: seq<bool>) {
    && |active| == |g|
    && forall v :: 0 <= v < |g| ==> (g[v] != [] ==> active[v]) && forall d :: d in g[v] ==> d < |g| && active[d]
  }

  /** Every node of `order` is preceded by all its providers. */
  ghost predicate ProvidersFirst(g: Graph, order: seq<nat>) {
    forall k :: 0 <= k < |order| ==> order[k] < |g| && forall d :: d in g[order[k]] ==> d in order[..k]
  }

  /**
   * The bookkeeping of the ordering loop: in-degrees count unordered providers, and what is free waits in the queue.
   */
  ghost predicate Bookkeeping(g: Graph, active: seq<bool>, indegrees: seq<nat>, order: seq<nat>, queue: seq<nat>) {
    && |indegrees| == |g| && AmongActive(g, active)
    && (forall v :: 0 <= v < |g| ==> indegrees[v] == Missing(g[v], order))
    && Distinct(order + queue)
    && (forall v :: v in order + queue ==> v < |g| && active[v] && indegrees[v] == 0)
    && (forall v :: 0 <= v < |g| && active[v] && indegrees[v] == 0 ==> v in order + queue)
  }

  method InitialQueue(active: seq<bool>, indegrees: seq<nat>) returns (queue: seq<nat>)
    requires |active| == |indegrees|
    ensures Distinct(queue)
    ensures forall v :: v in queue <==> 0 <= v < |active| && active[v] && indegrees[v] == 0
  {
    queue := [];
    for i := 0 to |active|
      invariant Distinct(queue)
      invariant forall v :: v in queue <==> 0 <= v < i && active[v] && indegrees[v] == 0
    {
      if active[i] && indegrees[i] == 0 {
        queue := queue + [i];
      }
    }
  }

  /** Decrements the in-degree of every dependent of `provider` and queues those that become free. */
  method ReleaseDependents(provider: nat, g: Graph, indegrees: seq<nat>, queue: seq<nat>)
      returns (indegrees': seq<nat>, queue': seq<nat>)
    requires |indegrees| == |g|
    ensures |indegrees'| == |g|
    ensures forall c :: 0 <= c < |g| ==>
              indegrees'[c] == if provider in g[c] && indegrees[c] > 0 then indegrees[c] - 1 else indegrees[c]
    ensures queue <= queue'
    ensures Distinct(queue'[|queue|..])
    ensures forall c :: c in queue'[|queue|..] <==> 0 <= c < |g| && provider in g[c] && indegrees[c] == 1
  {
    indegrees', queue' := indegrees, queue;
    ghost var freed: seq<nat> := [];
    for c := 0 to |g|
      invariant |indegrees'| == |g|
      invariant forall b :: 0 <= b < |g| ==>
                  indegrees'[b] ==
                    if b < c && provider in g[b] && indegrees[b] > 0 then indegrees[b] - 1 else indegrees[b]
      invariant queue' == queue + freed
      invariant Distinct(freed)
      invariant forall b :: b in freed <==> 0 <= b < c && provider in g[b] && indegrees[b] == 1
    {
      if provider in g[c] && indegrees'[c] > 0 {
        indegrees' := indegrees'[c := indegrees'[c] - 1];
        if indegrees'[c] == 0 {
          queue' := queue' + [c];
          freed := freed + [c];
        }
      }
    }
    assert queue'[|queue|..] == freed;
  }

  lemma ReleaseIndegrees(g: Graph, indegrees: seq<nat>, order: seq<nat>, provider: nat, c: nat)
    requires WellFormed(g) && |indegrees| == |g| && c < |g| && provider !in order
    requires indegrees[c] == Missing(g[c], order)
    ensures provider in g[c] ==> indegrees[c] > 0
    ensures Missing(g[c], order + [provider]) ==
              if provider in g[c] && indegrees[c] > 0 then indegrees[c] - 1 else indegrees[c]
  {
    MissingDone(g[c], order, provider);
    MissingZero(g[c], order);
  }

  /** One round of the loop: the head of the queue is ordered and its dependents are released. */
  lemma RoundKeeps(g: Graph, active: seq<bool>, indegrees: seq<nat>, order: seq<nat>, queue: seq<nat>,
                   indegrees': seq<nat>, queue': seq<nat>)
    requires WellFormed(g) && Bookkeeping(g, active, indegrees, order, queue) && queue != []
    requires |indegrees'| == |g|
    requires forall c :: 0 <= c < |g| ==>
               indegrees'[c] == if queue[0] in g[c] && indegrees[c] > 0 then indegrees[c] - 1 else indegrees[c]
    requires queue[1..] <= queue' && Distinct(queue'[|queue| - 1..])
    requires forall c :: c in queue'[|queue| - 1..] <==> 0 <= c < |g| && queue[0] in g[c] && indegrees[c] == 1
    ensures Bookkeeping(g, active, indegrees', order + [queue[0]], queue')
  {
    var provider := queue[0];
    var freed := queue'[|queue| - 1..];
    assert queue' == queue[1..] + freed;
    assert order + queue == order + [provider] + queue[1..];
    HeadNotBefore(order, queue);
    var all := order + [provider] + queue';
    assert all == (order + queue) + freed;
    forall c | 0 <= c < |g| ensures indegrees'[c] == Missing(g[c], order + [provider]) {
      ReleaseIndegrees(g, indegrees, order, provider, c);
    }
    FreedIsNew(g, active, indegrees, order, queue, freed);
    forall v | v in all ensures v < |g| && active[v] && indegrees'[v] == 0 {
      if v in order + queue {
        ReleaseIndegrees(g, indegrees, order, provider, v);
      }
    }
    forall v | 0 <= v < |g| && active[v] && indegrees'[v] == 0 ensures v in all {
      if indegrees[v] == 0 {
        assert v in order + queue;
      } else {
        assert v in freed;
      }
    }
  }

  lemma HeadNotBefore(order: seq<nat>, queue: seq<nat>)
    requires Distinct(order + queue) && queue != []
    ensures queue[0] !in order
  {
    assert (order + queue)[|order|] == queue[0];
    assert forall i :: 0 <= i < |order| ==> (order + queue)[i] == order[i];
  }

  lemma FreedIsNew(g: Graph, active: seq<bool>, indegrees: seq<nat>, order: seq<nat>, queue: seq<nat>, freed: seq<nat>)
    requires Bookkeeping(g, active, indegrees, order, queue) && queue != [] && Distinct(freed)
    requires forall c :: c in freed <==> 0 <= c < |g| && queue[0] in g[c] && indegrees[c] == 1
    ensures Distinct((order + queue) + freed)
    ensures forall v :: v in freed ==> active[v]
  {
    var done := order + queue;
    forall i, j | 0 <= i < j < |done + freed| ensures (done + freed)[i] != (done + freed)[j] {
      if i < |done| <= j {
        assert done[i] in done && freed[j - |done|] in freed;
      }
    }
  }

  lemma QueueHead(g: Graph, active: seq<bool>, indegrees: seq<nat>, order: seq<nat>, queue: seq<nat>)
    requires Bookkeeping(g, active, indegrees, order, queue) && queue != []
    ensures queue[0] < |g| && queue[0] !in order
    ensures forall d :: d in g[queue[0]] ==> d in order
  {
    HeadNotBefore(order, queue);
    assert queue[0] in order + queue;
    MissingZero(g[queue[0]], order);
  }

  /** Providers before dependents: lists each node it can, after all of its providers, and stops only at stuck nodes. */
  method DependencyOrder(g: Graph, active: seq<bool>) returns (order: seq<nat>)
    requires WellFormed(g) && AmongActive(g, active)
    ensures Distinct(order) && forall v :: v in order ==> v < |g| && active[v]
    ensures ProvidersFirst(g, order)
    ensures forall v :: 0 <= v < |g| && active[v] && v !in order ==> exists d :: d in g[v] && d !in order
    ensures Acyclic(g) ==> forall v :: 0 <= v < |g| && active[v] ==> v in order
  {
    var indegrees: seq<nat> := seq(|g|, v requires 0 <= v < |g| => |g[v]|);
    var queue := InitialQueue(active, indegrees);
    order := [];
    InitialBookkeeping(g, active, indegrees, queue);
    ghost var ordered := seq(|g|, _ => false);
    while queue != []
      invariant Bookkeeping(g, active, indegrees, order, queue)
      invariant ProvidersFirst(g, order)
      invariant |ordered| == |g| && forall v :: 0 <= v < |g| ==> (ordered[v] <==> v in order)
      decreases Unvisited(ordered)
    {
      var provider := queue[0];
      QueueHead(g, active, indegrees, order, queue);
      VisitShrinks(ordered, provider);
      ordered := ordered[provider := true];
      var indegrees', queue' := ReleaseDependents(provider, g, indegrees, queue[1..]);
      RoundKeeps(g, active, indegrees, order, queue, indegrees', queue');
      OrderExtends(g, order, provider);
      indegrees, queue, order := indegrees', queue', order + [provider];
    }
    Finished(g, active, indegrees, order);
    if Acyclic(g) {
      StuckMeansCycle(g, active, order);
    }
  }

  lemma InitialBookkeeping(g: Graph, active: seq<bool>, indegrees: seq<nat>, queue: seq<nat>)
    requires AmongActive(g, active) && |indegrees| == |g| && forall v :: 0 <= v < |g| ==> indegrees[v] == |g[v]|
    requires Distinct(queue) && forall v :: v in queue <==> 0 <= v < |active| && active[v] && indegrees[v] == 0
    ensures Bookkeeping(g, active, indegrees, [], queue)
  {
    forall v | 0 <= v < |g| ensures indegrees[v] == Missing(g[v], []) {
      MissingNone(g[v]);
    }
    assert [] + queue == queue;
  }

  lemma OrderExtends(g: Graph, order: seq<nat>, provider: nat)
    requires ProvidersFirst(g, order) && provider < |g| && forall d :: d in g[provider] ==> d in order
    ensures ProvidersFirst(g, order + [provider])
  {
    var more := order + [provider];
    forall k | 0 <= k < |more| ensures more[k] < |g| && forall d :: d in g[more[k]] ==> d in more[..k] {
      if k < |order| {
        assert more[..k] == order[..k];
      } else {
        assert more[..k] == order;
      }
    }
  }

  lemma Finished(g: Graph, active: seq<bool>, indegrees: seq<nat>, order: seq<nat>)
    requires Bookkeeping(g, active, indegrees, order, [])
    ensures Distinct(order) && forall v :: v in order ==> v < |g| && active[v]
    ensures forall v :: 0 <= v < |g| && active[v] && v !in order ==> exists d :: d in g[v] && d !in order
  {
    assert order + [] == order;
    forall v | 0 <= v < |g| && active[v] && v !in order ensures exists d :: d in g[v] && d !in order {
      MissingZero(g[v], order);
    }
  }

  /** If nodes remain that all wait for one another, they contain a cycle. */
  lemma StuckMeansCycle(g: Graph, active: seq<bool>, order: seq<nat>)
    requires AmongActive(g, active) && Acyclic(g)
    requires forall v :: 0 <= v < |g| && active[v] && v !in order ==> exists d :: d in g[v] && d !in order
    ensures forall v :: 0 <= v < |g| && active[v] ==> v in order
  {
    var stuck := set v: nat | v < |g| && active[v] && v !in order;
    forall v | v in stuck ensures HasSuccessor(g, stuck, v) {
      var d :| d in g[v] && d !in order;
      assert d in stuck;
    }
    if stuck != {} {
      var w := NoSinkMeansCycle(g, stuck);
    }
    forall v | 0 <= v < |g| && active[v] ensures v in order {
      assert v !in stuck;
    }
  }

  // ---------- What the ordering lists ----------

  /** A cycle is reachable from `v`, or `v` is on one. */
  ghost predicate ReachesCycle(g: Graph, v: nat) {
    exists w :: (w == v || Reaches(g, v, w)) && OnCycle(g, w)
  }

  lemma {:induction false} ReachedIsEarlier(g: Graph, order: seq<nat>, p: seq<nat>, k: nat)
    requires ProvidersFirst(g, order) && k < |order| && Walk(g, p) && |p| >= 2 && p[0] == order[k]
    ensures p[|p| - 1] in order[..k]
    decreases |p|
  {
    var d := p[1];
    assert d in order[..k];
    if |p| > 2 {
      var j :| 0 <= j < k && order[j] == d;
      assert Walk(g, p[1..]);
      ReachedIsEarlier(g, order, p[1..], j);
      assert forall x :: x in order[..j] ==> x in order[..k];
    }
  }

  lemma OrderedReachesNoCycle(g: Graph, order: seq<nat>, k: nat)
    requires ProvidersFirst(g, order) && Distinct(order) && k < |order|
    ensures !ReachesCycle(g, order[k])
  {
    if w :| (w == order[k] || Reaches(g, order[k], w)) && OnCycle(g, w) {
      var j := k;
      if w != order[k] {
        var q :| Path(g, q, order[k], w);
        ReachedIsEarlier(g, order, q, k);
        j :| 0 <= j < k && order[j] == w;
      }
      var p :| Path(g, p, w, w);
      ReachedIsEarlier(g, order, p, j);
    }
  }

  lemma StuckReachesCycle(g: Graph, active: seq<bool>, order: seq<nat>, v: nat)
    requires AmongActive(g, active)
    requires forall x :: 0 <= x < |g| && active[x] && x !in order ==> exists d :: d in g[x] && d !in order
    requires v < |g| && active[v] && v !in order
    ensures ReachesCycle(g, v)
  {
    var stuck := set x: nat | x < |g| && active[x] && x !in order && (x == v || Reaches(g, v, x));
    forall x | x in stuck ensures HasSuccessor(g, stuck, x) {
      var d :| d in g[x] && d !in order;
      if x == v {
        EdgeReaches(g, v, d);
      } else {
        ReachesFurther(g, v, x, d);
      }
      assert d in stuck;
    }
    assert v in stuck;
    var w := NoSinkMeansCycle(g, stuck);
  }

  /** Kahn's loop lists exactly the active nodes from which no cycle can be reached. */
  lemma OrderExact(g: Graph, active: seq<bool>, order: seq<nat>, v: nat)
    requires AmongActive(g, active) && ProvidersFirst(g, order) && Distinct(order)
    requires forall x :: 0 <= x < |g| && active[x] && x !in order ==> exists d :: d in g[x] && d !in order
    requires v < |g| && active[v]
    ensures v in order <==> !ReachesCycle(g, v)
  {
    if v in order {
      var k :| 0 <= k < |order| && order[k] == v;
      OrderedReachesNoCycle(g, order, k);
    } else {
      StuckReachesCycle(g, active, order, v);
    }
  }

  // ---------- An order exists ----------

  lemma FreeExists(g: Graph, active: seq<bool>, order: seq<nat>, v: nat) returns (w: nat)
    requires AmongActive(g, active) && Acyclic(g)
    requires v < |g| && active[v] && v !in order
    ensures w < |g| && active[w] && w !in order && forall d :: d in g[w] ==> d in order
  {
    if forall x :: 0 <= x < |g| && active[x] && x !in order ==> exists d :: d in g[x] && d !in order {
      StuckMeansCycle(g, active, order);
      w := v;
    } else {
      w :| 0 <= w < |g| && active[w] && w !in order && forall d :: d in g[w] ==> d in order;
    }
  }

  /** An acyclic graph can always be ordered providers first. */
  lemma OrderExists(g: Graph, active: seq<bool>) returns (order: seq<nat>)
    requires AmongActive(g, active) && Acyclic(g)
    ensures Distinct(order) && ProvidersFirst(g, order)
    ensures forall v :: v in order <==> 0 <= v < |g| && active[v]
  {
    order := [];
    var left := set v: nat | v < |g| && active[v];
    while left != {}
      invariant Distinct(order) && ProvidersFirst(g, order)
      invariant forall v :: v in order ==> 0 <= v < |g| && active[v]
      invariant forall v: nat :: v in left <==> v < |g| && active[v] && v !in order
      decreases left
    {
      var v :| v in left;
      var w := FreeExists(g, active, order, v);
      OrderExtends(g, order, w);
      order, left := order + [w], left - {w};
    }
  }
}
