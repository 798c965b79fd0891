/** One sweep over the modules in dependency order: validation and startup differ only in what a visit does. */
module LifecyclePass {
  import opened Words
  import opened Capability
  import opened LifecycleGraph
  import opened LifecycleModel
  import opened LifecycleInvariant

  datatype Sweep =
    | Validation(validations: nat -> ValidationOutcome)
    | Startup(starts: nat -> StartOutcome)
  {
    /** The state a module must be in to be visited at all. */
    function Pending(): ModuleState {
      if Validation? then Discovered else Validated
    }

    /** The states in which a provider counts as available. */
    function Accepted(): set<ModuleState> {
      if Validation? then {Validated, Ready, Degraded} else {Ready, Degraded}
    }

    function Perform(i: nat, m: ManagedModule): ManagedModule {
      match this
      case Validation(validations) => ValidateModule(m, validations(i))
      case Startup(starts) => StartModule(m, starts(i))
    }

    function Performed(i: nat, m: ManagedModule): seq<Event> {
      match this
      case Validation(_) => ValidationEvents(i, m)
      case Startup(starts) => StartEvents(i, m, starts(i))
    }
  }

  function Outcome(sweep: Sweep, i: nat, m: ManagedModule, available: bool): ManagedModule {
    if m.state != sweep.Pending() then m
    else if !available then MarkUnavailable(m, CoreErrorCode.Unavailable)
    else sweep.Perform(i, m)
  }

  function Calls(sweep: Sweep, i: nat, m: ManagedModule, available: bool): seq<Event> {
    if m.state == sweep.Pending() && available then sweep.Performed(i, m) else []
  }

  function Visit(sweep: Sweep, f: Fleet, i: nat): (r: Fleet)
    requires i < |f.modules|
    ensures |r.modules| == |f.modules|
  {
    var available := DependenciesIn(f.modules, i, sweep.Accepted());
    Fleet(f.modules[i := Outcome(sweep, i, f.modules[i], available)], f.log + Calls(sweep, i, f.modules[i], available))
  }

  ghost predicate Indices(order: seq<nat>, n: nat) {
    forall k :: 0 <= k < |order| ==> order[k] < n
  }

  ghost function Swept(sweep: Sweep, f: Fleet, order: seq<nat>, k: nat): (r: Fleet)
    requires Indices(order, |f.modules|) && k <= |order|
    ensures |r.modules| == |f.modules|
  {
    if k == 0 then f else Visit(sweep, Swept(sweep, f, order, k - 1), order[k - 1])
  }

  // ---------- A sweep keeps the invariant ----------

  lemma AvailableWereAttached(f: Fleet, i: nat, accepted: set<ModuleState>)
    requires Inv(f) && i < |f.modules| && accepted <= {Ready, Degraded}
    requires DependenciesIn(f.modules, i, accepted)
    ensures forall b :: b in f.modules[i].resolution.value ==> AttachedBy(f.modules, f.log, b.provider.moduleId)
  {
    var bindings := f.modules[i].resolution.value;
    forall b | 0 <= b < |bindings| ensures AttachedBy(f.modules, f.log, bindings[b].provider.moduleId) {
      var p := ModuleIndex(f.modules, bindings[b].provider.moduleId).value;
      assert f.modules[p].state in accepted;
      assert Fits(f.modules[p], Replay(f.log, p));
      var k := HeldWasAttached(f.log, p);
    }
  }

  lemma CallsAreOwn(sweep: Sweep, i: nat, m: ManagedModule, available: bool)
    ensures About(Calls(sweep, i, m, available), i)
  {
  }

  lemma CallsAreReady(sweep: Sweep, f: Fleet, i: nat)
    requires Inv(f) && i < |f.modules|
    ensures ReadyToLog(f.modules, f.log, Calls(sweep, i, f.modules[i], DependenciesIn(f.modules, i, sweep.Accepted())))
  {
    if sweep.Startup? && DependenciesIn(f.modules, i, sweep.Accepted()) {
      AvailableWereAttached(f, i, sweep.Accepted());
    }
  }

  lemma OutcomeFits(sweep: Sweep, i: nat, m: ManagedModule, phase: Phase, available: bool)
    requires Fits(m, phase)
    ensures Fits(Outcome(sweep, i, m, available), ReplayFrom(phase, Calls(sweep, i, m, available)))
  {
    assert ReplayFrom(phase, []) == phase;
    if m.state == sweep.Pending() && available {
      match sweep
      case Validation(validations) => ValidationFits(i, m, phase, validations(i));
      case Startup(starts) => StartFits(i, m, phase, starts(i));
    }
  }

  lemma VisitKeeps(sweep: Sweep, f: Fleet, i: nat)
    requires Inv(f) && i < |f.modules|
    ensures Inv(Visit(sweep, f, i))
  {
    var m := f.modules[i];
    var available := DependenciesIn(f.modules, i, sweep.Accepted());
    CallsAreOwn(sweep, i, m, available);
    CallsAreReady(sweep, f, i);
    OutcomeFits(sweep, i, m, Replay(f.log, i), available);
    UpdateKeeps(f, i, Outcome(sweep, i, m, available), Calls(sweep, i, m, available));
  }

  lemma {:induction false} SweptKeeps(sweep: Sweep, f: Fleet, order: seq<nat>, k: nat)
    requires Inv(f) && Indices(order, |f.modules|) && k <= |order|
    ensures Inv(Swept(sweep, f, order, k))
  {
    if k > 0 {
      SweptKeeps(sweep, f, order, k - 1);
      VisitKeeps(sweep, Swept(sweep, f, order, k - 1), order[k - 1]);
    }
  }

  // ---------- What a sweep settles ----------

  /** The same modules bound to the same providers. */
  ghost predicate SameBindings(a: seq<ManagedModule>, b: seq<ManagedModule>) {
    SameModules(a, b) && forall i :: 0 <= i < |a| ==> a[i].resolution == b[i].resolution
  }

  lemma {:induction false} IndexSame(a: seq<ManagedModule>, b: seq<ManagedModule>, id: Text)
    requires SameModules(a, b)
    ensures ModuleIndex(a, id) == ModuleIndex(b, id)
  {
    if a != [] {
      IndexSame(a[..|a| - 1], b[..|b| - 1], id);
    }
  }

  /** `order` lists exactly the participating modules, each after all its participating providers. */
  ghost predicate Schedules(ms: seq<ManagedModule>, order: seq<nat>) {
    && Distinct(order)
    && Indices(order, |ms|)
    && (forall i :: i in order <==> 0 <= i < |ms| && Participates(ms[i].state))
    && ProvidersFirst(DependencyGraph(ms, Participating(ms)), order)
  }

  /** Every module the sweep could change is listed. */
  ghost predicate Covers(sweep: Sweep, ms: seq<ManagedModule>, order: seq<nat>) {
    forall i :: 0 <= i < |ms| && ms[i].state == sweep.Pending() ==> i in order
  }

  ghost predicate SettledAt(sweep: Sweep, before: seq<ManagedModule>, after: seq<ManagedModule>, i: nat)
    requires |before| == |after| && i < |before|
  {
    after[i] == Outcome(sweep, i, before[i], DependenciesIn(after, i, sweep.Accepted()))
  }

  /**
   * The outcome of a sweep as an equation that mentions no order: every module ends as its own outcome given how its
   * providers ended.
   */
  ghost predicate Settled(sweep: Sweep, before: seq<ManagedModule>, after: seq<ManagedModule>) {
    && SameBindings(before, after)
    && forall i :: 0 <= i < |before| ==> SettledAt(sweep, before, after, i)
  }

  lemma OutcomeBindings(sweep: Sweep, i: nat, m: ManagedModule, available: bool)
    ensures Outcome(sweep, i, m, available).descriptor == m.descriptor
    ensures Outcome(sweep, i, m, available).resolution == m.resolution
  {
  }

  lemma VisitBindings(sweep: Sweep, f: Fleet, i: nat)
    requires i < |f.modules|
    ensures SameBindings(f.modules, Visit(sweep, f, i).modules)
  {
    OutcomeBindings(sweep, i, f.modules[i], DependenciesIn(f.modules, i, sweep.Accepted()));
  }

  /** No binding of `i` names `x`. */
  ghost predicate Unbound(ms: seq<ManagedModule>, i: nat, x: nat)
    requires i < |ms|
  {
    ms[i].resolution.Some? ==>
      var bindings := ms[i].resolution.value;
      forall b :: 0 <= b < |bindings| ==> ModuleIndex(ms, bindings[b].provider.moduleId) != Some(x)
  }

  lemma UnboundUnaffected(a: seq<ManagedModule>, b: seq<ManagedModule>, i: nat, x: nat, accepted: set<ModuleState>)
    requires SameBindings(a, b) && i < |a| && x < |a| && Unbound(a, i, x)
    requires forall j :: 0 <= j < |a| && j != x ==> a[j] == b[j]
    ensures DependenciesIn(a, i, accepted) == DependenciesIn(b, i, accepted)
  {
    if a[i].resolution.Some? {
      var bindings := a[i].resolution.value;
      forall k | 0 <= k < |bindings|
        ensures ModuleIndex(a, bindings[k].provider.moduleId) == ModuleIndex(b, bindings[k].provider.moduleId)
      {
        IndexSame(a, b, bindings[k].provider.moduleId);
      }
    }
  }

  lemma EdgeIs(ms: seq<ManagedModule>, active: seq<bool>, i: nat, d: nat)
    requires |active| == |ms| && i < |ms| && d < |ms|
    ensures d in DependencyGraph(ms, active)[i] <==> DependsOn(ms, active, i, d)
  {
    assert DependencyGraph(ms, active)[i] == ProvidersBelow(ms, active, i, |ms|);
  }

  /** What is visited later is no provider of what was visited before, nor of itself. */
  lemma LaterIsUnbound(ms: seq<ManagedModule>, order: seq<nat>, j: nat, k: nat)
    requires Schedules(ms, order) && j <= k < |order|
    ensures Unbound(ms, order[j], order[k])
  {
    var active := Participating(ms);
    var i, x := order[j], order[k];
    assert i in order && x in order;
    EdgeIs(ms, active, i, x);
    assert x !in order[..j];
    assert !DependsOn(ms, active, i, x);
  }

  lemma UnboundSame(a: seq<ManagedModule>, b: seq<ManagedModule>, i: nat, x: nat)
    requires SameBindings(a, b) && i < |a|
    ensures Unbound(a, i, x) == Unbound(b, i, x)
  {
    if a[i].resolution.Some? {
      var bindings := a[i].resolution.value;
      forall k | 0 <= k < |bindings|
        ensures ModuleIndex(a, bindings[k].provider.moduleId) == ModuleIndex(b, bindings[k].provider.moduleId)
      {
        IndexSame(a, b, bindings[k].provider.moduleId);
      }
    }
  }

  /** Nothing in `order` is bound to itself or to anything after it. */
  ghost predicate Sequenced(ms: seq<ManagedModule>, order: seq<nat>) {
    && Distinct(order) && Indices(order, |ms|)
    && forall j, k :: 0 <= j <= k < |order| ==> Unbound(ms, order[j], order[k])
  }

  lemma ScheduleSequences(ms: seq<ManagedModule>, order: seq<nat>)
    requires Schedules(ms, order)
    ensures Sequenced(ms, order)
  {
    forall j, k | 0 <= j <= k < |order| ensures Unbound(ms, order[j], order[k]) {
      LaterIsUnbound(ms, order, j, k);
    }
  }

  ghost predicate SettledSoFar(sweep: Sweep, before: seq<ManagedModule>, after: seq<ManagedModule>, order: seq<nat>,
                               k: nat)
    requires k <= |order| && Indices(order, |before|)
  {
    && SameBindings(before, after)
    && (forall i :: 0 <= i < |before| && i !in order[..k] ==> after[i] == before[i])
    && forall j :: 0 <= j < k ==> SettledAt(sweep, before, after, order[j])
  }

  /** Only `x` differs, and it differs by its own outcome. */
  ghost predicate VisitedAt(sweep: Sweep, now: seq<ManagedModule>, next: seq<ManagedModule>, x: nat) {
    && x < |now|
    && SameBindings(now, next)
    && (forall i :: 0 <= i < |now| && i != x ==> next[i] == now[i])
    && next[x] == Outcome(sweep, x, now[x], DependenciesIn(now, x, sweep.Accepted()))
  }

  lemma VisitVisits(sweep: Sweep, f: Fleet, i: nat)
    requires i < |f.modules|
    ensures VisitedAt(sweep, f.modules, Visit(sweep, f, i).modules, i)
  {
    VisitBindings(sweep, f, i);
  }

  lemma EarlierStaySettled(sweep: Sweep, before: seq<ManagedModule>, now: seq<ManagedModule>, next: seq<ManagedModule>,
                           i: nat, x: nat)
    requires SameBindings(before, now) && VisitedAt(sweep, now, next, x)
    requires i < |before| && i != x && Unbound(before, i, x) && SettledAt(sweep, before, now, i)
    ensures SettledAt(sweep, before, next, i)
  {
    UnboundSame(before, now, i, x);
    UnboundUnaffected(now, next, i, x, sweep.Accepted());
  }

  lemma VisitedIsSettled(sweep: Sweep, before: seq<ManagedModule>, now: seq<ManagedModule>, next: seq<ManagedModule>,
                         x: nat)
    requires SameBindings(before, now) && VisitedAt(sweep, now, next, x)
    requires Unbound(before, x, x) && now[x] == before[x]
    ensures SettledAt(sweep, before, next, x)
  {
    UnboundSame(before, now, x, x);
    UnboundUnaffected(now, next, x, x, sweep.Accepted());
  }

  lemma VisitSettles(sweep: Sweep, before: seq<ManagedModule>, now: seq<ManagedModule>, next: seq<ManagedModule>,
                     order: seq<nat>, k: nat)
    requires Sequenced(before, order) && 0 < k <= |order|
    requires SettledSoFar(sweep, before, now, order, k - 1)
    requires VisitedAt(sweep, now, next, order[k - 1])
    ensures SettledSoFar(sweep, before, next, order, k)
  {
    var x := order[k - 1];
    assert order[..k] == order[..k - 1] + [x];
    assert x !in order[..k - 1];
    VisitedIsSettled(sweep, before, now, next, x);
    forall j | 0 <= j < k - 1 ensures SettledAt(sweep, before, next, order[j]) {
      EarlierStaySettled(sweep, before, now, next, order[j], x);
    }
  }

  lemma AllSettled(sweep: Sweep, before: seq<ManagedModule>, after: seq<ManagedModule>, order: seq<nat>)
    requires Sequenced(before, order) && Covers(sweep, before, order)
    requires SettledSoFar(sweep, before, after, order, |order|)
    ensures Settled(sweep, before, after)
  {
    assert order[..|order|] == order;
    forall i | 0 <= i < |after| ensures SettledAt(sweep, before, after, i) {
      if i in order {
        var j :| 0 <= j < |order| && order[j] == i;
      }
    }
  }

  ghost predicate ChainedAt(sweep: Sweep, order: seq<nat>, states: seq<seq<ManagedModule>>, j: nat)
    requires 0 < j < |states| <= |order| + 1
  {
    VisitedAt(sweep, states[j - 1], states[j], order[j - 1])
  }

  lemma {:induction false} ChainSettles(sweep: Sweep, order: seq<nat>, states: seq<seq<ManagedModule>>, k: nat)
    requires |states| == |order| + 1 && k <= |order| && Sequenced(states[0], order)
    requires forall j :: 0 < j <= |order| ==> ChainedAt(sweep, order, states, j)
    ensures SettledSoFar(sweep, states[0], states[k], order, k)
  {
    if k > 0 {
      ChainSettles(sweep, order, states, k - 1);
      assert ChainedAt(sweep, order, states, k);
      VisitSettles(sweep, states[0], states[k - 1], states[k], order, k);
    }
  }

  ghost predicate Chain(sweep: Sweep, order: seq<nat>, states: seq<seq<ManagedModule>>) {
    0 < |states| <= |order| + 1 && forall j :: 0 < j < |states| ==> ChainedAt(sweep, order, states, j)
  }

  lemma ChainExtends(sweep: Sweep, order: seq<nat>, states: seq<seq<ManagedModule>>, next: seq<ManagedModule>)
    requires Chain(sweep, order, states) && |states| <= |order|
    requires VisitedAt(sweep, states[|states| - 1], next, order[|states| - 1])
    ensures Chain(sweep, order, states + [next])
  {
    forall j | 0 < j < |states + [next]| ensures ChainedAt(sweep, order, states + [next], j) {
      assert j < |states| ==> ChainedAt(sweep, order, states, j);
    }
  }

  lemma {:induction false} SweptChain(sweep: Sweep, f: Fleet, order: seq<nat>, k: nat)
      returns (states: seq<seq<ManagedModule>>)
    requires Indices(order, |f.modules|) && k <= |order|
    ensures Chain(sweep, order, states) && |states| == k + 1
    ensures states[0] == f.modules && states[k] == Swept(sweep, f, order, k).modules
  {
    if k == 0 {
      states := [f.modules];
    } else {
      var before := SweptChain(sweep, f, order, k - 1);
      var g := Swept(sweep, f, order, k - 1);
      var next := Visit(sweep, g, order[k - 1]).modules;
      VisitVisits(sweep, g, order[k - 1]);
      ChainExtends(sweep, order, before, next);
      states := before + [next];
    }
  }

  lemma ChainAllSettled(sweep: Sweep, order: seq<nat>, states: seq<seq<ManagedModule>>)
    requires Chain(sweep, order, states) && |states| == |order| + 1 && Sequenced(states[0], order)
             && Covers(sweep, states[0], order)
    ensures Settled(sweep, states[0], states[|order|])
  {
    ChainSettles(sweep, order, states, |order|);
    AllSettled(sweep, states[0], states[|order|], order);
  }

  /** Visiting one module after another solves the order-free equation. */
  lemma SweptSettles(sweep: Sweep, f: Fleet, order: seq<nat>)
    requires Sequenced(f.modules, order) && Covers(sweep, f.modules, order)
    ensures Settled(sweep, f.modules, Swept(sweep, f, order, |order|).modules)
  {
    var states := SweptChain(sweep, f, order, |order|);
    ChainAllSettled(sweep, order, states);
  }

  // ---------- Failure isolation ----------

  /** Whatever a member is bound to is a member too. */
  ghost predicate Closed(ms: seq<ManagedModule>, members: set<nat>) {
    forall i, d :: i in members && 0 <= i < |ms| && 0 <= d < |ms| && !Unbound(ms, i, d) ==> d in members
  }

  /** Two sweeps of the same kind give the members the same outcomes. */
  ghost predicate AgreeOn(a: Sweep, b: Sweep, members: set<nat>) {
    match (a, b)
    case (Validation(v), Validation(w)) => forall i :: i in members ==> v(i) == w(i)
    case (Startup(s), Startup(t)) => forall i :: i in members ==> s(i) == t(i)
    case _ => false
  }

  ghost predicate SameOn(x: seq<ManagedModule>, y: seq<ManagedModule>, members: set<nat>) {
    |x| == |y| && forall i :: i in members && 0 <= i < |x| ==> x[i] == y[i]
  }

  lemma SameAvailability(x: seq<ManagedModule>, y: seq<ManagedModule>, i: nat, accepted: set<ModuleState>)
    requires SameBindings(x, y) && i < |x|
    requires forall d :: 0 <= d < |x| && !Unbound(x, i, d) ==> x[d] == y[d]
    ensures DependenciesIn(x, i, accepted) == DependenciesIn(y, i, accepted)
  {
    if x[i].resolution.Some? {
      var bindings := x[i].resolution.value;
      forall b | 0 <= b < |bindings|
        ensures var p := ModuleIndex(x, bindings[b].provider.moduleId);
                p == ModuleIndex(y, bindings[b].provider.moduleId) && (p.Some? ==> x[p.value] == y[p.value])
      {
        IndexSame(x, y, bindings[b].provider.moduleId);
        var p := ModuleIndex(x, bindings[b].provider.moduleId);
        if p.Some? {
          assert !Unbound(x, i, p.value);
        }
      }
    }
  }

  lemma BoundIsEarlier(ms: seq<ManagedModule>, order: seq<nat>, j: nat, k: nat)
    requires Sequenced(ms, order) && j < |order| && k < |order| && !Unbound(ms, order[k], order[j])
    ensures j < k
  {
  }

  lemma Unvisited(a: Sweep, b: Sweep, before: seq<ManagedModule>, other: seq<ManagedModule>,
                  x: seq<ManagedModule>, y: seq<ManagedModule>, order: seq<nat>, members: set<nat>, d: nat)
    requires Covers(a, before, order) && AgreeOn(a, b, members) && |before| == |other|
    requires Settled(a, before, x) && Settled(b, other, y) && SameOn(before, other, members)
    requires d < |before| && d in members && d !in order
    ensures x[d] == y[d]
  {
    assert SettledAt(a, before, x, d) && SettledAt(b, other, y, d);
  }

  lemma {:induction false} MemberSettlesAlike(
      a: Sweep, b: Sweep, before: seq<ManagedModule>, other: seq<ManagedModule>,
      x: seq<ManagedModule>, y: seq<ManagedModule>, order: seq<nat>, members: set<nat>, k: nat)
    requires Sequenced(before, order) && Covers(a, before, order) && Closed(before, members) && AgreeOn(a, b, members)
    requires SameBindings(before, other) && SameOn(before, other, members)
    requires Settled(a, before, x) && Settled(b, other, y)
    requires k < |order| && order[k] in members
    ensures x[order[k]] == y[order[k]]
    decreases k
  {
    var i := order[k];
    forall d | 0 <= d < |before| && !Unbound(x, i, d) ensures x[d] == y[d] {
      UnboundSame(before, x, i, d);
      if d in order {
        var j :| 0 <= j < |order| && order[j] == d;
        BoundIsEarlier(before, order, j, k);
        MemberSettlesAlike(a, b, before, other, x, y, order, members, j);
      } else {
        Unvisited(a, b, before, other, x, y, order, members, d);
      }
    }
    SameAvailability(x, y, i, a.Accepted());
    assert SettledAt(a, before, x, i) && SettledAt(b, other, y, i);
  }

  /** A module's fate depends on nothing but its own outcome and those of the modules it transitively needs. */
  lemma FailureIsolation(a: Sweep, b: Sweep, before: seq<ManagedModule>, other: seq<ManagedModule>,
                         x: seq<ManagedModule>, y: seq<ManagedModule>, order: seq<nat>, members: set<nat>)
    requires Sequenced(before, order) && Covers(a, before, order) && Closed(before, members) && AgreeOn(a, b, members)
    requires SameBindings(before, other) && SameOn(before, other, members)
    requires Settled(a, before, x) && Settled(b, other, y)
    ensures SameOn(x, y, members)
  {
    forall i | i in members && 0 <= i < |x| ensures x[i] == y[i] {
      if i in order {
        var k :| 0 <= k < |order| && order[k] == i;
        MemberSettlesAlike(a, b, before, other, x, y, order, members, k);
      } else {
        Unvisited(a, b, before, other, x, y, order, members, i);
      }
    }
  }

  ghost function Below(n: nat): (r: set<nat>)
    ensures forall i: nat :: i in r <==> i < n
  {
    if n == 0 then {} else Below(n - 1) + {n - 1}
  }

  /** Any two orders that respect the bindings lead to the same modules. */
  lemma OrderIrrelevant(sweep: Sweep, f: Fleet, o1: seq<nat>, o2: seq<nat>)
    requires Sequenced(f.modules, o1) && Covers(sweep, f.modules, o1)
    requires Sequenced(f.modules, o2) && Covers(sweep, f.modules, o2)
    ensures Swept(sweep, f, o1, |o1|).modules == Swept(sweep, f, o2, |o2|).modules
  {
    var x := Swept(sweep, f, o1, |o1|).modules;
    var y := Swept(sweep, f, o2, |o2|).modules;
    SweptSettles(sweep, f, o1);
    SweptSettles(sweep, f, o2);
    FailureIsolation(sweep, sweep, f.modules, f.modules, x, y, o1, Below(|f.modules|));
  }
}
