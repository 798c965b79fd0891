/** How later states of a run relate to earlier ones: what is final, what can return, and what shutdown leaves. */
module LifecycleHistory {
  import opened Words
  import opened LifecycleGraph
  import opened LifecycleModel
  import opened LifecycleInvariant
  import opened LifecyclePass
  import opened LifecycleShutdown
  import opened LifecycleOperations
  import opened LifecycleRuns

  /** Out of service with nothing left to stop. */
  predicate Retired(m: ManagedModule) {
    m.handle.None? && (m.state == ModuleState.Unavailable || m.state == Stopped)
  }

  /** Retirement is final, and a handle once attached is kept or given up, never replaced. */
  ghost predicate Follows(m: ManagedModule, n: ManagedModule) {
    && n.descriptor == m.descriptor
    && (m.generation > 0 ==> n.generation > 0 && (n.handle == m.handle || n.handle.None?))
    && (Retired(m) ==> n == m)
  }

  ghost predicate Continues(f: Fleet, g: Fleet) {
    && |f.modules| <= |g.modules| && f.log <= g.log
    && forall i :: 0 <= i < |f.modules| ==> Follows(f.modules[i], g.modules[i])
  }

  lemma ContinuesOn(f: Fleet, g: Fleet, h: Fleet)
    requires Continues(f, g) && Continues(g, h)
    ensures Continues(f, h)
  {
    forall i | 0 <= i < |f.modules| ensures Follows(f.modules[i], h.modules[i]) {
      assert Follows(f.modules[i], g.modules[i]) && Follows(g.modules[i], h.modules[i]);
    }
  }

  lemma UpdateContinues(f: Fleet, i: nat, m: ManagedModule, events: seq<Event>)
    requires i < |f.modules| && Follows(f.modules[i], m)
    ensures Continues(f, Fleet(f.modules[i := m], f.log + events))
  {
  }

  lemma OutcomeFollows(sweep: Sweep, i: nat, m: ManagedModule, phase: Phase, available: bool)
    requires Fits(m, phase)
    ensures Follows(m, Outcome(sweep, i, m, available))
  {
  }

  lemma VisitContinues(sweep: Sweep, f: Fleet, i: nat)
    requires Inv(f) && i < |f.modules|
    ensures Continues(f, Visit(sweep, f, i))
  {
    var m := f.modules[i];
    var available := DependenciesIn(f.modules, i, sweep.Accepted());
    assert Fits(m, Replay(f.log, i));
    OutcomeFollows(sweep, i, m, Replay(f.log, i), available);
    UpdateContinues(f, i, Outcome(sweep, i, m, available), Calls(sweep, i, m, available));
  }

  lemma {:induction false} SweptContinues(sweep: Sweep, f: Fleet, order: seq<nat>, k: nat)
    requires Inv(f) && Indices(order, |f.modules|) && k <= |order|
    ensures Continues(f, Swept(sweep, f, order, k))
  {
    hide Inv, Visit;
    if k > 0 {
      SweptContinues(sweep, f, order, k - 1);
      SweptKeeps(sweep, f, order, k - 1);
      var g := Swept(sweep, f, order, k - 1);
      VisitContinues(sweep, g, order[k - 1]);
      ContinuesOn(f, g, Visit(sweep, g, order[k - 1]));
    }
  }

  lemma PreparedContinues(f: Fleet)
    ensures Continues(f, Fleet(Prepared(f.modules), f.log))
  {
    forall i | 0 <= i < |f.modules| ensures Follows(f.modules[i], Prepared(f.modules)[i]) {
      PreparedWeakens(f.modules, i);
    }
  }

  lemma ValidationContinues(f: Fleet, validations: nat -> ValidationOutcome, order: seq<nat>)
    requires Inv(f) && Schedules(Prepared(f.modules), order)
    ensures Continues(f, AfterValidation(f, validations, order))
  {
    hide Inv, Continues, Swept;
    var p := Fleet(Prepared(f.modules), f.log);
    PreparedContinues(f);
    PreparedKeeps(f);
    SweptContinues(Validation(validations), p, order, |order|);
    ContinuesOn(f, p, AfterValidation(f, validations, order));
  }

  lemma RefreshFollows(m: ManagedModule, probe: HealthOutcome, stop: StopOutcome)
    ensures Follows(m, RefreshHealth(m, probe, stop))
  {
  }

  lemma {:induction false} RefreshedContinues(f: Fleet, probes: nat -> HealthOutcome, stops: nat -> StopOutcome, k: nat)
    requires k <= |f.modules|
    ensures Continues(f, Refreshed(f, probes, stops, k))
  {
    hide RefreshHealth, HealthEvents;
    if k > 0 {
      RefreshedContinues(f, probes, stops, k - 1);
      var g := Refreshed(f, probes, stops, k - 1);
      RefreshFollows(g.modules[k - 1], probes(k - 1), stops(k - 1));
      UpdateContinues(g, k - 1, RefreshHealth(g.modules[k - 1], probes(k - 1), stops(k - 1)),
                      HealthEvents(k - 1, g.modules[k - 1], probes(k - 1), stops(k - 1)));
      ContinuesOn(f, g, Refreshed(f, probes, stops, k));
    }
  }

  lemma ShutdownFollows(m: ManagedModule, stop: StopOutcome)
    ensures Follows(m, ShutdownModule(m, stop))
  {
  }

  lemma {:induction false} HaltedContinues(f: Fleet, stops: nat -> StopOutcome, order: seq<nat>, k: nat)
    requires Indices(order, |f.modules|) && k <= |order|
    ensures Continues(f, Halted(f, stops, order, k))
  {
    hide ShutdownModule, StopEvents;
    if k > 0 {
      HaltedContinues(f, stops, order, k - 1);
      var g := Halted(f, stops, order, k - 1);
      var i := order[k - 1];
      ShutdownFollows(g.modules[i], stops(i));
      UpdateContinues(g, i, ShutdownModule(g.modules[i], stops(i)), StopEvents(i, g.modules[i], stops(i)));
      ContinuesOn(f, g, Halted(f, stops, order, k));
    }
  }

  lemma RegisterContinues(f: Fleet, d: ModuleDescriptor, schema: Text)
    ensures Continues(f, AfterRegister(f, d, schema))
  {
  }

  lemma StepContinues(f: Fleet, op: Operation, g: Fleet)
    requires Inv(f) && Step(f, op, g)
    ensures Continues(f, g)
  {
    hide Inv, Continues, Swept, Refreshed, Halted, Prepared, DependencyGraph, ProvidersFirst, Greedy;
    match op
    case RegisterModule(d, schema) =>
      RegisterContinues(f, d, schema);
    case Validate(validations) =>
      var order :| Schedules(Prepared(f.modules), order) && g == AfterValidation(f, validations, order);
      ValidationContinues(f, validations, order);
    case Start(validations, starts) =>
      var order :| Schedules(Prepared(f.modules), order) &&
                   g == AfterStartup(AfterValidation(f, validations, order), starts, order);
      var validated := AfterValidation(f, validations, order);
      ValidationContinues(f, validations, order);
      ValidationKeeps(f, validations, order);
      SweptContinues(Startup(starts), validated, order, |order|);
      ContinuesOn(f, validated, g);
    case Probe(probes, stops) =>
      RefreshedContinues(f, probes, stops, |f.modules|);
    case Shutdown(stops) =>
      var order :| StopsInOrder(f.modules, order) && g == Halted(f, stops, order, |order|);
      HaltedContinues(f, stops, order, |order|);
  }

  /** Over any stretch of any run: the log only grows, retired modules stay retired, handles are never replaced. */
  lemma {:induction false} RunContinues(fs: seq<Fleet>, ops: seq<Operation>, j: nat, k: nat)
    requires Run(fs, ops) && j <= k < |fs|
    ensures Continues(fs[j], fs[k])
    decreases k - j
  {
    hide Inv, Step;
    if j < k {
      RunContinues(fs, ops, j, k - 1);
      Reachable(fs, ops, k - 1);
      assert StepAt(fs, ops, k - 1);
      StepContinues(fs[k - 1], ops[k - 1], fs[k]);
      ContinuesOn(fs[j], fs[k - 1], fs[k]);
    } else {
      SelfContinues(fs[j]);
    }
  }

  lemma SelfContinues(f: Fleet)
    ensures Continues(f, f)
  {
  }

  // ---------- Coming back from unavailability ----------

  lemma {:induction false} RefreshedAt(f: Fleet, probes: nat -> HealthOutcome, stops: nat -> StopOutcome, k: nat,
                                       i: nat)
    requires k <= |f.modules| && i < |f.modules|
    ensures Refreshed(f, probes, stops, k).modules[i] ==
            if i < k then RefreshHealth(f.modules[i], probes(i), stops(i)) else f.modules[i]
  {
    hide RefreshHealth, HealthEvents;
    if k > 0 {
      RefreshedAt(f, probes, stops, k - 1, i);
    }
  }

  ghost predicate CanReturn(f: Fleet, i: nat) {
    exists op, g :: Step(f, op, g) && i < |g.modules| && Participates(g.modules[i].state)
  }

  /** An unavailable module can serve again exactly while it still holds its handle: a healthy probe revives it. */
  lemma UnavailableReturnsExactlyWithHandle(f: Fleet, i: nat)
    requires Inv(f) && i < |f.modules| && f.modules[i].state == ModuleState.Unavailable
    ensures CanReturn(f, i) <==> f.modules[i].handle.Some?
  {
    hide Inv;
    if f.modules[i].handle.Some? {
      var probes := (x: nat) => Completed(Some(Ok(HealthReady)));
      var stops := (x: nat) => NotSpawned;
      var g := Refreshed(f, probes, stops, |f.modules|);
      RefreshedAt(f, probes, stops, |f.modules|, i);
      assert Step(f, Probe(probes, stops), g);
    } else {
      forall op, g | Step(f, op, g) ensures Continues(f, g) {
        StepContinues(f, op, g);
      }
      assert forall op, g :: Step(f, op, g) ==> Follows(f.modules[i], g.modules[i]);
    }
  }

  // ---------- What shutdown leaves ----------

  lemma {:induction false} HaltedAt(f: Fleet, stops: nat -> StopOutcome, order: seq<nat>, k: nat, i: nat)
    requires Indices(order, |f.modules|) && Distinct(order) && k <= |order| && i < |f.modules|
    ensures Halted(f, stops, order, k).modules[i] ==
            if i in order[..k] then ShutdownModule(f.modules[i], stops(i)) else f.modules[i]
  {
    hide ShutdownModule, StopEvents;
    if k > 0 {
      HaltedAt(f, stops, order, k - 1, i);
      assert order[..k] == order[..k - 1] + [order[k - 1]];
    }
  }

  /** The shutdown calls that reached a worker, in the order of shutdown. */
  ghost function StopCalls(stops: nat -> StopOutcome, order: seq<nat>): seq<Event> {
    if order == [] then []
    else
      var last := |order| - 1;
      StopCalls(stops, order[..last]) + if stops(order[last]).NotSpawned? then [] else [ShutdownCalled(order[last])]
  }

  lemma {:induction false} HaltedLog(f: Fleet, stops: nat -> StopOutcome, order: seq<nat>, k: nat)
    requires Indices(order, |f.modules|) && Distinct(order) && k <= |order|
    requires forall i :: i in order ==> i < |f.modules| && f.modules[i].handle.Some?
    ensures Halted(f, stops, order, k).log == f.log + StopCalls(stops, order[..k])
  {
    hide ShutdownModule;
    if k > 0 {
      HaltedLog(f, stops, order, k - 1);
      var i := order[k - 1];
      HaltedAt(f, stops, order, k - 1, i);
      assert i in order && i !in order[..k - 1];
      assert order[..k][..k - 1] == order[..k - 1];
    } else {
      assert f.log + [] == f.log;
    }
  }

  /**
   * Shutdown reaches every live module whatever the others answer: each ends by its own outcome, keeps a handle only
   * when its worker could not be spawned, and is called in shutdown order.
   */
  lemma ShutdownReachesEveryone(f: Fleet, stops: nat -> StopOutcome, order: seq<nat>)
    requires StopsInOrder(f.modules, order)
    ensures
      var g := Halted(f, stops, order, |order|);
      && g.log == f.log + StopCalls(stops, order)
      && forall i :: 0 <= i < |f.modules| ==> EndsByOwnOutcome(f.modules[i], g.modules[i], stops(i))
  {
    hide Greedy;
    assert order[..|order|] == order;
    HaltedLog(f, stops, order, |order|);
    forall i | 0 <= i < |f.modules|
      ensures EndsByOwnOutcome(f.modules[i], Halted(f, stops, order, |order|).modules[i], stops(i))
    {
      HaltedAt(f, stops, order, |order|, i);
    }
  }

  ghost predicate EndsByOwnOutcome(m: ManagedModule, n: ManagedModule, stop: StopOutcome) {
    if m.handle.None? then n == m
    else
      && (n.handle.Some? <==> stop.NotSpawned?)
      && (n.state == Stopped <==> stop.Completed? && stop.value.Some? && stop.value.value.Ok?)
      && (n.state != Stopped ==> n.state == ModuleState.Unavailable)
      && n.cancelled
  }

  /** Consumers are shut down before their providers exactly when the live dependencies form no cycle. */
  lemma ShutdownRespectsDependencies(ms: seq<ManagedModule>, order: seq<nat>)
    requires DistinctIds(ms) && StopsInOrder(ms, order)
    ensures var g := DependencyGraph(ms, Holding(ms)); ConsumersBeforeProviders(g, order) <==> Acyclic(g)
  {
    StopPlanSound(ms);
    ConsumersFirstExactlyWhenAcyclic(StopPlanOf(ms), order);
  }

  /** There is only one shutdown order. */
  lemma ShutdownIsDeterministic(ms: seq<ManagedModule>, a: seq<nat>, b: seq<nat>)
    requires DistinctIds(ms) && StopsInOrder(ms, a) && StopsInOrder(ms, b)
    ensures a == b
  {
    StopPlanSound(ms);
    ShutdownOrderUnique(StopPlanOf(ms), a, b);
  }
}
