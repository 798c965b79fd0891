/** The supervisor's operations on the whole fleet: what each does, that it keeps the invariant, and what it settles. */
module LifecycleOperations {
  import opened Words
  import opened Capability
  import opened LifecycleGraph
  import opened LifecycleModel
  import opened LifecycleInvariant
  import opened LifecyclePass
  import opened LifecycleShutdown

  // ---------- Registration ----------

  function Registration(ms: seq<ManagedModule>, d: ModuleDescriptor): Result<(), CoreErrorCode> {
    if |ms| >= MAX_MODULES then Err(ResourceExhausted)
    else if ModuleIndex(ms, d.id).Some? then Err(Conflict)
    else Ok(())
  }

  function AfterRegister(f: Fleet, d: ModuleDescriptor, schema: Text): Fleet {
    if Registration(f.modules, d).Ok? then Fleet(f.modules + [NewModule(d, schema)], f.log) else f
  }

  // ---------- Capabilities ----------

  ghost function AfterOffer(m: ManagedModule, providers: seq<CapabilityProvider>): ManagedModule {
    if !Participates(m.state) then m
    else match Registered(providers, m.descriptor.provided)
         case Ok(_) => m
         case Err(e) => MarkUnavailable(m, e)
  }

  ghost function AddOffer(m: ManagedModule, providers: seq<CapabilityProvider>): seq<CapabilityProvider> {
    if Participates(m.state) && Registered(providers, m.descriptor.provided).Ok?
    then providers + m.descriptor.provided
    else providers
  }

  /** The providers offered by the first `k` modules, in registration order. */
  ghost function Offers(ms: seq<ManagedModule>, k: nat): seq<CapabilityProvider>
    requires k <= |ms|
  {
    if k == 0 then [] else AddOffer(ms[k - 1], Offers(ms, k - 1))
  }

  ghost function OfferChecked(ms: seq<ManagedModule>, i: nat): ManagedModule
    requires i < |ms|
  {
    AfterOffer(ms[i], Offers(ms, i))
  }

  /** Modules whose offer conflicts with an earlier one are isolated. */
  ghost function OffersChecked(ms: seq<ManagedModule>): (r: seq<ManagedModule>)
    ensures |r| == |ms| && forall i :: 0 <= i < |ms| ==> r[i] == OfferChecked(ms, i)
  {
    seq(|ms|, i requires 0 <= i < |ms| => OfferChecked(ms, i))
  }

  ghost function Resolve(m: ManagedModule, providers: seq<CapabilityProvider>): ManagedModule {
    if !Participates(m.state) then m
    else match Resolution(providers, m.descriptor.Requirements())
         case Ok(bindings) => m.(resolution := Some(bindings))
         case Err(e) => MarkUnavailable(m, e)
  }

  ghost function ResolvedAll(ms: seq<ManagedModule>, providers: seq<CapabilityProvider>): (r: seq<ManagedModule>)
    ensures |r| == |ms| && forall i :: 0 <= i < |ms| ==> r[i] == Resolve(ms[i], providers)
  {
    seq(|ms|, i requires 0 <= i < |ms| => Resolve(ms[i], providers))
  }

  ghost function Resolved(ms: seq<ManagedModule>): (r: seq<ManagedModule>)
    ensures |r| == |ms|
    ensures forall i :: 0 <= i < |ms| ==> r[i] == Resolve(OfferChecked(ms, i), Offers(ms, |ms|))
  {
    ResolvedAll(OffersChecked(ms), Offers(ms, |ms|))
  }

  // ---------- Cycles ----------

  ghost function ActiveGraph(ms: seq<ManagedModule>): (g: Graph)
    ensures |g| == |ms|
  {
    DependencyGraph(ms, Participating(ms))
  }

  ghost predicate InCycle(ms: seq<ManagedModule>, i: nat)
    requires i < |ms|
  {
    Participates(ms[i].state) && OnCycle(ActiveGraph(ms), i)
  }

  ghost function CyclesMarked(ms: seq<ManagedModule>): (r: seq<ManagedModule>)
    ensures |r| == |ms|
    ensures forall i :: 0 <= i < |ms| ==> r[i] == if InCycle(ms, i) then MarkUnavailable(ms[i], Conflict) else ms[i]
  {
    seq(|ms|, i requires 0 <= i < |ms| => if InCycle(ms, i) then MarkUnavailable(ms[i], Conflict) else ms[i])
  }

  /** What validation starts from: offers checked, requirements resolved, cycles isolated. */
  ghost function Prepared(ms: seq<ManagedModule>): (r: seq<ManagedModule>)
    ensures |r| == |ms|
  {
    CyclesMarked(Resolved(ms))
  }

  lemma CyclesMarkedBindings(ms: seq<ManagedModule>)
    ensures SameBindings(ms, CyclesMarked(ms))
  {
  }

  lemma FewerEdges(ms: seq<ManagedModule>, less: seq<ManagedModule>, v: nat, d: nat)
    requires SameBindings(ms, less) && v < |ms| && d < |ms|
    requires forall i :: 0 <= i < |ms| && Participates(less[i].state) ==> Participates(ms[i].state)
    ensures DependsOn(less, Participating(less), v, d) ==> DependsOn(ms, Participating(ms), v, d)
  {
    if DependsOn(less, Participating(less), v, d) {
      var bindings := less[v].resolution.value;
      var b :| 0 <= b < |bindings| && ModuleIndex(less, bindings[b].provider.moduleId) == Some(d);
      IndexSame(ms, less, bindings[b].provider.moduleId);
    }
  }

  /** Once every module on a cycle is isolated, no cycle is left among the participating modules. */
  lemma CycleMarkingLeavesNone(ms: seq<ManagedModule>)
    ensures Acyclic(ActiveGraph(CyclesMarked(ms)))
  {
    var less := CyclesMarked(ms);
    var g, h := ActiveGraph(ms), ActiveGraph(less);
    CyclesMarkedBindings(ms);
    GraphShape(ms, Participating(ms));
    GraphShape(less, Participating(less));
    forall v, d | 0 <= v < |h| && d in h[v] ensures d in g[v] {
      EdgeIs(less, Participating(less), v, d);
      FewerEdges(ms, less, v, d);
      EdgeIs(ms, Participating(ms), v, d);
    }
    forall v | 0 <= v < |g| && OnCycle(g, v) ensures h[v] == [] {
      CycleHasEdge(g, v);
      assert InCycle(ms, v);
    }
    CycleRemovalAcyclic(g, h);
  }

  // ---------- Validation and startup ----------

  ghost function AfterValidation(f: Fleet, validations: nat -> ValidationOutcome, order: seq<nat>): (r: Fleet)
    requires Schedules(Prepared(f.modules), order)
    ensures |r.modules| == |f.modules|
  {
    Swept(Validation(validations), Fleet(Prepared(f.modules), f.log), order, |order|)
  }

  ghost function AfterStartup(f: Fleet, starts: nat -> StartOutcome, order: seq<nat>): (r: Fleet)
    requires Indices(order, |f.modules|)
    ensures |r.modules| == |f.modules|
  {
    Swept(Startup(starts), f, order, |order|)
  }

  // ---------- Health and shutdown ----------

  function RefreshOne(f: Fleet, i: nat, probe: HealthOutcome, stop: StopOutcome): (r: Fleet)
    requires i < |f.modules|
    ensures |r.modules| == |f.modules|
  {
    Fleet(f.modules[i := RefreshHealth(f.modules[i], probe, stop)], f.log + HealthEvents(i, f.modules[i], probe, stop))
  }

  ghost function Refreshed(f: Fleet, probes: nat -> HealthOutcome, stops: nat -> StopOutcome, k: nat): (r: Fleet)
    requires k <= |f.modules|
    ensures |r.modules| == |f.modules|
  {
    if k == 0 then f else RefreshOne(Refreshed(f, probes, stops, k - 1), k - 1, probes(k - 1), stops(k - 1))
  }

  function StopOne(f: Fleet, i: nat, stop: StopOutcome): Fleet
    requires i < |f.modules|
  {
    Fleet(f.modules[i := ShutdownModule(f.modules[i], stop)], f.log + StopEvents(i, f.modules[i], stop))
  }

  ghost function Halted(f: Fleet, stops: nat -> StopOutcome, order: seq<nat>, k: nat): (r: Fleet)
    requires Indices(order, |f.modules|) && k <= |order|
    ensures |r.modules| == |f.modules|
  {
    if k == 0 then f else StopOne(Halted(f, stops, order, k - 1), order[k - 1], stops(order[k - 1]))
  }

  /** The keys and dependencies the shutdown order is computed from: those of the modules that hold a handle. */
  ghost function StopPlanOf(ms: seq<ManagedModule>): StopPlan {
    StopPlan(DependencyGraph(ms, Holding(ms)), Holding(ms),
             seq(|ms|, i requires 0 <= i < |ms| => ms[i].descriptor.shutdownPriority),
             seq(|ms|, i requires 0 <= i < |ms| => ms[i].descriptor.id))
  }

  lemma StopPlanSound(ms: seq<ManagedModule>)
    requires DistinctIds(ms)
    ensures Sound(StopPlanOf(ms))
  {
    GraphShape(ms, Holding(ms));
  }

  ghost predicate StopsInOrder(ms: seq<ManagedModule>, order: seq<nat>) {
    && Distinct(order)
    && Indices(order, |ms|)
    && (forall i :: i in order <==> 0 <= i < |ms| && ms[i].handle.Some?)
    && Greedy(StopPlanOf(ms), order)
  }

  // ---------- Every operation keeps the invariant ----------

  /** At most isolated: nothing else about the module's life changed. */
  ghost predicate Weakened(m: ManagedModule, w: ManagedModule) {
    && w.descriptor == m.descriptor && w.handle == m.handle && w.generation == m.generation
    && ((w.state == m.state && w.cancelled == m.cancelled) || (w.state == ModuleState.Unavailable && w.cancelled))
    && (m.resolution.Some? ==> w.resolution.Some?)
    && (!Participates(m.state) ==> w == m)
  }

  lemma WeakenedFits(m: ManagedModule, w: ManagedModule, phase: Phase)
    requires Fits(m, phase) && Weakened(m, w)
    ensures Fits(w, phase)
  {
  }

  lemma OfferWeakens(m: ManagedModule, providers: seq<CapabilityProvider>)
    ensures Weakened(m, AfterOffer(m, providers))
  {
  }

  lemma ResolveWeakens(m: ManagedModule, providers: seq<CapabilityProvider>)
    ensures Weakened(m, Resolve(m, providers))
    ensures Participates(Resolve(m, providers).state) ==> Resolve(m, providers).resolution.Some?
  {
  }

  lemma CycleMarkWeakens(ms: seq<ManagedModule>, i: nat)
    requires i < |ms|
    ensures Weakened(ms[i], CyclesMarked(ms)[i])
    ensures Participates(CyclesMarked(ms)[i].state) ==> CyclesMarked(ms)[i] == ms[i]
  {
  }

  lemma WeakenedTwice(a: ManagedModule, b: ManagedModule, c: ManagedModule)
    requires Weakened(a, b) && Weakened(b, c)
    ensures Weakened(a, c)
  {
  }

  lemma PreparedWeakens(ms: seq<ManagedModule>, i: nat)
    requires i < |ms|
    ensures Weakened(ms[i], Prepared(ms)[i])
    ensures Participates(Prepared(ms)[i].state) ==> Prepared(ms)[i].resolution.Some?
  {
    hide AfterOffer, Resolve, Offers;
    var offered := OfferChecked(ms, i);
    var resolved := Resolve(offered, Offers(ms, |ms|));
    OfferWeakens(ms[i], Offers(ms, i));
    ResolveWeakens(offered, Offers(ms, |ms|));
    WeakenedTwice(ms[i], offered, resolved);
    assert Resolved(ms)[i] == resolved;
    CycleMarkWeakens(Resolved(ms), i);
    WeakenedTwice(ms[i], resolved, Prepared(ms)[i]);
  }

  lemma PreparedKeeps(f: Fleet)
    requires Inv(f)
    ensures Inv(Fleet(Prepared(f.modules), f.log))
  {
    var ms := Prepared(f.modules);
    forall i | 0 <= i < |ms| ensures f.modules[i].descriptor == ms[i].descriptor && Fits(ms[i], Replay(f.log, i)) {
      PreparedWeakens(f.modules, i);
      WeakenedFits(f.modules[i], ms[i], Replay(f.log, i));
    }
    QuietKeeps(f, ms);
  }

  lemma RegistrationKeeps(f: Fleet, d: ModuleDescriptor, schema: Text)
    requires Inv(f) && d.Valid()
    ensures Inv(AfterRegister(f, d, schema))
  {
    NewFits(d, schema);
    if Registration(f.modules, d).Ok? {
      RegisterKeeps(f, NewModule(d, schema));
    }
  }

  lemma ValidationKeeps(f: Fleet, validations: nat -> ValidationOutcome, order: seq<nat>)
    requires Inv(f) && Schedules(Prepared(f.modules), order)
    ensures Inv(AfterValidation(f, validations, order))
  {
    PreparedKeeps(f);
    SweptKeeps(Validation(validations), Fleet(Prepared(f.modules), f.log), order, |order|);
  }

  lemma RefreshOneKeeps(f: Fleet, i: nat, probe: HealthOutcome, stop: StopOutcome)
    requires Inv(f) && i < |f.modules|
    ensures Inv(RefreshOne(f, i, probe, stop))
  {
    var m := f.modules[i];
    HealthFits(i, m, Replay(f.log, i), probe, stop);
    UpdateKeeps(f, i, RefreshHealth(m, probe, stop), HealthEvents(i, m, probe, stop));
  }

  lemma {:induction false} RefreshedKeeps(f: Fleet, probes: nat -> HealthOutcome, stops: nat -> StopOutcome, k: nat)
    requires Inv(f) && k <= |f.modules|
    ensures Inv(Refreshed(f, probes, stops, k))
  {
    hide RefreshOne, Inv;
    if k > 0 {
      RefreshedKeeps(f, probes, stops, k - 1);
      RefreshOneKeeps(Refreshed(f, probes, stops, k - 1), k - 1, probes(k - 1), stops(k - 1));
    }
  }

  lemma StopOneKeeps(f: Fleet, i: nat, stop: StopOutcome)
    requires Inv(f) && i < |f.modules|
    ensures Inv(StopOne(f, i, stop))
  {
    var m := f.modules[i];
    ShutdownFits(i, m, Replay(f.log, i), stop);
    UpdateKeeps(f, i, ShutdownModule(m, stop), StopEvents(i, m, stop));
  }

  lemma {:induction false} HaltedKeeps(f: Fleet, stops: nat -> StopOutcome, order: seq<nat>, k: nat)
    requires Inv(f) && Indices(order, |f.modules|) && k <= |order|
    ensures Inv(Halted(f, stops, order, k))
  {
    if k > 0 {
      HaltedKeeps(f, stops, order, k - 1);
      StopOneKeeps(Halted(f, stops, order, k - 1), order[k - 1], stops(order[k - 1]));
    }
  }
}
