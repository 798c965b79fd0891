/**
 * What each operation makes of a module, from what its factory, its handle and its providers did: which state follows,
 * with which error, and what becomes of its handle.
 */
module LifecycleEffects {
  import opened Words
  import opened ByteOrder
  import opened Capability
  import opened LifecycleGraph
  import opened LifecycleModel
  import opened LifecycleInvariant
  import opened LifecyclePass
  import opened LifecycleShutdown
  import opened LifecycleOperations
  import opened LifecycleRuns
  import opened LifecycleHistory

  // ---------- Parts of an effect ----------

  /** Isolated with this error, and otherwise as before. */
  predicate IsolatedWith(m: ManagedModule, n: ManagedModule, e: CoreErrorCode) {
    && n.state == ModuleState.Unavailable && n.cancelled && n.error == Some(e)
    && n.handle == m.handle && SameBasis(m, n)
  }

  /** The same module with the same bindings in the same generation. */
  predicate SameBasis(m: ManagedModule, n: ManagedModule) {
    && n.descriptor == m.descriptor && n.configurationSchema == m.configurationSchema
    && n.resolution == m.resolution && n.generation == m.generation
  }

  /** Every provider the module is bound to is registered and in one of these states. */
  ghost predicate ProvidersIn(ms: seq<ManagedModule>, i: nat, states: set<ModuleState>)
    requires i < |ms|
  {
    && ms[i].resolution.Some?
    && forall b :: b in ms[i].resolution.value ==> ProviderIn(ms, b.provider.moduleId, states)
  }

  ghost predicate ProviderIn(ms: seq<ManagedModule>, id: Text, states: set<ModuleState>) {
    exists p :: 0 <= p < |ms| && ms[p].descriptor.id == id && ms[p].state in states
  }

  lemma ProviderFound(ms: seq<ManagedModule>, id: Text, states: set<ModuleState>)
    requires DistinctIds(ms)
    ensures ProviderIn(ms, id, states) <==> ModuleIndex(ms, id).Some? && ms[ModuleIndex(ms, id).value].state in states
  {
    if p :| 0 <= p < |ms| && ms[p].descriptor.id == id && ms[p].state in states {
      IndexIs(ms, id, p);
    }
  }

  lemma ProvidersFound(ms: seq<ManagedModule>, i: nat, states: set<ModuleState>)
    requires DistinctIds(ms) && i < |ms|
    ensures ProvidersIn(ms, i, states) <==> DependenciesIn(ms, i, states)
  {
    if ms[i].resolution.Some? {
      var bindings := ms[i].resolution.value;
      forall b | 0 <= b < |bindings|
        ensures bindings[b] in bindings
        ensures
          var id := bindings[b].provider.moduleId;
          ProviderIn(ms, id, states) <==> ModuleIndex(ms, id).Some? && ms[ModuleIndex(ms, id).value].state in states
      {
        ProviderFound(ms, bindings[b].provider.moduleId, states);
      }
      hide ProviderIn;
      assert forall b :: b in bindings ==> exists k :: 0 <= k < |bindings| && bindings[k] == b;
    }
  }

  // ---------- Registration ----------

  /** A module enters discovered, or isolated when its contract or its configuration schema is not the expected one. */
  lemma RegistrationEffect(f: Fleet, d: ModuleDescriptor, schema: Text)
    ensures
      var g := AfterRegister(f, d, schema);
      var fits := |f.modules| < MAX_MODULES;
      var known := exists i :: 0 <= i < |f.modules| && f.modules[i].descriptor.id == d.id;
      && (Registration(f.modules, d) == Err(ResourceExhausted) <==> !fits)
      && (Registration(f.modules, d) == Err(Conflict) <==> fits && known)
      && (Registration(f.modules, d).Ok? <==> fits && !known)
      && (!fits || known ==> g == f)
      && (fits && !known ==> |g.modules| == |f.modules| + 1 && g.modules[..|f.modules|] == f.modules && g.log == f.log
                             && Enters(g.modules[|f.modules|], d, schema))
  {
  }

  predicate Enters(m: ManagedModule, d: ModuleDescriptor, schema: Text) {
    && m.descriptor == d && m.configurationSchema == schema
    && m.resolution == None && m.handle == None && m.generation == 0
    && if d.abiVersion == AbiVersion(ModuleVersion(1, 0, 0), 1) && schema == d.schemaId
       then m.state == Discovered && !m.cancelled && m.error == None
       else m.state == ModuleState.Unavailable && m.cancelled && m.error == Some(Conflict)
  }

  // ---------- Preparation ----------

  /** Neither isolated nor stopping nor stopped. */
  predicate InService(state: ModuleState) {
    state != ModuleState.Unavailable && state != Stopping && state != Stopped
  }

  /** What takes part in resolution is what is in service; what is live of it is what no longer waits. */
  lemma StatesClassified(state: ModuleState)
    ensures Participates(state) <==> InService(state)
    ensures IsLive(state) <==> InService(state) && state != Discovered && state != Validated
  {
  }

  /** A participating module's offer is taken up: with all offers before it no capability repeats, and all fit. */
  ghost predicate OfferTaken(ms: seq<ManagedModule>, i: nat)
    requires i < |ms|
  {
    var all := Offers(ms, i) + ms[i].descriptor.provided;
    InService(ms[i].state) && |all| <= 256 && forall j, k :: 0 <= j < k < |all| ==> all[j].id != all[k].id
  }

  /** Why an offer is not taken up: too many capabilities in all, or one that is offered twice. */
  ghost function OfferFailure(ms: seq<ManagedModule>, i: nat): CoreErrorCode
    requires i < |ms|
  {
    if |Offers(ms, i)| + |ms[i].descriptor.provided| > 256 then ResourceExhausted else Conflict
  }

  /** The offers are those of the modules whose offer is taken up, in the order of registration. */
  lemma OffersAreTaken(ms: seq<ManagedModule>, k: nat)
    requires k < |ms|
    ensures Offers(ms, 0) == []
    ensures Offers(ms, k + 1) == Offers(ms, k) + if OfferTaken(ms, k) then ms[k].descriptor.provided else []
  {
    assert Offers(ms, k) + [] == Offers(ms, k);
  }

  /** A participating module that lies on no cycle among those still participating. */
  ghost predicate OffCycles(ms: seq<ManagedModule>, i: nat)
    requires i < |ms|
  {
    !OnCycle(DependencyGraph(ms, Participating(ms)), i)
  }

  /**
   * Preparation isolates a participating module exactly when its offer conflicts, a requirement is not met or it lies
   * on a cycle, each with its own error, and otherwise binds it; other modules stay as they are.
   */
  lemma PreparationEffect(ms: seq<ManagedModule>, i: nat)
    requires i < |ms| && ms[i].descriptor.Valid()
    ensures
      var n := Prepared(ms)[i];
      var offers := Offers(ms, |ms|);
      var needs := ms[i].descriptor.required + ms[i].descriptor.requiredSecrets;
      var resolved := Resolved(ms);
      if !InService(ms[i].state) then n == ms[i]
      else if !OfferTaken(ms, i) then
        IsolatedWith(ms[i], n, OfferFailure(ms, i))
      else if exists bindings :: Binds(offers, needs, bindings) then
        && resolved[i].resolution.Some? && Binds(offers, needs, resolved[i].resolution.value)
        && resolved[i] == ms[i].(resolution := resolved[i].resolution)
        && (if OffCycles(resolved, i) then n == resolved[i] else IsolatedWith(resolved[i], n, Conflict))
      else
        exists k: nat, e :: k < |needs| && FailsAt(offers, needs, k, e) && IsolatedWith(ms[i], n, e)
  {
    OffersUnique(ms, |ms|);
    ResolvedEffect(ms, i);
    CycleEffect(Resolved(ms), i);
    hide Resolved, CyclesMarked, Binds, FailsAt, OnCycle, OfferTaken;
  }

  lemma {:induction false} OffersUnique(ms: seq<ManagedModule>, k: nat)
    requires k <= |ms|
    ensures UniqueIds(Offers(ms, k))
  {
    if k > 0 {
      OffersUnique(ms, k - 1);
    }
  }

  lemma CycleEffect(ms: seq<ManagedModule>, i: nat)
    requires i < |ms|
    ensures
      var n := CyclesMarked(ms)[i];
      if InService(ms[i].state) && !OffCycles(ms, i) then IsolatedWith(ms[i], n, Conflict) else n == ms[i]
  {
  }

  /** Resolution against given offers. */
  lemma ResolveEffect(m: ManagedModule, offers: seq<CapabilityProvider>)
    requires UniqueIds(offers) && InService(m.state) && m.descriptor.Valid()
    ensures
      var n := Resolve(m, offers);
      var needs := m.descriptor.required + m.descriptor.requiredSecrets;
      if exists bindings :: Binds(offers, needs, bindings) then
        n.resolution.Some? && Binds(offers, needs, n.resolution.value) && n == m.(resolution := n.resolution)
      else exists k: nat, e :: k < |needs| && FailsAt(offers, needs, k, e) && IsolatedWith(m, n, e)
  {
    var needs := m.descriptor.required + m.descriptor.requiredSecrets;
    hide Binds, FailsAt, Bindings;
    forall bindings ensures Binds(offers, needs, bindings) <==> Bindings(offers, needs) == Ok(bindings) {
      ResolutionExact(offers, needs, bindings);
    }
    if Bindings(offers, needs).Err? {
      var k := ResolutionFailure(offers, needs);
      assert FailsAt(offers, needs, k, Bindings(offers, needs).error);
    } else {
      assert Binds(offers, needs, Bindings(offers, needs).value);
    }
  }

  lemma ResolvedEffect(ms: seq<ManagedModule>, i: nat)
    requires i < |ms| && ms[i].descriptor.Valid() && UniqueIds(Offers(ms, |ms|))
    ensures
      var n := Resolved(ms)[i];
      var offers := Offers(ms, |ms|);
      var needs := ms[i].descriptor.required + ms[i].descriptor.requiredSecrets;
      if !InService(ms[i].state) then n == ms[i]
      else if !OfferTaken(ms, i) then
        IsolatedWith(ms[i], n, OfferFailure(ms, i))
      else if exists bindings :: Binds(offers, needs, bindings) then
        n.resolution.Some? && Binds(offers, needs, n.resolution.value) && n == ms[i].(resolution := n.resolution)
      else exists k: nat, e :: k < |needs| && FailsAt(offers, needs, k, e) && IsolatedWith(ms[i], n, e)
  {
    OfferEffect(ms, i);
    hide OfferTaken, Binds, FailsAt, OfferChecked;
    assert Resolved(ms)[i] == Resolve(OfferChecked(ms, i), Offers(ms, |ms|));
    if InService(ms[i].state) {
      if OfferTaken(ms, i) {
        hide Resolve;
        ResolveEffect(ms[i], Offers(ms, |ms|));
      }
    }
  }

  lemma OfferEffect(ms: seq<ManagedModule>, i: nat)
    requires i < |ms|
    ensures
      var n := OfferChecked(ms, i);
      if !InService(ms[i].state) || OfferTaken(ms, i) then n == ms[i]
      else
        IsolatedWith(ms[i], n, OfferFailure(ms, i))
  {
  }

  // ---------- Validation ----------

  /** Why a module is not validated: its factory's own error, a missed deadline, or that none could be asked. */
  function ValidationFailure(outcome: ValidationOutcome): CoreErrorCode {
    match outcome
    case Completed(Err(e)) => e
    case TimedOut => CoreErrorCode.DeadlineExceeded
    case _ => CoreErrorCode.Unavailable
  }

  /** The factory was asked and had no objection. */
  predicate Passes(outcome: ValidationOutcome) {
    outcome.Completed? && outcome.value.Ok?
  }

  lemma ValidationOutcomeEffect(sweep: Sweep, i: nat, m: ManagedModule, available: bool)
    requires sweep.Validation? && (available ==> m.resolution.Some?)
    ensures
      var n := Outcome(sweep, i, m, available);
      var outcome := sweep.validations(i);
      if m.state != Discovered then n == m
      else if available && Passes(outcome) then
        && n.state == Validated && SameBasis(m, n) && n.handle == m.handle && n.cancelled == m.cancelled
        && n.error == None
      else IsolatedWith(m, n, if available then ValidationFailure(outcome) else CoreErrorCode.Unavailable)
  {
  }

  /**
   * A discovered module ends validated if and only if its providers end validated or serving and its factory completes
   * without an error; otherwise it is isolated for the reason. Every other module stays as it was.
   */
  lemma ValidatedExactly(f: Fleet, validations: nat -> ValidationOutcome, order: seq<nat>, i: nat)
    requires Inv(f) && Schedules(Prepared(f.modules), order) && i < |f.modules|
    ensures
      var m := Prepared(f.modules)[i];
      var after := AfterValidation(f, validations, order).modules;
      var n := after[i];
      var provided := ProvidersIn(after, i, {Validated, Ready, Degraded});
      if m.state != Discovered then n == m
      else
        && (n.state == Validated <==> provided && Passes(validations(i)))
        && (n.state == Validated ==>
              SameBasis(m, n) && n.handle == m.handle && n.cancelled == m.cancelled && n.error == None)
        && (n.state != Validated ==>
              IsolatedWith(m, n, if provided then ValidationFailure(validations(i)) else CoreErrorCode.Unavailable))
  {
    var after := AfterValidation(f, validations, order);
    ValidationKeeps(f, validations, order);
    ValidationSettles(f, validations, order);
    PreparedWeakens(f.modules, i);
    ProvidersFound(after.modules, i, {Validated, Ready, Degraded});
    assert SettledAt(Validation(validations), Prepared(f.modules), after.modules, i);
    ValidationOutcomeEffect(Validation(validations), i, Prepared(f.modules)[i],
                            DependenciesIn(after.modules, i, {Validated, Ready, Degraded}));
    hide Prepared, AfterValidation, Inv, ProvidersIn, Schedules, Settled, Outcome, ValidationFailure, IsolatedWith;
  }

  // ---------- Start ----------

  function StartFailure(outcome: StartOutcome): CoreErrorCode {
    match outcome
    case Completed(Err(e)) => e
    case TimedOut => CoreErrorCode.DeadlineExceeded
    case _ => CoreErrorCode.Unavailable
  }

  /**
   * A validated module ends ready with its factory's handle if and only if its providers end serving and the factory
   * delivers one; otherwise it is isolated without a handle for the reason. Every other module stays as it was.
   */
  lemma ReadyExactly(f: Fleet, validations: nat -> ValidationOutcome, starts: nat -> StartOutcome, order: seq<nat>,
                     i: nat)
    requires Inv(f) && Schedules(Prepared(f.modules), order) && i < |f.modules|
    ensures
      var m := AfterValidation(f, validations, order).modules[i];
      var after := AfterStartup(AfterValidation(f, validations, order), starts, order).modules;
      var n := after[i];
      var provided := ProvidersIn(after, i, {Ready, Degraded});
      if m.state != Validated then n == m
      else
        && (n.handle.Some? <==> provided && starts(i).Completed? && starts(i).value.Ok?)
        && (n.handle.Some? ==>
              && n.handle == Some(starts(i).value.value) && n.state == Ready && n.error == None
              && n.generation == m.generation + 1 && n.cancelled == m.cancelled
              && n.resolution == m.resolution && n.descriptor == m.descriptor)
        && (n.handle.None? ==>
              IsolatedWith(m, n, if provided then StartFailure(starts(i)) else CoreErrorCode.Unavailable))
  {
    var validated := AfterValidation(f, validations, order);
    var after := AfterStartup(validated, starts, order);
    ValidationKeeps(f, validations, order);
    SweptKeeps(Startup(starts), validated, order, |order|);
    StartupSettles(f, validations, starts, order);
    ProvidersFound(after.modules, i, {Ready, Degraded});
    assert SettledAt(Startup(starts), validated.modules, after.modules, i);
    assert Fits(validated.modules[i], Replay(validated.log, i));
    hide AfterValidation, AfterStartup, Inv, DependenciesIn, ProvidersIn, Schedules, Settled;
  }

  // ---------- Probes ----------

  /** The answer keeps a module in service. */
  predicate Serving(probe: HealthOutcome) {
    && probe.Completed? && probe.value.Some? && probe.value.value.Ok?
    && probe.value.value.value in {HealthLive, HealthReady, HealthDegraded}
  }

  function ProbeFailure(probe: HealthOutcome): CoreErrorCode {
    match probe
    case Completed(Some(Err(e))) => e
    case Completed(None) => Internal
    case TimedOut => CoreErrorCode.DeadlineExceeded
    case _ => CoreErrorCode.Unavailable
  }

  /** The probe did not give the handle back. */
  predicate Lost(probe: HealthOutcome) {
    probe.TimedOut? || (probe.Completed? && probe.value.None?)
  }

  /** The state an answer in health puts a module in. */
  function ServingState(status: HealthStatus): ModuleState {
    match status
    case HealthLive => Starting
    case HealthReady => Ready
    case _ => Degraded
  }

  /**
   * A probe leaves a module without a handle alone; with one, an answer in health is taken over as its state, and
   * anything else isolates it and takes its handle, unless no worker could be spawned for the shutdown that follows.
   */
  predicate Probed(m: ManagedModule, n: ManagedModule, probe: HealthOutcome, stop: StopOutcome) {
    if m.handle.None? then n == m
    else if Serving(probe) then n == m.(state := ServingState(probe.value.value.value), error := None)
    else
      && n.state == ModuleState.Unavailable && n.cancelled && n.error == Some(ProbeFailure(probe)) && SameBasis(m, n)
      && n.handle == if !Lost(probe) && stop.NotSpawned? then m.handle else None
  }

  lemma RefreshEffect(m: ManagedModule, probe: HealthOutcome, stop: StopOutcome)
    ensures Probed(m, RefreshHealth(m, probe, stop), probe, stop)
  {
  }

  lemma ProbeEffect(f: Fleet, probes: nat -> HealthOutcome, stops: nat -> StopOutcome, i: nat)
    requires i < |f.modules|
    ensures Probed(f.modules[i], Refreshed(f, probes, stops, |f.modules|).modules[i], probes(i), stops(i))
  {
    RefreshedAt(f, probes, stops, |f.modules|, i);
    RefreshEffect(f.modules[i], probes(i), stops(i));
    hide Refreshed, Probed, RefreshHealth;
  }

  // ---------- Shutdown ----------

  function StopFailure(stop: StopOutcome): CoreErrorCode {
    match stop
    case Completed(Some(Err(e))) => e
    case TimedOut => CoreErrorCode.DeadlineExceeded
    case _ => CoreErrorCode.Unavailable
  }

  predicate StopsInPeace(stop: StopOutcome) {
    stop.Completed? && stop.value.Some? && stop.value.value.Ok?
  }

  /**
   * A stop that completes in peace ends a module; any other isolates it, and only one without a worker leaves the
   * handle.
   */
  predicate HaltedBy(m: ManagedModule, n: ManagedModule, stop: StopOutcome) {
    if m.handle.None? then n == m
    else
      && SameBasis(m, n) && n.cancelled
      && n.handle == (if stop.NotSpawned? then m.handle else None)
      && (if StopsInPeace(stop) then n.state == Stopped && n.error == None
          else n.state == ModuleState.Unavailable && n.error == Some(StopFailure(stop)))
  }

  lemma ShutdownEffect(m: ManagedModule, stop: StopOutcome)
    ensures HaltedBy(m, ShutdownModule(m, stop), stop)
  {
  }

  lemma StopEffect(f: Fleet, stops: nat -> StopOutcome, order: seq<nat>, i: nat)
    requires StopsInOrder(f.modules, order) && i < |f.modules|
    ensures HaltedBy(f.modules[i], Halted(f, stops, order, |order|).modules[i], stops(i))
  {
    hide Halted, StopPlanOf, HaltedBy, ShutdownModule;
    assert order[..|order|] == order;
    HaltedAt(f, stops, order, |order|, i);
    ShutdownEffect(f.modules[i], stops(i));
  }

  /** No module still to be stopped at position `k` is bound to module `i`. */
  ghost predicate NeededByNone(ms: seq<ManagedModule>, order: seq<nat>, k: nat, i: nat)
    requires Indices(order, |ms|) && k <= |order| && i < |ms|
  {
    forall c :: c in order[k..] ==> c < |ms| && !DependsOn(ms, Holding(ms), c, i)
  }

  /** Of two modules that nobody left needs, the one with the higher priority stops first, then the lower identity. */
  lemma PriorityDecides(ms: seq<ManagedModule>, order: seq<nat>, j: nat, k: nat)
    requires DistinctIds(ms) && StopsInOrder(ms, order) && j < k < |order|
    requires NeededByNone(ms, order, j, order[k])
    ensures
      var a, b := ms[order[j]].descriptor, ms[order[k]].descriptor;
      a.shutdownPriority > b.shutdownPriority || (a.shutdownPriority == b.shutdownPriority && Less(a.id, b.id))
  {
    var s := StopPlanOf(ms);
    var rest := Remaining(s, order[..j]);
    LaterRemains(ms, order, j, k);
    forall c | c in rest && c < |s.graph| ensures order[k] !in s.graph[c] {
      RemainingIsLater(ms, order, j, c);
      EdgeIs(ms, Holding(ms), c, order[k]);
    }
    hide DependencyGraph, DependsOn, Holding;
    assert order[k] in Leaves(s, rest);
    assert First(s, Eligible(s, rest), order[j]);
    assert StopsFirst(s, order[j], order[k]);
  }

  lemma LaterRemains(ms: seq<ManagedModule>, order: seq<nat>, j: nat, k: nat)
    requires StopsInOrder(ms, order) && j < k < |order|
    ensures order[k] in Remaining(StopPlanOf(ms), order[..j]) && order[k] != order[j]
  {
    assert order[k] in order;
  }

  lemma RemainingIsLater(ms: seq<ManagedModule>, order: seq<nat>, j: nat, c: nat)
    requires StopsInOrder(ms, order) && j <= |order| && c in Remaining(StopPlanOf(ms), order[..j])
    ensures c in order[j..] && c < |ms|
  {
    RemainingIsListed(ms, order, j, c);
    InTheRest(order, j, c);
  }

  lemma InTheRest(order: seq<nat>, j: nat, c: nat)
    requires j <= |order| && c in order && c !in order[..j]
    ensures c in order[j..]
  {
    assert forall i :: 0 <= i < j ==> order[..j][i] == order[i];
    var i :| 0 <= i < |order| && order[i] == c;
    assert order[j..][i - j] == c;
  }

  lemma RemainingIsListed(ms: seq<ManagedModule>, order: seq<nat>, j: nat, c: nat)
    requires StopsInOrder(ms, order) && j <= |order| && c in Remaining(StopPlanOf(ms), order[..j])
    ensures c in order && c !in order[..j] && c < |ms|
  {
    hide Greedy, Distinct, Indices, DependencyGraph;
  }
}
