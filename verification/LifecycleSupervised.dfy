/**
 * The supervisor and its workers as one system: runs of the fleet whose every start, probe and stop is served by a run
 * of the handoff. The modules' handles are then the handoff's slots, so what holds of slots holds of the supervisor.
 */
module LifecycleSupervised {
  import opened Words
  import opened LifecycleGraph
  import opened LifecycleModel
  import opened LifecycleInvariant
  import opened LifecyclePass
  import opened LifecycleOperations
  import opened LifecycleRuns
  import opened LifecycleOutcomes
  import opened LifecycleCalls
  import H = LifecycleHandoff

  // ---------- Served calls ----------

  ghost predicate StartServed(tr: Trace, p: nat, q: nat, i: nat, outcome: StartOutcome) {
    exists b: nat, e: nat, error ::
      && CallsOnce(tr, p, q, b, e, H.BeginStart(i), i)
      && |tr.states[b].ops| < |tr.states[e].ops|
      && outcome == Seen(tr.steps[e], Delivered(tr.states[e].ops[|tr.states[b].ops|].output, error))
  }

  ghost predicate ProbeServed(tr: Trace, p: nat, q: nat, i: nat, outcome: HealthOutcome) {
    exists b: nat, e: nat, result ::
      CallsOnce(tr, p, q, b, e, H.BeginUse(H.Probing, i), i) && outcome == Seen(tr.steps[e], Some(result))
  }

  ghost predicate StopServed(tr: Trace, p: nat, q: nat, i: nat, outcome: StopOutcome) {
    exists b: nat, e: nat, result ::
      CallsOnce(tr, p, q, b, e, H.BeginUse(H.Stopping, i), i) && outcome == Seen(tr.steps[e], Some(result))
  }

  // ---------- Served operations ----------

  /** Whether a visit starts module `i`. */
  predicate Launches(sweep: Sweep, f: Fleet, i: nat)
    requires i < |f.modules|
  {
    && sweep.Startup? && f.modules[i].state == Validated
    && DependenciesIn(f.modules, i, sweep.Accepted()) && PrepareStart(f.modules[i]).Ok?
  }

  /** Validation calls carry no handle; a visit that starts a module makes one call. */
  ghost predicate VisitServed(tr: Trace, p: nat, q: nat, sweep: Sweep, f: Fleet, i: nat)
    requires i < |f.modules|
  {
    if Launches(sweep, f, i) then StartServed(tr, p, q, i, sweep.starts(i)) else Rests(tr, p, q)
  }

  predicate Answered(probe: HealthOutcome) {
    probe.Completed? && probe.value.Some? && probe.value.value.Ok? && probe.value.value.value != HealthUnavailable
  }

  /** A probe, and when it is not answered in health and the handle is back, a stop. */
  ghost predicate RefreshServed(tr: Trace, p: nat, q: nat, m: ManagedModule, i: nat, probe: HealthOutcome,
                                stop: StopOutcome)
  {
    if m.handle.None? then Rests(tr, p, q)
    else if Answered(probe) || probe.TimedOut? then ProbeServed(tr, p, q, i, probe)
    else exists r: nat :: ProbeServed(tr, p, r, i, probe) && StopServed(tr, r, q, i, stop)
  }

  ghost predicate HaltServed(tr: Trace, p: nat, q: nat, m: ManagedModule, i: nat, stop: StopOutcome) {
    if m.handle.None? then Rests(tr, p, q) else StopServed(tr, p, q, i, stop)
  }

  ghost predicate VisitServedAt(tr: Trace, cuts: seq<nat>, sweep: Sweep, f: Fleet, order: seq<nat>, k: nat)
    requires Indices(order, |f.modules|) && k < |order| && k + 1 < |cuts|
  {
    VisitServed(tr, cuts[k], cuts[k + 1], sweep, Swept(sweep, f, order, k), order[k])
  }

  /** Visit after visit is served, the handoff being in state `cuts[k]` before visit `k`. */
  ghost predicate SweepServed(tr: Trace, cuts: seq<nat>, sweep: Sweep, f: Fleet, order: seq<nat>)
    requires Indices(order, |f.modules|)
  {
    SweepServedTo(tr, cuts, sweep, f, order, |order|)
  }

  /** The first `n` visits are. */
  ghost predicate SweepServedTo(tr: Trace, cuts: seq<nat>, sweep: Sweep, f: Fleet, order: seq<nat>, n: nat)
    requires Indices(order, |f.modules|) && n <= |order|
  {
    |cuts| == n + 1 && forall k :: 0 <= k < n ==> VisitServedAt(tr, cuts, sweep, f, order, k)
  }

  ghost predicate RefreshServedAt(tr: Trace, cuts: seq<nat>, f: Fleet, probes: nat -> HealthOutcome,
                                  stops: nat -> StopOutcome, k: nat)
    requires k < |f.modules| && k + 1 < |cuts|
  {
    RefreshServed(tr, cuts[k], cuts[k + 1], Refreshed(f, probes, stops, k).modules[k], k, probes(k), stops(k))
  }

  ghost predicate RefreshesServed(tr: Trace, cuts: seq<nat>, f: Fleet, probes: nat -> HealthOutcome,
                                  stops: nat -> StopOutcome) {
    RefreshesServedTo(tr, cuts, f, probes, stops, |f.modules|)
  }

  ghost predicate RefreshesServedTo(tr: Trace, cuts: seq<nat>, f: Fleet, probes: nat -> HealthOutcome,
                                    stops: nat -> StopOutcome, n: nat)
    requires n <= |f.modules|
  {
    |cuts| == n + 1 && forall k :: 0 <= k < n ==> RefreshServedAt(tr, cuts, f, probes, stops, k)
  }

  ghost predicate HaltServedAt(tr: Trace, cuts: seq<nat>, f: Fleet, stops: nat -> StopOutcome, order: seq<nat>, k: nat)
    requires Indices(order, |f.modules|) && k < |order| && k + 1 < |cuts|
  {
    HaltServed(tr, cuts[k], cuts[k + 1], Halted(f, stops, order, k).modules[order[k]], order[k], stops(order[k]))
  }

  ghost predicate HaltsServed(tr: Trace, cuts: seq<nat>, f: Fleet, stops: nat -> StopOutcome, order: seq<nat>)
    requires Indices(order, |f.modules|)
  {
    HaltsServedTo(tr, cuts, f, stops, order, |order|)
  }

  ghost predicate HaltsServedTo(tr: Trace, cuts: seq<nat>, f: Fleet, stops: nat -> StopOutcome, order: seq<nat>, n: nat)
    requires Indices(order, |f.modules|) && n <= |order|
  {
    |cuts| == n + 1 && forall k :: 0 <= k < n ==> HaltServedAt(tr, cuts, f, stops, order, k)
  }

  predicate Cuts(cuts: seq<nat>, p: nat, q: nat) {
    cuts != [] && cuts[0] == p && cuts[|cuts| - 1] == q
  }

  /** The operation takes `f` to `g` while the handoff goes from state `p` to state `q`. */
  ghost predicate Serves(tr: Trace, p: nat, q: nat, f: Fleet, op: Operation, g: Fleet) {
    match op
    case RegisterModule(d, schema) => Rests(tr, p, q) && Step(f, op, g)
    case Validate(validations) => Rests(tr, p, q) && Step(f, op, g)
    case Start(validations, starts) =>
      exists order: seq<nat>, cuts: seq<nat> ::
        && Schedules(Prepared(f.modules), order)
        && g == AfterStartup(AfterValidation(f, validations, order), starts, order)
        && Cuts(cuts, p, q)
        && SweepServed(tr, cuts, Startup(starts), AfterValidation(f, validations, order), order)
    case Probe(probes, stops) =>
      && g == Refreshed(f, probes, stops, |f.modules|)
      && exists cuts: seq<nat> :: Cuts(cuts, p, q) && RefreshesServed(tr, cuts, f, probes, stops)
    case Shutdown(stops) =>
      exists order: seq<nat>, cuts: seq<nat> ::
        && StopsInOrder(f.modules, order) && g == Halted(f, stops, order, |order|)
        && Cuts(cuts, p, q) && HaltsServed(tr, cuts, f, stops, order)
  }

  ghost predicate ServedAt(tr: Trace, fs: seq<Fleet>, ops: seq<Operation>, points: seq<nat>, k: nat)
    requires |fs| == |points| == |ops| + 1 && k < |ops|
  {
    Serves(tr, points[k], points[k + 1], fs[k], ops[k], fs[k + 1])
  }

  /** A run of the fleet from nothing, each operation served by one and the same run of the handoff. */
  ghost predicate Supervised(tr: Trace, fs: seq<Fleet>, ops: seq<Operation>, points: seq<nat>) {
    && Sound(tr) && |fs| == |points| == |ops| + 1
    && fs[0] == Fleet([], []) && |tr.states[0].slots| >= MAX_MODULES && Rests(tr, 0, points[0])
    && forall k :: 0 <= k < |ops| ==> ServedAt(tr, fs, ops, points, k)
  }

  // ---------- Slots and handles ----------

  /** Slot `i` holds the handle of module `i`, and slots without a module are empty. */
  ghost predicate Matches(ms: seq<ManagedModule>, slots: seq<Option<nat>>) {
    && |ms| <= |slots|
    && forall i :: 0 <= i < |slots| ==> slots[i] == if i < |ms| then ms[i].handle else None
  }

  lemma MatchesUpdate(ms: seq<ManagedModule>, slots: seq<Option<nat>>, i: nat, m: ManagedModule)
    requires Matches(ms, slots) && i < |ms|
    ensures Matches(ms[i := m], slots[i := m.handle])
  {
  }

  lemma SoundStep(tr: Trace, j: nat)
    requires Sound(tr) && j < |tr.steps|
    ensures H.StepAt(tr.states, tr.steps, j) && H.Shapes(tr.states[j])
  {
    hide H.Inv;
    H.Reachable(tr.states, tr.steps, j);
    H.ReachableShapes(tr.states[j]);
  }

  lemma {:induction false} RestsKeepSlots(tr: Trace, p: nat, q: nat)
    requires Sound(tr) && Rests(tr, p, q)
    ensures tr.states[q].slots == tr.states[p].slots
    decreases q
  {
    if p < q {
      RestsKeepSlots(tr, p, q - 1);
      SoundStep(tr, q - 1);
      hide H.Next, H.Shapes, H.Enabled;
      H.RestingChangesNothing(tr.states[q - 1], tr.steps[q - 1]);
    }
  }

  lemma StartServedSlots(tr: Trace, p: nat, q: nat, i: nat, outcome: StartOutcome)
    requires Sound(tr) && StartServed(tr, p, q, i, outcome)
    ensures q < |tr.states| && p < |tr.states| && i < |tr.states[p].slots|
    ensures tr.states[q].slots == tr.states[p].slots[i := if Succeeds(outcome) then Some(outcome.value.value) else None]
  {
    var b: nat, e: nat, error :|
      && CallsOnce(tr, p, q, b, e, H.BeginStart(i), i)
      && |tr.states[b].ops| < |tr.states[e].ops|
      && outcome == Seen(tr.steps[e], Delivered(tr.states[e].ops[|tr.states[b].ops|].output, error));
    hide H.WaitsFrom, H.Run;
    RestsKeepSlots(tr, p, b);
    RestsKeepSlots(tr, e + 1, q);
    WaitsAt(tr, b, e, i);
    H.StartEnds(tr.states, tr.steps, b, e, i);
  }

  lemma WaitsAt(tr: Trace, b: nat, e: nat, i: nat)
    requires H.WaitsFrom(tr.states, tr.steps, b, e, i)
    ensures tr.states[e].current == Some(|tr.states[b].ops|)
  {
  }

  lemma UseServedSlots(tr: Trace, p: nat, q: nat, b: nat, e: nat, kind: H.Kind, i: nat)
    requires Sound(tr) && CallsOnce(tr, p, q, b, e, H.BeginUse(kind, i), i)
    ensures q < |tr.states| && p < |tr.states| && i < |tr.states[p].slots|
    ensures tr.steps[e].SpawnFails? || tr.steps[e].WaiterTakes? || tr.steps[e].WaiterAbandons?
    ensures
      var back := tr.steps[e].SpawnFails? || (tr.steps[e].WaiterTakes? && kind == H.Probing);
      tr.states[q].slots == tr.states[p].slots[i := if back then tr.states[p].slots[i] else None]
  {
    hide H.WaitsFrom, H.Run;
    RestsKeepSlots(tr, p, b);
    RestsKeepSlots(tr, e + 1, q);
    WaitsAt(tr, b, e, i);
    H.UseEnds(tr.states, tr.steps, b, e, i);
  }

  lemma StopServedSlots(tr: Trace, p: nat, q: nat, i: nat, stop: StopOutcome)
    requires Sound(tr) && StopServed(tr, p, q, i, stop)
    ensures q < |tr.states| && p < |tr.states| && i < |tr.states[p].slots|
    ensures tr.states[q].slots == tr.states[p].slots[i := if stop.NotSpawned? then tr.states[p].slots[i] else None]
  {
    var b: nat, e: nat, result :|
      CallsOnce(tr, p, q, b, e, H.BeginUse(H.Stopping, i), i) && stop == Seen(tr.steps[e], Some(result));
    UseServedSlots(tr, p, q, b, e, H.Stopping, i);
  }

  lemma ProbeServedSlots(tr: Trace, p: nat, q: nat, i: nat, probe: HealthOutcome)
    requires Sound(tr) && ProbeServed(tr, p, q, i, probe)
    ensures q < |tr.states| && p < |tr.states| && i < |tr.states[p].slots|
    ensures tr.states[q].slots == tr.states[p].slots[i := if probe.TimedOut? then None else tr.states[p].slots[i]]
    ensures probe.Completed? ==> probe.value.Some?
  {
    var b: nat, e: nat, result :|
      CallsOnce(tr, p, q, b, e, H.BeginUse(H.Probing, i), i) && probe == Seen(tr.steps[e], Some(result));
    UseServedSlots(tr, p, q, b, e, H.Probing, i);
  }

  // ---------- Served operations keep slots and handles equal ----------

  lemma VisitMatches(tr: Trace, p: nat, q: nat, sweep: Sweep, f: Fleet, i: nat)
    requires Sound(tr) && i < |f.modules| && VisitServed(tr, p, q, sweep, f, i) && p < |tr.states|
    requires Inv(f) && Matches(f.modules, tr.states[p].slots)
    ensures q < |tr.states| && Matches(Visit(sweep, f, i).modules, tr.states[q].slots)
  {
    var m := Visit(sweep, f, i).modules[i];
    assert Fits(f.modules[i], Replay(f.log, i));
    MatchesUpdate(f.modules, tr.states[p].slots, i, m);
    if Launches(sweep, f, i) {
      StartServedSlots(tr, p, q, i, sweep.starts(i));
    } else {
      RestsKeepSlots(tr, p, q);
    }
  }

  lemma {:induction false} SweepMatches(tr: Trace, cuts: seq<nat>, sweep: Sweep, f: Fleet, order: seq<nat>, k: nat)
    requires Sound(tr) && Indices(order, |f.modules|) && SweepServed(tr, cuts, sweep, f, order) && k <= |order|
    requires Inv(f) && cuts[0] < |tr.states| && Matches(f.modules, tr.states[cuts[0]].slots)
    ensures cuts[k] < |tr.states| && Matches(Swept(sweep, f, order, k).modules, tr.states[cuts[k]].slots)
  {
    hide Inv, Visit, Matches, VisitServed, Sound;
    if k > 0 {
      SweepMatches(tr, cuts, sweep, f, order, k - 1);
      SweptKeeps(sweep, f, order, k - 1);
      assert VisitServedAt(tr, cuts, sweep, f, order, k - 1);
      VisitMatches(tr, cuts[k - 1], cuts[k], sweep, Swept(sweep, f, order, k - 1), order[k - 1]);
    }
  }

  lemma RefreshedHandle(m: ManagedModule, probe: HealthOutcome, stop: StopOutcome)
    requires m.handle.Some? && (probe.Completed? ==> probe.value.Some?)
    ensures
      RefreshHealth(m, probe, stop).handle ==
        if Answered(probe) then m.handle
        else if probe.TimedOut? || !stop.NotSpawned? then None
        else m.handle
  {
  }

  lemma RefreshServedSlots(tr: Trace, p: nat, q: nat, m: ManagedModule, i: nat, probe: HealthOutcome, stop: StopOutcome)
    requires Sound(tr) && p < |tr.states| && i < |tr.states[p].slots| && m.handle == tr.states[p].slots[i]
    requires RefreshServed(tr, p, q, m, i, probe, stop)
    ensures q < |tr.states| && tr.states[q].slots == tr.states[p].slots[i := RefreshHealth(m, probe, stop).handle]
  {
    hide Sound, RefreshHealth, ProbeServed, StopServed;
    if m.handle.None? {
      UnheldUnchanged(m, probe, stop);
      RestsKeepSlots(tr, p, q);
    } else if Answered(probe) || probe.TimedOut? {
      ProbeServedSlots(tr, p, q, i, probe);
      RefreshedHandle(m, probe, stop);
    } else {
      var r: nat :| ProbeServed(tr, p, r, i, probe) && StopServed(tr, r, q, i, stop);
      ProbeServedSlots(tr, p, r, i, probe);
      StopServedSlots(tr, r, q, i, stop);
      RefreshedHandle(m, probe, stop);
    }
  }

  lemma UnheldUnchanged(m: ManagedModule, probe: HealthOutcome, stop: StopOutcome)
    requires m.handle.None?
    ensures RefreshHealth(m, probe, stop) == m
  {
  }

  lemma RefreshMatches(tr: Trace, p: nat, q: nat, f: Fleet, i: nat, probe: HealthOutcome, stop: StopOutcome)
    requires Sound(tr) && i < |f.modules| && RefreshServed(tr, p, q, f.modules[i], i, probe, stop) && p < |tr.states|
    requires Matches(f.modules, tr.states[p].slots)
    ensures q < |tr.states| && Matches(RefreshOne(f, i, probe, stop).modules, tr.states[q].slots)
  {
    hide Sound, RefreshHealth, RefreshServed, HealthEvents;
    MatchesUpdate(f.modules, tr.states[p].slots, i, RefreshHealth(f.modules[i], probe, stop));
    RefreshServedSlots(tr, p, q, f.modules[i], i, probe, stop);
  }

  lemma {:induction false} RefreshesMatch(tr: Trace, cuts: seq<nat>, f: Fleet, probes: nat -> HealthOutcome,
                                          stops: nat -> StopOutcome, k: nat)
    requires Sound(tr) && RefreshesServed(tr, cuts, f, probes, stops) && k <= |f.modules|
    requires cuts[0] < |tr.states| && Matches(f.modules, tr.states[cuts[0]].slots)
    ensures cuts[k] < |tr.states| && Matches(Refreshed(f, probes, stops, k).modules, tr.states[cuts[k]].slots)
  {
    hide RefreshOne, Matches, RefreshServed, Sound;
    if k > 0 {
      RefreshesMatch(tr, cuts, f, probes, stops, k - 1);
      assert RefreshServedAt(tr, cuts, f, probes, stops, k - 1);
      RefreshMatches(tr, cuts[k - 1], cuts[k], Refreshed(f, probes, stops, k - 1), k - 1, probes(k - 1), stops(k - 1));
    }
  }

  lemma HaltMatches(tr: Trace, p: nat, q: nat, f: Fleet, i: nat, stop: StopOutcome)
    requires Sound(tr) && i < |f.modules| && HaltServed(tr, p, q, f.modules[i], i, stop) && p < |tr.states|
    requires Matches(f.modules, tr.states[p].slots)
    ensures q < |tr.states| && Matches(StopOne(f, i, stop).modules, tr.states[q].slots)
  {
    MatchesUpdate(f.modules, tr.states[p].slots, i, ShutdownModule(f.modules[i], stop));
    if f.modules[i].handle.None? {
      RestsKeepSlots(tr, p, q);
    } else {
      StopServedSlots(tr, p, q, i, stop);
    }
  }

  lemma {:induction false} HaltsMatch(tr: Trace, cuts: seq<nat>, f: Fleet, stops: nat -> StopOutcome, order: seq<nat>,
                                      k: nat)
    requires Sound(tr) && Indices(order, |f.modules|) && HaltsServed(tr, cuts, f, stops, order) && k <= |order|
    requires cuts[0] < |tr.states| && Matches(f.modules, tr.states[cuts[0]].slots)
    ensures cuts[k] < |tr.states| && Matches(Halted(f, stops, order, k).modules, tr.states[cuts[k]].slots)
  {
    hide StopOne, Matches, HaltServed, Sound;
    if k > 0 {
      HaltsMatch(tr, cuts, f, stops, order, k - 1);
      assert HaltServedAt(tr, cuts, f, stops, order, k - 1);
      HaltMatches(tr, cuts[k - 1], cuts[k], Halted(f, stops, order, k - 1), order[k - 1], stops(order[k - 1]));
    }
  }

  lemma ValidationKeepsHandles(f: Fleet, validations: nat -> ValidationOutcome, order: seq<nat>, i: nat)
    requires Schedules(Prepared(f.modules), order) && i < |f.modules|
    ensures AfterValidation(f, validations, order).modules[i].handle == f.modules[i].handle
  {
    PreparedWeakens(f.modules, i);
    ValidationSettles(f, validations, order);
    assert SettledAt(Validation(validations), Prepared(f.modules), AfterValidation(f, validations, order).modules, i);
  }

  lemma ValidationMatches(f: Fleet, validations: nat -> ValidationOutcome, order: seq<nat>, slots: seq<Option<nat>>)
    requires Schedules(Prepared(f.modules), order) && Matches(f.modules, slots)
    ensures Matches(AfterValidation(f, validations, order).modules, slots)
  {
    hide Schedules, Prepared, AfterValidation;
    forall i | 0 <= i < |f.modules|
      ensures AfterValidation(f, validations, order).modules[i].handle == f.modules[i].handle
    {
      ValidationKeepsHandles(f, validations, order, i);
    }
  }

  lemma RegisterMatches(f: Fleet, d: ModuleDescriptor, schema: Text, slots: seq<Option<nat>>)
    requires Matches(f.modules, slots) && |slots| >= MAX_MODULES
    ensures Matches(AfterRegister(f, d, schema).modules, slots)
  {
  }

  lemma ServesIsStep(tr: Trace, p: nat, q: nat, f: Fleet, op: Operation, g: Fleet)
    requires Serves(tr, p, q, f, op, g)
    ensures Step(f, op, g)
  {
  }

  lemma StepMatches(tr: Trace, p: nat, q: nat, f: Fleet, op: Operation, g: Fleet)
    requires Sound(tr) && p < |tr.states| && |tr.states[p].slots| >= MAX_MODULES
    requires Inv(f) && Serves(tr, p, q, f, op, g) && Matches(f.modules, tr.states[p].slots)
    ensures q < |tr.states| && Matches(g.modules, tr.states[q].slots)
  {
    hide Inv, Matches, Sound, Swept, Refreshed, Halted, Prepared, SweepServed, RefreshesServed, HaltsServed,
         ProvidersFirst, Rests;
    match op
    case RegisterModule(d, schema) =>
      RestsKeepSlots(tr, p, q);
      RestsInside(tr, p, q);
      RegisterMatches(f, d, schema, tr.states[p].slots);
    case Validate(validations) =>
      RestsKeepSlots(tr, p, q);
      RestsInside(tr, p, q);
      var order :| Schedules(Prepared(f.modules), order) && g == AfterValidation(f, validations, order);
      ValidationMatches(f, validations, order, tr.states[p].slots);
    case Start(validations, starts) =>
      StartMatches(tr, p, q, f, validations, starts, g);
    case Probe(probes, stops) =>
      var cuts: seq<nat> :| Cuts(cuts, p, q) && RefreshesServed(tr, cuts, f, probes, stops);
      RefreshesLength(tr, cuts, f, probes, stops);
      RefreshesMatch(tr, cuts, f, probes, stops, |f.modules|);
    case Shutdown(stops) =>
      ShutdownMatches(tr, p, q, f, stops, g);
  }

  lemma RestsInside(tr: Trace, p: nat, q: nat)
    requires Rests(tr, p, q)
    ensures q < |tr.states|
  {
  }

  lemma RefreshesLength(tr: Trace, cuts: seq<nat>, f: Fleet, probes: nat -> HealthOutcome, stops: nat -> StopOutcome)
    requires RefreshesServed(tr, cuts, f, probes, stops)
    ensures |cuts| == |f.modules| + 1
  {
  }

  lemma StartMatches(tr: Trace, p: nat, q: nat, f: Fleet, validations: nat -> ValidationOutcome,
                     starts: nat -> StartOutcome,
                     g: Fleet)
    requires Sound(tr) && p < |tr.states| && Inv(f) && Matches(f.modules, tr.states[p].slots)
    requires Serves(tr, p, q, f, Start(validations, starts), g)
    ensures q < |tr.states| && Matches(g.modules, tr.states[q].slots)
  {
    hide Inv, Matches, Sound, Swept, Prepared, VisitServedAt, ProvidersFirst;
    var order: seq<nat>, cuts: seq<nat> :|
      && Schedules(Prepared(f.modules), order)
      && g == AfterStartup(AfterValidation(f, validations, order), starts, order)
      && Cuts(cuts, p, q)
      && SweepServed(tr, cuts, Startup(starts), AfterValidation(f, validations, order), order);
    ValidationKeeps(f, validations, order);
    ValidationMatches(f, validations, order, tr.states[p].slots);
    SweepMatches(tr, cuts, Startup(starts), AfterValidation(f, validations, order), order, |order|);
  }

  lemma ShutdownMatches(tr: Trace, p: nat, q: nat, f: Fleet, stops: nat -> StopOutcome, g: Fleet)
    requires Sound(tr) && p < |tr.states| && Matches(f.modules, tr.states[p].slots)
    requires Serves(tr, p, q, f, Shutdown(stops), g)
    ensures q < |tr.states| && Matches(g.modules, tr.states[q].slots)
  {
    hide Matches, Sound, Halted, HaltServedAt;
    var order: seq<nat>, cuts: seq<nat> :|
      && StopsInOrder(f.modules, order) && g == Halted(f, stops, order, |order|)
      && Cuts(cuts, p, q) && HaltsServed(tr, cuts, f, stops, order);
    HaltsMatch(tr, cuts, f, stops, order, |order|);
  }

  // ---------- The whole system ----------

  lemma {:induction false} SlotsNeverChangeInNumber(tr: Trace, j: nat)
    requires Sound(tr) && j < |tr.states|
    ensures |tr.states[j].slots| == |tr.states[0].slots|
  {
    hide H.Shapes, H.Next, H.Enabled;
    if j > 0 {
      SlotsNeverChangeInNumber(tr, j - 1);
      SoundStep(tr, j - 1);
      H.StepTouchesOne(tr.states[j - 1], tr.steps[j - 1]);
    }
  }

  lemma SupervisedIsRun(tr: Trace, fs: seq<Fleet>, ops: seq<Operation>, points: seq<nat>)
    requires Supervised(tr, fs, ops, points)
    ensures Run(fs, ops)
  {
    hide Step, Serves;
    forall k | 0 <= k < |ops| ensures StepAt(fs, ops, k) {
      assert ServedAt(tr, fs, ops, points, k);
      ServesIsStep(tr, points[k], points[k + 1], fs[k], ops[k], fs[k + 1]);
    }
  }

  lemma NothingMatches(slots: seq<Option<nat>>)
    requires forall i :: 0 <= i < |slots| ==> slots[i] == None
    ensures Matches([], slots)
  {
  }

  /** Between operations every module's handle is exactly what its slot in the handoff holds. */
  lemma {:induction false} HandlesAreSlots(tr: Trace, fs: seq<Fleet>, ops: seq<Operation>, points: seq<nat>, k: nat)
    requires Supervised(tr, fs, ops, points) && k <= |ops|
    ensures points[k] < |tr.states| && Matches(fs[k].modules, tr.states[points[k]].slots)
  {
    hide Inv, Matches, Serves, H.Run, Step;
    if k == 0 {
      RestsKeepSlots(tr, 0, points[0]);
      StartsEmpty(tr);
      NothingMatches(tr.states[0].slots);
    } else {
      HandlesAreSlots(tr, fs, ops, points, k - 1);
      SupervisedIsRun(tr, fs, ops, points);
      Reachable(fs, ops, k - 1);
      SlotsNeverChangeInNumber(tr, points[k - 1]);
      assert ServedAt(tr, fs, ops, points, k - 1);
      StepMatches(tr, points[k - 1], points[k], fs[k - 1], ops[k - 1], fs[k]);
    }
  }

  lemma StartsEmpty(tr: Trace)
    requires Sound(tr)
    ensures |tr.states| > 0 && forall i :: 0 <= i < |tr.states[0].slots| ==> tr.states[0].slots[i] == None
  {
  }

  /** A module's handle is owned by that module alone, and nobody has called its shutdown. */
  lemma ModulesOwnTheirHandles(tr: Trace, fs: seq<Fleet>, ops: seq<Operation>, points: seq<nat>, k: nat, i: nat)
    requires Supervised(tr, fs, ops, points) && k <= |ops| && i < |fs[k].modules| && fs[k].modules[i].handle.Some?
    ensures points[k] < |tr.states|
    ensures
      var h := fs[k].modules[i].handle.value;
      var s := tr.states[points[k]];
      && h < s.next && H.At(s, H.Slot(i), h) && h !in s.calls
      && (forall p :: H.At(s, p, h) ==> p == H.Slot(i))
      && (forall j :: 0 <= j < |fs[k].modules| && j != i ==> fs[k].modules[j].handle != Some(h))
  {
    hide H.Shapes, H.SlotReserved, Serves, Step;
    HandlesAreSlots(tr, fs, ops, points, k);
    H.Reachable(tr.states, tr.steps, points[k]);
    var h := fs[k].modules[i].handle.value;
    var s := tr.states[points[k]];
    assert H.At(s, H.Slot(i), h);
    forall j | 0 <= j < |fs[k].modules| && j != i ensures fs[k].modules[j].handle != Some(h) {
      assert fs[k].modules[j].handle == Some(h) ==> H.At(s, H.Slot(j), h);
    }
  }

  /**
   * Once the workers have come to rest, every handle any factory ever delivered is held by its module, or had its
   * shutdown called exactly once and is gone: none leaks, whatever deadlines were missed.
   */
  lemma EveryHandleIsHeldOrRetired(tr: Trace, fs: seq<Fleet>, ops: seq<Operation>, points: seq<nat>, k: nat, h: nat)
    requires Supervised(tr, fs, ops, points) && k <= |ops|
    requires points[k] < |tr.states| && H.Quiescent(tr.states[points[k]]) && h < tr.states[points[k]].next
    ensures
      var s := tr.states[points[k]];
      var held := exists i :: 0 <= i < |fs[k].modules| && fs[k].modules[i].handle == Some(h);
      && (held <==> h !in s.calls) && (h in s.gone <==> h in s.calls)
      && (forall a, b :: 0 <= a < b < |s.calls| ==> s.calls[a] != s.calls[b])
  {
    hide H.Run, H.Quiescent, Serves, Step, H.At;
    HandlesAreSlots(tr, fs, ops, points, k);
    H.NothingLeaks(tr.states, tr.steps, points[k], h);
    H.ShutdownCalledOnce(tr.states, tr.steps, points[k]);
  }
}
