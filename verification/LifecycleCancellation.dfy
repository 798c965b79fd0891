/** What a module's own cancellation flag says about its past: it is set for good, and outlives a return to service. */
module LifecycleCancellation {
  import opened LifecycleGraph
  import opened LifecycleModel
  import opened LifecycleInvariant
  import opened LifecyclePass
  import opened LifecycleShutdown
  import opened LifecycleOperations
  import opened LifecycleRuns
  import opened LifecycleHistory

  /** Out of service means cancelled, waiting means not cancelled; what is live may be either. */
  predicate Marked(m: ManagedModule) {
    && m.state != Stopping
    && (m.state in {ModuleState.Unavailable, Stopped} ==> m.cancelled)
    && (m.state in {Discovered, Validated} ==> !m.cancelled)
    && (m.state == Stopped ==> m.handle.None?)
  }

  /** The flag is never cleared, and no live module has it set but one that was live and had it before. */
  predicate Persists(m: ManagedModule, n: ManagedModule) {
    && Marked(n) && (m.cancelled ==> n.cancelled)
    && (IsLive(n.state) && n.cancelled ==> IsLive(m.state) && m.cancelled)
  }

  /** What one operation may do: the same, except that a probe may bring an isolated module back. */
  predicate Evolves(op: Operation, m: ManagedModule, n: ManagedModule) {
    || Persists(m, n)
    || (op.Probe? && Marked(n) && m.cancelled && n.cancelled && m.state == ModuleState.Unavailable && IsLive(n.state))
  }

  // ---------- One operation on one module ----------

  lemma OutcomePersists(sweep: Sweep, i: nat, m: ManagedModule, available: bool)
    requires Marked(m)
    ensures Persists(m, Outcome(sweep, i, m, available))
  {
  }

  lemma {:induction false} SweptPersists(sweep: Sweep, f: Fleet, order: seq<nat>, k: nat, i: nat)
    requires Indices(order, |f.modules|) && k <= |order| && i < |f.modules| && Marked(f.modules[i])
    ensures Persists(f.modules[i], Swept(sweep, f, order, k).modules[i])
  {
    hide Outcome, Calls, DependenciesIn;
    if k > 0 {
      SweptPersists(sweep, f, order, k - 1, i);
      if order[k - 1] == i {
        var g := Swept(sweep, f, order, k - 1);
        OutcomePersists(sweep, i, g.modules[i], DependenciesIn(g.modules, i, sweep.Accepted()));
      }
    }
  }

  lemma PreparedPersists(ms: seq<ManagedModule>, i: nat)
    requires i < |ms| && Marked(ms[i])
    ensures Persists(ms[i], Prepared(ms)[i])
  {
    hide Prepared;
    PreparedWeakens(ms, i);
  }

  lemma ValidationPersists(f: Fleet, validations: nat -> ValidationOutcome, order: seq<nat>, i: nat)
    requires Schedules(Prepared(f.modules), order) && i < |f.modules| && Marked(f.modules[i])
    ensures Persists(f.modules[i], AfterValidation(f, validations, order).modules[i])
  {
    hide Prepared, ProvidersFirst;
    PreparedPersists(f.modules, i);
    SweptPersists(Validation(validations), Fleet(Prepared(f.modules), f.log), order, |order|, i);
  }

  lemma RefreshEvolves(probes: nat -> HealthOutcome, stops: nat -> StopOutcome, i: nat, m: ManagedModule)
    requires Marked(m)
    ensures Evolves(Probe(probes, stops), m, RefreshHealth(m, probes(i), stops(i)))
  {
  }

  lemma ShutdownPersists(m: ManagedModule, stop: StopOutcome)
    requires Marked(m)
    ensures Persists(m, ShutdownModule(m, stop))
  {
  }

  lemma StepEvolves(f: Fleet, op: Operation, g: Fleet, i: nat)
    requires Step(f, op, g) && i < |f.modules| && Marked(f.modules[i])
    ensures i < |g.modules| && Evolves(op, f.modules[i], g.modules[i])
  {
    hide Swept, Refreshed, Halted, Prepared, ProvidersFirst, Greedy, RefreshHealth, ShutdownModule;
    match op
    case RegisterModule(d, schema) =>
    case Validate(validations) =>
      var order :| Schedules(Prepared(f.modules), order) && g == AfterValidation(f, validations, order);
      ValidationPersists(f, validations, order, i);
    case Start(validations, starts) =>
      var order :| Schedules(Prepared(f.modules), order) &&
                   g == AfterStartup(AfterValidation(f, validations, order), starts, order);
      var validated := AfterValidation(f, validations, order);
      ValidationPersists(f, validations, order, i);
      SweptPersists(Startup(starts), validated, order, |order|, i);
    case Probe(probes, stops) =>
      RefreshedAt(f, probes, stops, |f.modules|, i);
      RefreshEvolves(probes, stops, i, f.modules[i]);
    case Shutdown(stops) =>
      var order :| StopsInOrder(f.modules, order) && g == Halted(f, stops, order, |order|);
      HaltedAt(f, stops, order, |order|, i);
      ShutdownPersists(f.modules[i], stops(i));
  }

  lemma StepRegisters(f: Fleet, op: Operation, g: Fleet, i: nat)
    requires Step(f, op, g) && |f.modules| <= i < |g.modules|
    ensures Marked(g.modules[i]) && !IsLive(g.modules[i].state)
  {
    hide Swept, Refreshed, Halted, Prepared, ProvidersFirst, Greedy;
  }

  // ---------- Over whole runs ----------

  /** Operation `j` is a probe that brought module `i` back from unavailability. */
  ghost predicate Returns(fs: seq<Fleet>, ops: seq<Operation>, j: nat, i: nat)
    requires |fs| == |ops| + 1 && j < |ops|
  {
    && i < |fs[j].modules| && fs[j].modules[i].state == ModuleState.Unavailable
    && ops[j].Probe?
    && i < |fs[j + 1].modules| && IsLive(fs[j + 1].modules[i].state)
  }

  ghost predicate ReturnedBefore(fs: seq<Fleet>, ops: seq<Operation>, k: nat, i: nat)
    requires |fs| == |ops| + 1 && k <= |ops|
  {
    exists j :: 0 <= j < k && Returns(fs, ops, j, i)
  }

  lemma NothingBeforeRegistration(fs: seq<Fleet>, ops: seq<Operation>, k: nat, i: nat)
    requires Run(fs, ops) && k <= |ops| && |fs[k].modules| <= i
    ensures !ReturnedBefore(fs, ops, k, i)
  {
    hide Step;
    forall j | 0 <= j < k ensures !Returns(fs, ops, j, i) {
      RunContinues(fs, ops, j, k);
    }
  }

  lemma {:induction false} FlagHistory(fs: seq<Fleet>, ops: seq<Operation>, k: nat, i: nat)
    requires Run(fs, ops) && k <= |ops| && i < |fs[k].modules|
    ensures Marked(fs[k].modules[i])
    ensures ReturnedBefore(fs, ops, k, i) ==> fs[k].modules[i].cancelled
    ensures IsLive(fs[k].modules[i].state) && fs[k].modules[i].cancelled ==> ReturnedBefore(fs, ops, k, i)
    decreases k
  {
    hide Step;
    if k > 0 {
      assert StepAt(fs, ops, k - 1);
      if i < |fs[k - 1].modules| {
        FlagHistory(fs, ops, k - 1, i);
        StepEvolves(fs[k - 1], ops[k - 1], fs[k], i);
        assert ReturnedBefore(fs, ops, k, i) <==> ReturnedBefore(fs, ops, k - 1, i) || Returns(fs, ops, k - 1, i);
      } else {
        NothingBeforeRegistration(fs, ops, k - 1, i);
        StepRegisters(fs[k - 1], ops[k - 1], fs[k], i);
      }
    }
  }

  /**
   * A live module's own token is cancelled exactly when a probe brought the module back from unavailability earlier in
   * the run, and then it stays cancelled.
   */
  lemma LiveAndCancelledExactlyAfterReturn(fs: seq<Fleet>, ops: seq<Operation>, k: nat, i: nat)
    requires Run(fs, ops) && k <= |ops| && i < |fs[k].modules| && IsLive(fs[k].modules[i].state)
    ensures fs[k].modules[i].cancelled <==> ReturnedBefore(fs, ops, k, i)
  {
    FlagHistory(fs, ops, k, i);
  }
}
