/** What holds over every run of the supervisor's operations. */
module LifecycleRuns {
  import opened Words
  import opened LifecycleGraph
  import opened LifecycleModel
  import opened LifecycleInvariant
  import opened LifecyclePass
  import opened LifecycleShutdown
  import opened LifecycleOperations

  /** One call on the supervisor, with everything the environment answers during it. */
  datatype Operation =
    | RegisterModule(descriptor: ModuleDescriptor, schema: Text)
    | Validate(validations: nat -> ValidationOutcome)
    | Start(validations: nat -> ValidationOutcome, starts: nat -> StartOutcome)
    | Probe(probes: nat -> HealthOutcome, stops: nat -> StopOutcome)
    | Shutdown(stops: nat -> StopOutcome)

  ghost predicate Step(f: Fleet, op: Operation, g: Fleet) {
    match op
    case RegisterModule(d, schema) => d.Valid() && g == AfterRegister(f, d, schema)
    case Validate(validations) =>
      exists order :: Schedules(Prepared(f.modules), order) && g == AfterValidation(f, validations, order)
    case Start(validations, starts) =>
      exists order :: Schedules(Prepared(f.modules), order) &&
                      g == AfterStartup(AfterValidation(f, validations, order), starts, order)
    case Probe(probes, stops) => g == Refreshed(f, probes, stops, |f.modules|)
    case Shutdown(stops) => exists order :: StopsInOrder(f.modules, order) && g == Halted(f, stops, order, |order|)
  }

  ghost predicate StepAt(fs: seq<Fleet>, ops: seq<Operation>, k: nat)
    requires |fs| == |ops| + 1 && k < |ops|
  {
    Step(fs[k], ops[k], fs[k + 1])
  }

  ghost predicate Run(fs: seq<Fleet>, ops: seq<Operation>) {
    && |fs| == |ops| + 1
    && fs[0] == Fleet([], [])
    && forall k :: 0 <= k < |ops| ==> StepAt(fs, ops, k)
  }

  // ---------- Reachable states ----------

  lemma StepKeeps(f: Fleet, op: Operation, g: Fleet)
    requires Inv(f) && Step(f, op, g)
    ensures Inv(g)
  {
    hide Inv, Swept, Refreshed, Halted, Prepared, DependencyGraph, ProvidersFirst, Greedy;
    match op
    case RegisterModule(d, schema) =>
      RegistrationKeeps(f, d, schema);
    case Validate(validations) =>
      var order :| Schedules(Prepared(f.modules), order) && g == AfterValidation(f, validations, order);
      ValidationKeeps(f, validations, order);
    case Start(validations, starts) =>
      var order :| Schedules(Prepared(f.modules), order) &&
                   g == AfterStartup(AfterValidation(f, validations, order), starts, order);
      ValidationKeeps(f, validations, order);
      SweptKeeps(Startup(starts), AfterValidation(f, validations, order), order, |order|);
    case Probe(probes, stops) =>
      RefreshedKeeps(f, probes, stops, |f.modules|);
    case Shutdown(stops) =>
      var order :| StopsInOrder(f.modules, order) && g == Halted(f, stops, order, |order|);
      HaltedKeeps(f, stops, order, |order|);
  }

  lemma {:induction false} Reachable(fs: seq<Fleet>, ops: seq<Operation>, k: nat)
    requires Run(fs, ops) && k < |fs|
    ensures Inv(fs[k])
  {
    hide Inv, Step;
    if k == 0 {
      NothingYet();
    } else {
      Reachable(fs, ops, k - 1);
      assert StepAt(fs, ops, k - 1);
      StepKeeps(fs[k - 1], ops[k - 1], fs[k]);
    }
  }

  lemma NothingYet()
    ensures Inv(Fleet([], []))
  {
  }

  // ---------- No operation is ever blocked ----------

  lemma ScheduleExists(ms: seq<ManagedModule>) returns (order: seq<nat>)
    ensures Schedules(Prepared(ms), order)
  {
    var p := Prepared(ms);
    CycleMarkingLeavesNone(Resolved(ms));
    GraphShape(p, Participating(p));
    order := OrderExists(ActiveGraph(p), Participating(p));
    var found: seq<nat> := order;
    forall k | 0 <= k < |found| ensures found[k] < |p| {
      assert found[k] in found;
    }
  }

  lemma StopOrderExists(ms: seq<ManagedModule>) returns (order: seq<nat>)
    requires DistinctIds(ms)
    ensures StopsInOrder(ms, order)
  {
    StopPlanSound(ms);
    order := ShutdownOrderExists(StopPlanOf(ms));
    var found: seq<nat> := order;
    forall k | 0 <= k < |found| ensures found[k] < |ms| {
      assert found[k] in found;
    }
  }

  /** In every reachable state every operation can be carried out, whatever the environment answers. */
  lemma EveryOperationPossible(f: Fleet, op: Operation)
    requires Inv(f) && (op.RegisterModule? ==> op.descriptor.Valid())
    ensures exists g :: Step(f, op, g)
  {
    hide Swept, Refreshed, Halted, Prepared, DependencyGraph, ProvidersFirst, Greedy;
    match op
    case RegisterModule(d, schema) =>
      assert Step(f, op, AfterRegister(f, d, schema));
    case Validate(validations) =>
      var order := ScheduleExists(f.modules);
      assert Step(f, op, AfterValidation(f, validations, order));
    case Start(validations, starts) =>
      var order := ScheduleExists(f.modules);
      assert Step(f, op, AfterStartup(AfterValidation(f, validations, order), starts, order));
    case Probe(probes, stops) =>
      assert Step(f, op, Refreshed(f, probes, stops, |f.modules|));
    case Shutdown(stops) =>
      var order := StopOrderExists(f.modules);
      assert Step(f, op, Halted(f, stops, order, |order|));
  }

  // ---------- One life each ----------

  function Rank(phase: Phase): nat {
    match phase
    case Fresh => 0
    case Checked => 1
    case Attempted => 2
    case Held => 3
    case Released => 4
    case Broken => 5
  }

  /** Where in a module's life an event belongs: validated, started, attached, given up. */
  function Stage(e: Event): nat {
    match e
    case ValidateCalled(_) => 1
    case StartCalled(_) => 2
    case Attached(_, _) => 3
    case ShutdownCalled(_) => 4
    case Abandoned(_) => 4
  }

  lemma {:induction false} PrefixRank(log: seq<Event>, n: nat, i: nat)
    requires n <= |log| && Replay(log, i) != Broken
    ensures Replay(log[..n], i) != Broken && Rank(Replay(log[..n], i)) <= Rank(Replay(log, i))
  {
    if n == |log| {
      assert log[..n] == log;
    } else {
      var fewer := log[..|log| - 1];
      PrefixRank(fewer, n, i);
      assert fewer[..n] == log[..n];
    }
  }

  lemma EventRank(log: seq<Event>, k: nat)
    requires k < |log| && Replay(log, log[k].index) != Broken
    ensures Rank(Replay(log[..k + 1], log[k].index)) == Stage(log[k])
    ensures Rank(Replay(log[..k], log[k].index)) < Stage(log[k])
  {
    PrefixRank(log, k + 1, log[k].index);
    assert log[..k + 1][..k] == log[..k];
  }

  /**
   * Each module is validated, started, attached and given up at most once each over any run, and only in that order.
   */
  lemma EachStageOnceInOrder(f: Fleet, j: nat, k: nat)
    requires Inv(f) && j < k < |f.log| && f.log[j].index == f.log[k].index
    ensures Stage(f.log[j]) < Stage(f.log[k])
  {
    var i := f.log[k].index;
    assert Fits(f.modules[i], Replay(f.log, i));
    EventRank(f.log, j);
    EventRank(f.log, k);
    PrefixRank(f.log, k, i);
    PrefixRank(f.log[..k], j + 1, i);
    assert f.log[..k][..j + 1] == f.log[..j + 1];
  }

  /** A module holds a handle exactly when one was attached and never handed to shutdown or abandoned since. */
  lemma HandleIsAccountedFor(f: Fleet, i: nat)
    requires Inv(f) && i < |f.modules|
    ensures f.modules[i].handle.Some? <==>
            && (exists k :: 0 <= k < |f.log| && f.log[k].Attached? && f.log[k].index == i)
            && (forall k :: 0 <= k < |f.log| && f.log[k].index == i ==> Stage(f.log[k]) < 4)
  {
    assert Fits(f.modules[i], Replay(f.log, i));
    if Replay(f.log, i) == Held || Replay(f.log, i) == Released {
      var k := HeldWasAttached(f.log, i);
    }
    forall k | 0 <= k < |f.log| && f.log[k].index == i ensures Stage(f.log[k]) <= Rank(Replay(f.log, i)) {
      EventRank(f.log, k);
      PrefixRank(f.log, k + 1, i);
    }
    if Replay(f.log, i) == Released {
      var k := ReleasedWasGivenUp(f.log, i);
    }
  }

  lemma {:induction false} ReleasedWasGivenUp(log: seq<Event>, i: nat) returns (k: nat)
    requires Replay(log, i) == Released
    ensures k < |log| && Stage(log[k]) == 4 && log[k].index == i
  {
    var last := |log| - 1;
    if log[last].index == i {
      k := last;
    } else {
      k := ReleasedWasGivenUp(log[..last], i);
    }
  }

  // ---------- The startup order ----------

  lemma {:induction false} AttachedIsListed(log: seq<Event>, i: nat)
    ensures i in Attachments(log) <==> exists k :: 0 <= k < |log| && log[k].Attached? && log[k].index == i
  {
    if log != [] {
      var last := |log| - 1;
      AttachedIsListed(log[..last], i);
      if k :| 0 <= k < |log| && log[k].Attached? && log[k].index == i && k < last {
        assert log[..last][k] == log[k];
      }
    }
  }

  lemma {:induction false} AttachmentsDistinct(f: Fleet, n: nat)
    requires Inv(f) && n <= |f.log|
    ensures Distinct(Attachments(f.log[..n]))
  {
    if n > 0 {
      AttachmentsDistinct(f, n - 1);
      var before := f.log[..n - 1];
      assert f.log[..n][..n - 1] == before;
      var e := f.log[n - 1];
      AttachedIsListed(before, e.index);
      if e.Attached? {
        forall k | 0 <= k < n - 1 && before[k].Attached? ensures before[k].index != e.index {
          if before[k].index == e.index {
            EachStageOnceInOrder(f, k, n - 1);
          }
        }
      }
    }
  }

  /**
   * The startup order lists no module twice, and when a module joined it, every provider it was bound to at that
   * moment was already listed.
   */
  lemma StartupOrderSound(f: Fleet)
    requires Inv(f)
    ensures Distinct(Attachments(f.log))
    ensures forall k, b :: 0 <= k < |f.log| && f.log[k].Attached? && b in f.log[k].bindings ==>
                             Listed(f.modules, Attachments(f.log[..k]), b.provider.moduleId)
  {
    AttachmentsDistinct(f, |f.log|);
    assert f.log[..|f.log|] == f.log;
    forall k, b | 0 <= k < |f.log| && f.log[k].Attached? && b in f.log[k].bindings
      ensures Listed(f.modules, Attachments(f.log[..k]), b.provider.moduleId)
    {
      assert AttachedBy(f.modules, f.log[..k], b.provider.moduleId);
      var j :| 0 <= j < k && f.log[j].Attached? && f.log[j].index < |f.modules| &&
               f.modules[f.log[j].index].descriptor.id == b.provider.moduleId;
      assert f.log[..k][j] == f.log[j];
      AttachedIsListed(f.log[..k], f.log[j].index);
    }
  }

  ghost predicate Listed(ms: seq<ManagedModule>, order: seq<nat>, id: Text) {
    exists i :: i in order && 0 <= i < |ms| && ms[i].descriptor.id == id
  }

  /** A validated module can always be started: its requirements are resolved and its generation cannot overflow. */
  lemma PreparationNeverFails(f: Fleet, i: nat)
    requires Inv(f) && i < |f.modules| && f.modules[i].state == Validated
    ensures PrepareStart(f.modules[i]) == Ok(1)
  {
    assert Fits(f.modules[i], Replay(f.log, i));
  }

  // ---------- Validation and startup leave nothing waiting ----------

  lemma ValidationSettles(f: Fleet, validations: nat -> ValidationOutcome, order: seq<nat>)
    requires Schedules(Prepared(f.modules), order)
    ensures Settled(Validation(validations), Prepared(f.modules), AfterValidation(f, validations, order).modules)
  {
    var p := Fleet(Prepared(f.modules), f.log);
    ScheduleSequences(p.modules, order);
    SweptSettles(Validation(validations), p, order);
  }

  /** Validation decides every module: cycles are isolated, so the schedule reaches all that remain. */
  lemma NothingStaysDiscovered(f: Fleet, validations: nat -> ValidationOutcome, order: seq<nat>, i: nat)
    requires Schedules(Prepared(f.modules), order) && i < |f.modules|
    ensures AfterValidation(f, validations, order).modules[i].state != Discovered
  {
    ValidationSettles(f, validations, order);
    assert SettledAt(Validation(validations), Prepared(f.modules), AfterValidation(f, validations, order).modules, i);
  }

  lemma StartupFollows(f: Fleet, validations: nat -> ValidationOutcome, order: seq<nat>)
    requires Schedules(Prepared(f.modules), order)
    ensures
      var validated := AfterValidation(f, validations, order).modules;
      && SameBindings(Prepared(f.modules), validated)
      && Sequenced(validated, order)
      && forall starts :: Covers(Startup(starts), validated, order)
  {
    var p := Prepared(f.modules);
    var validated := AfterValidation(f, validations, order).modules;
    ValidationSettles(f, validations, order);
    ScheduleSequences(p, order);
    forall j, k | 0 <= j <= k < |order| ensures Unbound(validated, order[j], order[k]) {
      UnboundSame(p, validated, order[j], order[k]);
    }
    forall i | 0 <= i < |validated| && validated[i].state == Validated ensures i in order {
      assert SettledAt(Validation(validations), p, validated, i);
    }
  }

  lemma StartupSettles(f: Fleet, validations: nat -> ValidationOutcome, starts: nat -> StartOutcome, order: seq<nat>)
    requires Schedules(Prepared(f.modules), order)
    ensures
      var validated := AfterValidation(f, validations, order);
      Settled(Startup(starts), validated.modules, AfterStartup(validated, starts, order).modules)
  {
    StartupFollows(f, validations, order);
    SweptSettles(Startup(starts), AfterValidation(f, validations, order), order);
  }

  /** Starting decides every module: none is left discovered or merely validated. */
  lemma NothingStaysWaiting(f: Fleet, validations: nat -> ValidationOutcome, starts: nat -> StartOutcome,
                            order: seq<nat>, i: nat)
    requires Schedules(Prepared(f.modules), order) && i < |f.modules|
    ensures
      var state := AfterStartup(AfterValidation(f, validations, order), starts, order).modules[i].state;
      state != Discovered && state != Validated
  {
    var validated := AfterValidation(f, validations, order);
    var after := AfterStartup(validated, starts, order);
    NothingStaysDiscovered(f, validations, order, i);
    StartupSettles(f, validations, starts, order);
    assert SettledAt(Startup(starts), validated.modules, after.modules, i);
  }

  /** A waiting module gets a handle exactly when all its providers end up serving and its factory delivers one. */
  lemma StartedExactly(f: Fleet, validations: nat -> ValidationOutcome, starts: nat -> StartOutcome,
                       order: seq<nat>, i: nat)
    requires Inv(f) && Schedules(Prepared(f.modules), order) && i < |f.modules|
    requires AfterValidation(f, validations, order).modules[i].state == Validated
    ensures
      var after := AfterStartup(AfterValidation(f, validations, order), starts, order).modules;
      after[i].handle.Some? <==> DependenciesIn(after, i, {Ready, Degraded}) && Succeeds(starts(i))
  {
    var validated := AfterValidation(f, validations, order);
    ValidationKeeps(f, validations, order);
    assert Fits(validated.modules[i], Replay(validated.log, i));
    StartupSettles(f, validations, starts, order);
    assert SettledAt(Startup(starts), validated.modules, AfterStartup(validated, starts, order).modules, i);
  }

  // ---------- Failure isolation ----------

  /**
   * Whatever happens to other modules' factories, a module together with everything it transitively needs ends a
   * start in the same state: failures and deadlines reach dependents only.
   */
  lemma StartIsolation(f: Fleet, v1: nat -> ValidationOutcome, s1: nat -> StartOutcome, o1: seq<nat>,
                       v2: nat -> ValidationOutcome, s2: nat -> StartOutcome, o2: seq<nat>, members: set<nat>)
    requires Schedules(Prepared(f.modules), o1) && Schedules(Prepared(f.modules), o2)
    requires Closed(Prepared(f.modules), members)
    requires forall i :: i in members ==> v1(i) == v2(i) && s1(i) == s2(i)
    ensures SameOn(AfterStartup(AfterValidation(f, v1, o1), s1, o1).modules,
                   AfterStartup(AfterValidation(f, v2, o2), s2, o2).modules, members)
  {
    hide AfterValidation, AfterStartup, Schedules, Sequenced, Settled, SameBindings, Closed, SameOn;
    var p := Prepared(f.modules);
    var a, b := AfterValidation(f, v1, o1), AfterValidation(f, v2, o2);
    ScheduleSequences(p, o1);
    ValidationSettles(f, v1, o1);
    ValidationSettles(f, v2, o2);
    ScheduleCovers(p, Validation(v1), o1);
    SameAsItself(p, members);
    FailureIsolation(Validation(v1), Validation(v2), p, p, a.modules, b.modules, o1, members);
    StartupFollows(f, v1, o1);
    StartupFollows(f, v2, o2);
    StartupSettles(f, v1, s1, o1);
    StartupSettles(f, v2, s2, o2);
    ClosedSame(p, a.modules, members);
    SameBindingsJoin(p, a.modules, b.modules);
    FailureIsolation(Startup(s1), Startup(s2), a.modules, b.modules,
                     AfterStartup(a, s1, o1).modules, AfterStartup(b, s2, o2).modules, o1, members);
  }

  lemma ScheduleCovers(ms: seq<ManagedModule>, sweep: Sweep, order: seq<nat>)
    requires Schedules(ms, order)
    ensures Covers(sweep, ms, order)
  {
  }

  lemma SameAsItself(ms: seq<ManagedModule>, members: set<nat>)
    ensures SameBindings(ms, ms) && SameOn(ms, ms, members)
  {
  }

  lemma SameBindingsJoin(p: seq<ManagedModule>, a: seq<ManagedModule>, b: seq<ManagedModule>)
    requires SameBindings(p, a) && SameBindings(p, b)
    ensures SameBindings(a, b)
  {
  }

  lemma ClosedSame(a: seq<ManagedModule>, b: seq<ManagedModule>, members: set<nat>)
    requires SameBindings(a, b) && Closed(a, members)
    ensures Closed(b, members)
  {
    forall i, d | i in members && 0 <= i < |b| && 0 <= d < |b| && !Unbound(b, i, d) ensures d in members {
      UnboundSame(a, b, i, d);
    }
  }
}
