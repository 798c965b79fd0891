/** The supervisor as its methods change it, proved against `LifecycleOperations`. */
module LifecycleSupervisors {
  import opened Words
  import opened Capability
  import opened LifecycleGraph
  import opened LifecycleModel
  import opened LifecycleInvariant
  import opened LifecyclePass
  import opened LifecycleShutdown
  import opened LifecycleOperations

  /** Inserts into an ascending sequence what it does not hold yet. */
  function Inserted(s: seq<nat>, x: nat): (r: seq<nat>)
    requires forall i, j :: 0 <= i < j < |s| ==> s[i] < s[j]
    ensures forall i, j :: 0 <= i < j < |r| ==> r[i] < r[j]
    ensures forall y :: y in r <==> y == x || y in s
    ensures forall i :: 0 <= i < |r| ==> r[i] == x || r[i] in s
  {
    if s == [] then [x]
    else
      var last := s[|s| - 1];
      assert s == s[..|s| - 1] + [last];
      if last < x then s + [x]
      else if last == x then s
      else Inserted(s[..|s| - 1], x) + [last]
  }

  lemma SameEmptiness(a: seq<nat>, b: seq<nat>)
    requires forall x :: x in a <==> x in b
    ensures a == [] <==> b == []
  {
    assert a != [] ==> a[0] in a;
    assert b != [] ==> b[0] in b;
  }

  lemma SameGreatest(a: seq<nat>, b: seq<nat>)
    requires a != [] && b != [] && forall i, j :: 0 <= i < j < |a| ==> a[i] < a[j]
    requires forall i, j :: 0 <= i < j < |b| ==> b[i] < b[j]
    requires forall x :: x in a <==> x in b
    ensures a[|a| - 1] == b[|b| - 1]
  {
    assert a[|a| - 1] in b && b[|b| - 1] in a;
  }

  lemma PrefixMember(a: seq<nat>, x: nat)
    requires a != [] && forall i, j :: 0 <= i < j < |a| ==> a[i] < a[j]
    ensures x in a[..|a| - 1] <==> x in a && x != a[|a| - 1]
  {
    assert a == a[..|a| - 1] + [a[|a| - 1]];
  }

  lemma {:induction false} AscendingSame(a: seq<nat>, b: seq<nat>)
    requires forall i, j :: 0 <= i < j < |a| ==> a[i] < a[j]
    requires forall i, j :: 0 <= i < j < |b| ==> b[i] < b[j]
    requires forall x :: x in a <==> x in b
    ensures a == b
  {
    if a != [] && b != [] {
      SameGreatest(a, b);
      var x, y := a[..|a| - 1], b[..|b| - 1];
      forall e: nat ensures e in x <==> e in y {
        PrefixMember(a, e);
        PrefixMember(b, e);
      }
      AscendingSame(x, y);
      assert a == a[..|a| - 1] + [a[|a| - 1]] && b == b[..|b| - 1] + [b[|b| - 1]];
    } else {
      SameEmptiness(a, b);
    }
  }

  /** The active modules a consumer is bound to, sorted and without repetition. */
  method ActiveDependencies(ms: seq<ManagedModule>, active: seq<bool>, consumer: nat) returns (r: seq<nat>)
    requires |active| == |ms| && consumer < |ms| && active[consumer] && ms[consumer].resolution.Some?
    ensures r == ProvidersBelow(ms, active, consumer, |ms|)
  {
    var bindings := ms[consumer].resolution.value;
    r := [];
    for k := 0 to |bindings|
      invariant forall i, j :: 0 <= i < j < |r| ==> r[i] < r[j]
      invariant forall d :: d in r <==>
                  0 <= d < |ms| && active[d] && exists b ::
                    0 <= b < k && ModuleIndex(ms, bindings[b].provider.moduleId) == Some(d)
    {
      var provider := ModuleIndex(ms, bindings[k].provider.moduleId);
      if provider.Some? && active[provider.value] {
        r := Inserted(r, provider.value);
      }
    }
    AscendingSame(r, ProvidersBelow(ms, active, consumer, |ms|));
  }

  lemma {:induction false} NoProviders(ms: seq<ManagedModule>, active: seq<bool>, consumer: nat, n: nat)
    requires |active| == |ms| && consumer < |ms| && n <= |ms| && (!active[consumer] || ms[consumer].resolution.None?)
    ensures ProvidersBelow(ms, active, consumer, n) == []
  {
    if n > 0 {
      NoProviders(ms, active, consumer, n - 1);
    }
  }

  /** Every active module's dependencies among the active ones. */
  method DependencyIndices(ms: seq<ManagedModule>, active: seq<bool>) returns (g: Graph)
    requires |active| == |ms|
    ensures g == DependencyGraph(ms, active)
  {
    g := [];
    for consumer := 0 to |ms|
      invariant |g| == consumer && forall v :: 0 <= v < consumer ==> g[v] == ProvidersBelow(ms, active, v, |ms|)
    {
      var dependencies: seq<nat> := [];
      if active[consumer] && ms[consumer].resolution.Some? {
        dependencies := ActiveDependencies(ms, active, consumer);
      } else {
        NoProviders(ms, active, consumer, |ms|);
      }
      g := g + [dependencies];
    }
  }

  /** The participating modules from which a dependency path leads back to themselves. */
  method CycleMembers(ms: seq<ManagedModule>) returns (cycles: seq<nat>)
    ensures forall i :: i in cycles <==> 0 <= i < |ms| && InCycle(ms, i)
    ensures Indices(cycles, |ms|)
  {
    var active := Participating(ms);
    var dependencies := DependencyIndices(ms, active);
    GraphShape(ms, active);
    cycles := [];
    for i := 0 to |ms|
      invariant forall j :: j in cycles <==> 0 <= j < i && InCycle(ms, j)
      invariant Indices(cycles, |ms|)
    {
      if Participates(ms[i].state) {
        var onCycle := DependencyPathReturnsTo(i, dependencies);
        if onCycle {
          cycles := cycles + [i];
        }
      }
    }
  }

  /** Among participating modules without cycles the ordering is a full schedule. */
  method FirstSchedule(ms: seq<ManagedModule>) returns (order: seq<nat>)
    requires Acyclic(ActiveGraph(ms))
    ensures Schedules(ms, order)
  {
    var active := Participating(ms);
    var dependencies := DependencyIndices(ms, active);
    GraphShape(ms, active);
    order := DependencyOrder(dependencies, active);
    ghost var found: seq<nat> := order;
    forall k | 0 <= k < |found| ensures found[k] < |ms| {
      assert found[k] in found;
    }
  }

  method RegisterModuleCapabilities(m: ManagedModule, graph: CapabilityGraph) returns (r: ManagedModule)
    requires graph.Valid()
    modifies graph
    ensures graph.Valid()
    ensures r == AfterOffer(m, old(graph.providers)) && graph.providers == AddOffer(m, old(graph.providers))
  {
    r := m;
    if Participates(m.state) {
      var registered := graph.RegisterBatch(m.descriptor.provided);
      if registered.Err? {
        r := MarkUnavailable(m, registered.error);
      }
    }
  }

  method ResolveModule(m: ManagedModule, graph: CapabilityGraph) returns (r: ManagedModule)
    ensures r == Resolve(m, graph.providers)
  {
    r := m;
    if Participates(m.state) {
      var resolution := graph.Resolve(m.descriptor.Requirements());
      match resolution {
        case Ok(bindings) => r := m.(resolution := Some(bindings));
        case Err(e) => r := MarkUnavailable(m, e);
      }
    }
  }

  /** The worst of a ready core and the modules reported. */
  ghost predicate IsWorst(status: HealthStatus, reported: seq<nat>, probes: nat -> HealthOutcome) {
    && (status == HealthReady || exists i :: i in reported && status == ReportedStatus(probes(i)))
    && forall i :: i in reported ==> Severity(ReportedStatus(probes(i))) <= Severity(status)
  }

  /**
   * The overall status by precedence: one failure makes it unavailable, else one degraded module degraded, else live.
   */
  lemma StatusByPrecedence(status: HealthStatus, reported: seq<nat>, probes: nat -> HealthOutcome)
    requires IsWorst(status, reported, probes)
    ensures
      var answers := (s: HealthStatus) => exists i :: i in reported && probes(i) == Completed(Some(Ok(s)));
      var failed := exists i :: i in reported && !Answers(probes(i));
      && status == (if failed then HealthUnavailable
                    else if answers(HealthDegraded) then HealthDegraded
                    else if answers(HealthLive) then HealthLive
                    else HealthReady)
      && ReasonForStatus(status) == (match status
                                     case HealthUnavailable => DependencyUnavailable
                                     case HealthDegraded => DependencyDegraded
                                     case HealthLive => CoreStarting
                                     case HealthReady => CoreReady)
  {
  }

  /** The probe was answered, and not with unavailability. */
  predicate Answers(probe: HealthOutcome) {
    probe.Completed? && probe.value.Some? && probe.value.value.Ok? && probe.value.value.value != HealthUnavailable
  }

  function AddModule(report: HealthReport, i: nat, status: HealthStatus): HealthReport {
    var worse := if Severity(report.status) >= Severity(status) then report.status else status;
    HealthReport(worse, if worse != report.status then ReasonForStatus(worse) else report.reason, report.reported + [i])
  }

  lemma NothingReported(probes: nat -> HealthOutcome)
    ensures IsWorst(HealthReady, [], probes)
  {
  }

  lemma AddedIsWorst(report: HealthReport, i: nat, probes: nat -> HealthOutcome)
    requires IsWorst(report.status, report.reported, probes)
    ensures
      var more := AddModule(report, i, ReportedStatus(probes(i)));
      IsWorst(more.status, more.reported, probes)
  {
    assert i in report.reported + [i];
  }

  class LifecycleSupervisor {
    var modules: seq<ManagedModule>
    var startupOrder: seq<nat>
    var validationOrder: seq<nat>
    var cancelled: bool
    ghost var log: seq<Event>

    ghost function State(): Fleet
      reads this
    {
      Fleet(modules, log)
    }

    ghost predicate Valid()
      reads this
    {
      Inv(State()) && startupOrder == Attachments(log)
    }

    constructor ()
      ensures Valid() && State() == Fleet([], []) && startupOrder == validationOrder == [] && !cancelled
    {
      modules, startupOrder, validationOrder, cancelled, log := [], [], [], false, [];
    }

    method Register(d: ModuleDescriptor, schema: Text) returns (r: Result<(), CoreErrorCode>)
      requires Valid() && d.Valid()
      modifies this
      ensures Valid()
      ensures r == Registration(old(modules), d) && State() == AfterRegister(old(State()), d, schema)
      ensures startupOrder == old(startupOrder) && validationOrder == old(validationOrder)
              && cancelled == old(cancelled)
    {
      RegistrationKeeps(State(), d, schema);
      if |modules| >= MAX_MODULES {
        return Err(ResourceExhausted);
      }
      for i := 0 to |modules|
        invariant forall j :: 0 <= j < i ==> modules[j].descriptor.id != d.id
      {
        if modules[i].descriptor.id == d.id {
          return Err(Conflict);
        }
      }
      modules := modules + [NewModule(d, schema)];
      r := Ok(());
    }

    // ---------- Validation ----------

    method BuildCapabilityGraph() returns (graph: CapabilityGraph)
      modifies this`modules
      ensures fresh(graph) && graph.Valid()
      ensures graph.providers == Offers(old(modules), |old(modules)|)
      ensures modules == OffersChecked(old(modules))
    {
      hide AfterOffer, AddOffer, WithinLimits;
      ghost var before := modules;
      graph := new CapabilityGraph();
      for i := 0 to |modules|
        invariant fresh(graph) && graph.Valid() && |modules| == |before|
        invariant graph.providers == Offers(before, i)
        invariant forall j :: 0 <= j < i ==> modules[j] == OfferChecked(before, j)
        invariant forall j :: i <= j < |modules| ==> modules[j] == before[j]
      {
        var m := RegisterModuleCapabilities(modules[i], graph);
        modules := modules[i := m];
      }
    }

    method ResolveRequirements(graph: CapabilityGraph)
      modifies this`modules
      ensures modules == ResolvedAll(old(modules), graph.providers)
    {
      for i := 0 to |modules|
        invariant |modules| == |old(modules)|
        invariant forall j :: 0 <= j < i ==> modules[j] == Resolve(old(modules)[j], graph.providers)
        invariant forall j :: i <= j < |modules| ==> modules[j] == old(modules)[j]
      {
        var m := ResolveModule(modules[i], graph);
        modules := modules[i := m];
      }
    }

    method MarkCycles(cycles: seq<nat>)
      requires Indices(cycles, |modules|)
      modifies this`modules
      ensures |modules| == |old(modules)|
      ensures forall j :: 0 <= j < |modules| ==>
                modules[j] == if j in cycles then MarkUnavailable(old(modules)[j], Conflict) else old(modules)[j]
    {
      for k := 0 to |cycles|
        invariant |modules| == |old(modules)|
        invariant forall j :: 0 <= j < |modules| ==>
                    modules[j] ==
                      if j in cycles[..k] then MarkUnavailable(old(modules)[j], Conflict) else old(modules)[j]
      {
        assert cycles[..k + 1] == cycles[..k] + [cycles[k]];
        modules := modules[cycles[k] := MarkUnavailable(modules[cycles[k]], Conflict)];
      }
      assert cycles[..|cycles|] == cycles;
    }

    method ValidateInOrder(order: seq<nat>, validations: nat -> ValidationOutcome)
      requires Indices(order, |modules|)
      modifies this`modules, this`log
      ensures State() == Swept(Validation(validations), old(State()), order, |order|)
    {
      for k := 0 to |order|
        invariant |modules| == |old(modules)|
        invariant State() == Swept(Validation(validations), old(State()), order, k)
      {
        ValidateOne(order[k], validations);
      }
    }

    method ValidateOne(index: nat, validations: nat -> ValidationOutcome)
      requires index < |modules|
      modifies this`modules, this`log
      ensures State() == Visit(Validation(validations), old(State()), index)
    {
      var m := modules[index];
      assert modules[index := m] == modules && log + [] == log;
      if m.state != Discovered {
        return;
      }
      if !DependenciesIn(modules, index, {Validated, Ready, Degraded}) {
        modules := modules[index := MarkUnavailable(m, CoreErrorCode.Unavailable)];
        return;
      }
      log := log + ValidationEvents(index, m);
      modules := modules[index := ValidateModule(m, validations(index))];
    }

    /** Rebuilds the capability graph, resolves against it, and isolates every module on a dependency cycle. */
    method PrepareAll()
      modifies this`modules
      ensures modules == Prepared(old(modules))
      ensures Acyclic(ActiveGraph(modules))
    {
      var graph := BuildCapabilityGraph();
      ResolveRequirements(graph);
      assert modules == Resolved(old(modules));
      CycleMarkingLeavesNone(modules);
      var cycles := CycleMembers(modules);
      MarkCycles(cycles);
      assert modules == Prepared(old(modules));
    }

    method ValidateAll(validations: nat -> ValidationOutcome)
      requires Valid()
      modifies this
      ensures Valid()
      ensures Schedules(Prepared(old(modules)), validationOrder) && Indices(validationOrder, |modules|)
      ensures State() == AfterValidation(old(State()), validations, validationOrder)
      ensures startupOrder == old(startupOrder) && cancelled == old(cancelled)
    {
      PrepareAll();
      var order := FirstSchedule(modules);
      ValidationKeeps(old(State()), validations, order);
      ValidateInOrder(order, validations);
      validationOrder := order;
      SameAttachments(Fleet(Prepared(old(modules)), old(log)), validations, order, |order|);
    }

    // ---------- Startup ----------

    /** Whether the module was started, in which case it had never been attached. */
    method StartOne(index: nat, starts: nat -> StartOutcome) returns (started: bool)
      requires Inv(State()) && index < |modules|
      modifies this`modules, this`log
      ensures State() == Visit(Startup(starts), old(State()), index)
      ensures Attachments(log) == Attachments(old(log)) + if started then [index] else []
      ensures started ==> index !in Attachments(old(log))
    {
      var m := modules[index];
      assert modules[index := m] == modules && log + [] == log;
      if IsLive(m.state) {
        return false;
      }
      if m.state != Validated {
        return false;
      }
      if !DependenciesIn(modules, index, {Ready, Degraded}) {
        modules := modules[index := MarkUnavailable(m, CoreErrorCode.Unavailable)];
        return false;
      }
      NeverAttached(State(), index);
      StartAttachments(log, index, m, starts(index));
      log := log + StartEvents(index, m, starts(index));
      modules := modules[index := StartModule(m, starts(index))];
      started := PrepareStart(m).Ok? && Succeeds(starts(index));
    }

    method StartNext(index: nat, starts: nat -> StartOutcome)
      requires Valid() && index < |modules|
      modifies this`modules, this`log, this`startupOrder
      ensures Valid()
      ensures State() == Visit(Startup(starts), old(State()), index)
    {
      VisitKeeps(Startup(starts), State(), index);
      var started := StartOne(index, starts);
      if started && index !in startupOrder {
        startupOrder := startupOrder + [index];
      }
    }

    method StartInOrder(order: seq<nat>, starts: nat -> StartOutcome)
      requires Valid() && Indices(order, |modules|)
      modifies this`modules, this`log, this`startupOrder
      ensures Valid()
      ensures State() == AfterStartup(old(State()), starts, order)
    {
      hide Visit, Inv;
      for k := 0 to |order|
        invariant |modules| == |old(modules)|
        invariant State() == Swept(Startup(starts), old(State()), order, k)
        invariant Valid()
      {
        StartNext(order[k], starts);
      }
    }

    method StartAll(validations: nat -> ValidationOutcome, starts: nat -> StartOutcome)
      requires Valid()
      modifies this
      ensures Valid()
      ensures Schedules(Prepared(old(modules)), validationOrder)
      ensures State() == AfterStartup(AfterValidation(old(State()), validations, validationOrder), starts,
                                      validationOrder)
      ensures cancelled == old(cancelled)
    {
      ValidateAll(validations);
      StartInOrder(validationOrder, starts);
    }

    // ---------- Health and shutdown ----------

    method RefreshModule(i: nat, probe: HealthOutcome, stop: StopOutcome) returns (reported: bool)
      requires Valid() && i < |modules|
      modifies this`modules, this`log
      ensures Valid()
      ensures State() == RefreshOne(old(State()), i, probe, stop)
      ensures |modules| == |old(modules)| && forall j :: 0 <= j < |modules| && j != i ==> modules[j] == old(modules)[j]
      ensures reported <==> old(modules)[i].handle.Some?
    {
      RefreshOneKeeps(State(), i, probe, stop);
      HealthAttachments(log, i, modules[i], probe, stop);
      RefreshUnheld(State(), i, probe, stop);
      if modules[i].handle.None? {
        return false;
      }
      log := log + HealthEvents(i, modules[i], probe, stop);
      modules := modules[i := RefreshHealth(modules[i], probe, stop)];
      reported := true;
    }

    /**
     * Probes every module that holds a handle. The bounded report never overflows, so none is skipped, and its status
     * is the worst among a ready core and the modules reported.
     */
    method Health(probes: nat -> HealthOutcome, stops: nat -> StopOutcome) returns (report: HealthReport)
      requires Valid()
      modifies this`modules, this`log
      ensures Valid()
      ensures State() == Refreshed(old(State()), probes, stops, |old(modules)|)
      ensures forall i :: i in report.reported <==> 0 <= i < |old(modules)| && old(modules)[i].handle.Some?
      ensures IsWorst(report.status, report.reported, probes)
      ensures report.reason == ReasonForStatus(report.status)
    {
      hide RefreshHealth, HealthEvents, Inv, ReportedStatus, IsWorst, Severity, RefreshOne;
      report := HealthReport(HealthReady, CoreReady, []);
      NothingReported(probes);
      for i := 0 to |modules|
        invariant |modules| == |old(modules)| && |report.reported| <= i
        invariant State() == Refreshed(old(State()), probes, stops, i)
        invariant forall j :: i <= j < |modules| ==> modules[j] == old(modules)[j]
        invariant forall j :: j in report.reported <==> 0 <= j < i && old(modules)[j].handle.Some?
        invariant IsWorst(report.status, report.reported, probes) && report.reason == ReasonForStatus(report.status)
        invariant Valid()
      {
        AtMostTheLimit(State());
        assert |report.reported| < MAX_MODULE_REPORTS;
        var added := RefreshModule(i, probes(i), stops(i));
        if added {
          AddedIsWorst(report, i, probes);
          report := AddModule(report, i, ReportedStatus(probes(i)));
        }
      }
    }

    method ShutdownOne(index: nat, stop: StopOutcome)
      requires Valid() && index < |modules|
      modifies this`modules, this`log
      ensures Valid()
      ensures State() == StopOne(old(State()), index, stop)
    {
      StopOneKeeps(State(), index, stop);
      assert modules[index := modules[index]] == modules && log + [] == log;
      if modules[index].handle.None? {
        return;
      }
      StopAttachments(log, index, modules[index], stop);
      log := log + StopEvents(index, modules[index], stop);
      modules := modules[index := ShutdownModule(modules[index], stop)];
    }

    method ShutdownOrderOf() returns (order: seq<nat>)
      requires Valid()
      ensures StopsInOrder(modules, order)
    {
      var live := Holding(modules);
      var dependencies := DependencyIndices(modules, live);
      var priority := seq(|modules|, i requires 0 <= i < |modules| reads this =>
                          modules[i].descriptor.shutdownPriority);
      var ids := seq(|modules|, i requires 0 <= i < |modules| reads this => modules[i].descriptor.id);
      StopPlanSound(modules);
      assert StopPlan(dependencies, live, priority, ids) == StopPlanOf(modules);
      order := ShutdownOrder(StopPlan(dependencies, live, priority, ids));
      ghost var found: seq<nat> := order;
      forall k | 0 <= k < |found| ensures found[k] < |modules| {
        assert found[k] in found;
      }
    }

    method ShutdownAll(stops: nat -> StopOutcome) returns (ghost order: seq<nat>)
      requires Valid()
      modifies this
      ensures Valid() && cancelled
      ensures StopsInOrder(old(modules), order)
      ensures State() == Halted(old(State()), stops, order, |order|)
      ensures startupOrder == old(startupOrder) && validationOrder == old(validationOrder)
    {
      cancelled := true;
      var pending := ShutdownOrderOf();
      order := pending;
      for k := 0 to |pending|
        invariant |modules| == |old(modules)| && cancelled
        invariant State() == Halted(old(State()), stops, pending, k)
        invariant Valid()
        invariant startupOrder == old(startupOrder) && validationOrder == old(validationOrder)
      {
        ShutdownOne(pending[k], stops(pending[k]));
      }
    }
  }

  // ---------- Attachments ----------

  lemma {:induction false} AttachmentsAppend(log: seq<Event>, events: seq<Event>)
    ensures Attachments(log + events) == Attachments(log) + Attachments(events)
  {
    if events == [] {
      assert log + events == log;
    } else {
      var fewer := events[..|events| - 1];
      AttachmentsAppend(log, fewer);
      assert (log + events)[..|log + events| - 1] == log + fewer;
    }
  }

  lemma StartAttachments(log: seq<Event>, i: nat, m: ManagedModule, outcome: StartOutcome)
    ensures Attachments(log + StartEvents(i, m, outcome)) ==
            Attachments(log) + if PrepareStart(m).Ok? && Succeeds(outcome) then [i] else []
  {
    var events := StartEvents(i, m, outcome);
    AttachmentsAppend(log, events);
    if events != [] {
      assert [events[0]][..0] == [];
      assert Attachments([events[0]]) == [];
      assert |events| == 1 ==> events == [events[0]];
      assert |events| == 2 ==> events[..1] == [events[0]];
    }
  }

  lemma ValidationAttachments(log: seq<Event>, i: nat, m: ManagedModule)
    ensures Attachments(log + ValidationEvents(i, m)) == Attachments(log)
  {
    AttachmentsAppend(log, ValidationEvents(i, m));
    assert [ValidateCalled(i)][..0] == [];
  }

  lemma StopAttachments(log: seq<Event>, i: nat, m: ManagedModule, stop: StopOutcome)
    ensures Attachments(log + StopEvents(i, m, stop)) == Attachments(log)
  {
    AttachmentsAppend(log, StopEvents(i, m, stop));
    assert [ShutdownCalled(i)][..0] == [];
  }

  lemma HealthAttachments(log: seq<Event>, i: nat, m: ManagedModule, probe: HealthOutcome, stop: StopOutcome)
    ensures Attachments(log + HealthEvents(i, m, probe, stop)) == Attachments(log)
  {
    StopAttachments(log, i, m, stop);
    AttachmentsAppend(log, HealthEvents(i, m, probe, stop));
    assert [Abandoned(i)][..0] == [];
    assert log + [] == log;
    AttachmentsAppend(log, StopEvents(i, m, stop));
  }

  lemma VisitAttachments(g: Fleet, validations: nat -> ValidationOutcome, i: nat)
    requires i < |g.modules|
    ensures Attachments(Visit(Validation(validations), g, i).log) == Attachments(g.log)
  {
    ValidationAttachments(g.log, i, g.modules[i]);
    assert g.log + [] == g.log;
  }

  lemma {:induction false} SameAttachments(f: Fleet, validations: nat -> ValidationOutcome, order: seq<nat>, k: nat)
    requires Indices(order, |f.modules|) && k <= |order|
    ensures Attachments(Swept(Validation(validations), f, order, k).log) == Attachments(f.log)
  {
    hide Visit, Attachments;
    if k > 0 {
      SameAttachments(f, validations, order, k - 1);
      VisitAttachments(Swept(Validation(validations), f, order, k - 1), validations, order[k - 1]);
    }
  }

  lemma {:induction false} AttachedHasPhase(log: seq<Event>, i: nat)
    requires i in Attachments(log)
    ensures Replay(log, i) == Held || Replay(log, i) == Released || Replay(log, i) == Broken
  {
    var last := |log| - 1;
    var before := Attachments(log[..last]);
    if i in before {
      AttachedHasPhase(log[..last], i);
    }
  }

  lemma NeverAttached(f: Fleet, i: nat)
    requires Inv(f) && i < |f.modules| && f.modules[i].state == Validated
    ensures i !in Attachments(f.log)
  {
    assert Fits(f.modules[i], Replay(f.log, i));
    if i in Attachments(f.log) {
      AttachedHasPhase(f.log, i);
    }
  }

  lemma AtMostTheLimit(f: Fleet)
    requires Inv(f)
    ensures |f.modules| <= MAX_MODULES
  {
  }

  lemma RefreshUnheld(f: Fleet, i: nat, probe: HealthOutcome, stop: StopOutcome)
    requires i < |f.modules|
    ensures f.modules[i].handle.None? ==> RefreshOne(f, i, probe, stop) == f
  {
    assert f.modules[i := f.modules[i]] == f.modules && f.log + [] == f.log;
  }
}
