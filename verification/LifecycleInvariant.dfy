/** What holds of the supervisor between operations, and why every single-module update keeps it. */
module LifecycleInvariant {
  import opened Words
  import opened Capability
  import opened LifecycleModel

  /** The managed modules together with everything that was ever asked of them. */
  datatype Fleet = Fleet(modules: seq<ManagedModule>, log: seq<Event>)

  /** The fields of a module agree with how far its log says it has come. */
  ghost predicate Fits(m: ManagedModule, phase: Phase) {
    && m.descriptor.Valid()
    && phase != Broken
    && (m.handle.Some? <==> phase == Held)
    && (m.state == Discovered ==> phase == Fresh)
    && (m.state == Validated ==> phase == Checked && m.resolution.Some?)
    && (IsLive(m.state) ==> phase == Held)
    && (m.state == Stopped ==> phase == Released)
    && m.state != Stopping
    && (m.state == ModuleState.Unavailable ==> m.cancelled)
    && (m.state == Stopped ==> m.cancelled)
    && m.generation == (if phase == Held || phase == Released then 1 else 0)
  }

  ghost predicate AttachedBy(ms: seq<ManagedModule>, log: seq<Event>, id: Text) {
    exists k :: 0 <= k < |log| && log[k].Attached? && log[k].index < |ms| && ms[log[k].index].descriptor.id == id
  }

  /** Whatever an attached module was bound to had been attached before it. */
  ghost predicate ProvidersAttachedFirst(ms: seq<ManagedModule>, log: seq<Event>) {
    forall k :: 0 <= k < |log| && log[k].Attached? ==>
                  forall b :: b in log[k].bindings ==> AttachedBy(ms, log[..k], b.provider.moduleId)
  }

  ghost predicate LogBounded(log: seq<Event>, n: nat) {
    forall k :: 0 <= k < |log| ==> log[k].index < n
  }

  ghost predicate AllFit(f: Fleet) {
    forall i :: 0 <= i < |f.modules| ==> Fits(f.modules[i], Replay(f.log, i))
  }

  ghost predicate Inv(f: Fleet) {
    && |f.modules| <= MAX_MODULES
    && DistinctIds(f.modules)
    && AllFit(f)
    && LogBounded(f.log, |f.modules|)
    && ProvidersAttachedFirst(f.modules, f.log)
  }

  /** The same modules, possibly in other states. */
  ghost predicate SameModules(a: seq<ManagedModule>, b: seq<ManagedModule>) {
    |a| == |b| && forall i :: 0 <= i < |a| ==> a[i].descriptor == b[i].descriptor
  }

  // ---------- The log ----------

  function ReplayFrom(phase: Phase, events: seq<Event>): Phase {
    if events == [] then phase else Advance(ReplayFrom(phase, events[..|events| - 1]), events[|events| - 1])
  }

  ghost predicate About(events: seq<Event>, i: nat) {
    forall k :: 0 <= k < |events| ==> events[k].index == i
  }

  lemma {:induction false} ReplayOwn(log: seq<Event>, events: seq<Event>, i: nat)
    requires About(events, i)
    ensures Replay(log + events, i) == ReplayFrom(Replay(log, i), events)
  {
    if events == [] {
      assert log + events == log;
    } else {
      var fewer := events[..|events| - 1];
      ReplayOwn(log, fewer, i);
      assert (log + events)[..|log + events| - 1] == log + fewer;
    }
  }

  lemma {:induction false} ReplayOther(log: seq<Event>, events: seq<Event>, i: nat, j: nat)
    requires About(events, i) && i != j
    ensures Replay(log + events, j) == Replay(log, j)
  {
    if events == [] {
      assert log + events == log;
    } else {
      var fewer := events[..|events| - 1];
      ReplayOther(log, fewer, i, j);
      assert (log + events)[..|log + events| - 1] == log + fewer;
    }
  }

  lemma {:induction false} ReplayUnknown(log: seq<Event>, n: nat)
    requires LogBounded(log, n)
    ensures Replay(log, n) == Fresh
  {
    if log != [] {
      ReplayUnknown(log[..|log| - 1], n);
    }
  }

  /** A module that ever held a handle appears in the log as attached. */
  lemma {:induction false} HeldWasAttached(log: seq<Event>, i: nat) returns (k: nat)
    requires Replay(log, i) == Held || Replay(log, i) == Released
    ensures k < |log| && log[k].Attached? && log[k].index == i
  {
    var last := |log| - 1;
    if log[last].Attached? && log[last].index == i {
      k := last;
    } else {
      k := HeldWasAttached(log[..last], i);
    }
  }

  lemma AttachedByModules(a: seq<ManagedModule>, b: seq<ManagedModule>, log: seq<Event>, more: seq<Event>, id: Text)
    requires |a| <= |b| && (forall i :: 0 <= i < |a| ==> a[i].descriptor == b[i].descriptor)
    requires log <= more && AttachedBy(a, log, id)
    ensures AttachedBy(b, more, id)
  {
    var k :| 0 <= k < |log| && log[k].Attached? && log[k].index < |a| && a[log[k].index].descriptor.id == id;
    assert more[k] == log[k];
  }

  lemma ProvidersStayFirst(a: seq<ManagedModule>, b: seq<ManagedModule>, log: seq<Event>)
    requires |a| <= |b| && (forall i :: 0 <= i < |a| ==> a[i].descriptor == b[i].descriptor)
    requires ProvidersAttachedFirst(a, log)
    ensures ProvidersAttachedFirst(b, log)
  {
    forall k, c | 0 <= k < |log| && log[k].Attached? && c in log[k].bindings
      ensures AttachedBy(b, log[..k], c.provider.moduleId)
    {
      AttachedByModules(a, b, log[..k], log[..k], c.provider.moduleId);
    }
  }

  /** Attaching now is allowed when every provider is already attached. */
  ghost predicate ReadyToLog(ms: seq<ManagedModule>, log: seq<Event>, events: seq<Event>) {
    forall k :: 0 <= k < |events| && events[k].Attached? ==>
                  forall b :: b in events[k].bindings ==> AttachedBy(ms, log, b.provider.moduleId)
  }

  lemma LogExtends(ms: seq<ManagedModule>, log: seq<Event>, events: seq<Event>)
    requires ProvidersAttachedFirst(ms, log) && ReadyToLog(ms, log, events)
    ensures ProvidersAttachedFirst(ms, log + events)
  {
    var more := log + events;
    forall k, c | 0 <= k < |more| && more[k].Attached? && c in more[k].bindings
      ensures AttachedBy(ms, more[..k], c.provider.moduleId)
    {
      if k < |log| {
        assert more[..k] == log[..k];
      } else {
        assert more[k] == events[k - |log|];
        assert log <= more[..k];
        AttachedByModules(ms, ms, log, more[..k], c.provider.moduleId);
      }
    }
  }

  // ---------- Updates ----------

  /** One module changes, with events of its own that lead to a phase it fits. */
  lemma UpdateKeeps(f: Fleet, i: nat, m: ManagedModule, events: seq<Event>)
    requires Inv(f) && i < |f.modules| && m.descriptor == f.modules[i].descriptor
    requires About(events, i) && ReadyToLog(f.modules, f.log, events)
    requires Fits(m, ReplayFrom(Replay(f.log, i), events))
    ensures Inv(Fleet(f.modules[i := m], f.log + events))
  {
    var after := Fleet(f.modules[i := m], f.log + events);
    forall j | 0 <= j < |after.modules| ensures Fits(after.modules[j], Replay(after.log, j)) {
      if j == i {
        ReplayOwn(f.log, events, i);
      } else {
        ReplayOther(f.log, events, i, j);
      }
    }
    LogExtends(f.modules, f.log, events);
    ProvidersStayFirst(f.modules, after.modules, after.log);
  }

  /** Every module may change at once when nothing was asked of any. */
  lemma QuietKeeps(f: Fleet, ms: seq<ManagedModule>)
    requires Inv(f) && SameModules(f.modules, ms)
    requires forall i :: 0 <= i < |ms| ==> Fits(ms[i], Replay(f.log, i))
    ensures Inv(Fleet(ms, f.log))
  {
    ProvidersStayFirst(f.modules, ms, f.log);
  }

  lemma RegisterKeeps(f: Fleet, m: ManagedModule)
    requires Inv(f) && |f.modules| < MAX_MODULES && Fits(m, Fresh)
    requires forall i :: 0 <= i < |f.modules| ==> f.modules[i].descriptor.id != m.descriptor.id
    ensures Inv(Fleet(f.modules + [m], f.log))
  {
    var ms := f.modules + [m];
    ReplayUnknown(f.log, |f.modules|);
    ProvidersStayFirst(f.modules, ms, f.log);
  }

  // ---------- Single operations fit ----------

  lemma NewFits(d: ModuleDescriptor, schema: Text)
    requires d.Valid()
    ensures Fits(NewModule(d, schema), Fresh)
  {
  }

  lemma ValidationFits(i: nat, m: ManagedModule, phase: Phase, outcome: ValidationOutcome)
    requires Fits(m, phase) && m.state == Discovered
    ensures Fits(ValidateModule(m, outcome), ReplayFrom(phase, ValidationEvents(i, m)))
  {
    assert ReplayFrom(phase, []) == phase;
    assert [ValidateCalled(i)][..0] == [];
  }

  lemma StartFits(i: nat, m: ManagedModule, phase: Phase, outcome: StartOutcome)
    requires Fits(m, phase) && m.state == Validated
    ensures Fits(StartModule(m, outcome), ReplayFrom(phase, StartEvents(i, m, outcome)))
  {
    var called := [StartCalled(i)];
    assert called[..0] == [];
    assert ReplayFrom(phase, called) == Attempted;
    var both := [StartCalled(i), Attached(i, m.resolution.value)];
    assert both[..1] == called;
  }

  lemma StopEventsFit(i: nat, m: ManagedModule, phase: Phase, stop: StopOutcome)
    requires m.handle.Some? <==> phase == Held
    ensures ReplayFrom(phase, StopEvents(i, m, stop)) == if m.handle.Some? && !stop.NotSpawned? then Released else phase
  {
    assert ReplayFrom(phase, []) == phase;
    assert [ShutdownCalled(i)][..0] == [];
  }

  lemma HealthFits(i: nat, m: ManagedModule, phase: Phase, probe: HealthOutcome, stop: StopOutcome)
    requires Fits(m, phase)
    ensures Fits(RefreshHealth(m, probe, stop), ReplayFrom(phase, HealthEvents(i, m, probe, stop)))
  {
    StopEventsFit(i, m, phase, stop);
    assert ReplayFrom(phase, []) == phase;
    assert [Abandoned(i)][..0] == [];
  }

  lemma ShutdownFits(i: nat, m: ManagedModule, phase: Phase, stop: StopOutcome)
    requires Fits(m, phase)
    ensures Fits(ShutdownModule(m, stop), ReplayFrom(phase, StopEvents(i, m, stop)))
  {
    StopEventsFit(i, m, phase, stop);
  }
}
