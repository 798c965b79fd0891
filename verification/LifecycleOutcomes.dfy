/** The handoff of handles accounts for what the supervisor's operations assume of bounded workers. */
module LifecycleOutcomes {
  import opened Words
  import opened Capability
  import opened LifecycleModel
  import H = LifecycleHandoff

  /** How the supervisor sees the end of an operation whose worker, if it completed in time, reported `result`. */
  function Seen<T>(end: H.Step, result: T): Bounded<T> {
    if end.SpawnFails? then NotSpawned
    else if end.WaiterAbandons? then TimedOut
    else Completed(result)
  }

  /** The supervisor waits from step `b` for an operation on module `m` and goes on after step `e`. */
  ghost predicate Spans(states: seq<H.State>, steps: seq<H.Step>, b: nat, e: nat, m: nat) {
    && |states| == |steps| + 1 && b < e < |steps|
    && H.WaitsFrom(states, steps, b, e, m) && states[e + 1].current != states[e].current
  }

  /** Stopping a module leaves in its slot exactly the handle that `ShutdownModule` says it keeps. */
  lemma StopAgrees(states: seq<H.State>, steps: seq<H.Step>, b: nat, e: nat, i: nat, m: ManagedModule,
                   result: Result<(), CoreErrorCode>)
    requires Spans(states, steps, b, e, i) && steps[b] == H.BeginUse(H.Stopping, i)
    requires i < |states[b].slots| && m.handle == states[b].slots[i]
    ensures i < |states[e + 1].slots|
    ensures ShutdownModule(m, Seen(steps[e], Some(result))).handle == states[e + 1].slots[i]
  {
    hide H.WaitsFrom;
    H.UseEnds(states, steps, b, e, i);
  }

  predicate Healthy(result: Result<HealthStatus, CoreErrorCode>) {
    result.Ok? && result.value != HealthUnavailable
  }

  /**
   * Probing a module leaves in its slot exactly the handle `RefreshHealth` keeps when the probe was answered in health,
   * and otherwise the handle that `RefreshHealth` goes on to retire.
   */
  lemma ProbeAgrees(states: seq<H.State>, steps: seq<H.Step>, b: nat, e: nat, i: nat, m: ManagedModule,
                    result: Result<HealthStatus, CoreErrorCode>, stop: StopOutcome)
    requires Spans(states, steps, b, e, i) && steps[b] == H.BeginUse(H.Probing, i)
    requires i < |states[b].slots| && m.handle == states[b].slots[i] && m.handle.Some?
    ensures i < |states[e + 1].slots|
    ensures
      var after := RefreshHealth(m, Seen(steps[e], Some(result)), stop);
      var slot := states[e + 1].slots[i];
      if steps[e].WaiterTakes? && Healthy(result) then after.handle == slot
      else exists code :: after == RetireUnavailable(m.(handle := slot), code, stop)
  {
    hide H.WaitsFrom;
    H.UseEnds(states, steps, b, e, i);
    var after := RefreshHealth(m, Seen(steps[e], Some(result)), stop);
    var slot := states[e + 1].slots[i];
    if !(steps[e].WaiterTakes? && Healthy(result)) {
      var code := if steps[e].WaiterAbandons? then CoreErrorCode.DeadlineExceeded
      else if steps[e].WaiterTakes? && result.Err? then result.error
      else CoreErrorCode.Unavailable;
      assert after == RetireUnavailable(m.(handle := slot), code, stop);
    }
  }

  /** A start completes with the handle its worker delivered, or with its error when it delivered none. */
  function Delivered(output: Option<Option<nat>>, error: CoreErrorCode): Result<Handle, CoreErrorCode> {
    if H.Published(output).Some? then Ok(H.Published(output).value) else Err(error)
  }

  /** Starting a module leaves in its slot exactly the handle that `StartModule` attaches. */
  lemma StartAgrees(states: seq<H.State>, steps: seq<H.Step>, b: nat, e: nat, i: nat, m: ManagedModule,
                    error: CoreErrorCode)
    requires Spans(states, steps, b, e, i) && steps[b] == H.BeginStart(i)
    requires m.handle.None? && PrepareStart(m).Ok?
    ensures i < |states[e + 1].slots| && |states[b].ops| < |states[e].ops|
    ensures
      var result := Delivered(states[e].ops[|states[b].ops|].output, error);
      StartModule(m, Seen(steps[e], result)).handle == states[e + 1].slots[i]
  {
    hide H.WaitsFrom;
    H.StartEnds(states, steps, b, e, i);
  }
}
