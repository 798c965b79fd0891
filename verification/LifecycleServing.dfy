/**
 * Nothing the fleet can do is beyond the handoff: every run of both together goes on with every operation, whatever the
 * environment answers, so what holds of supervised runs holds of all that the supervisor does.
 */
module LifecycleServing {
  import opened Words
  import opened Capability
  import opened LifecycleGraph
  import opened LifecycleModel
  import opened LifecycleInvariant
  import opened LifecyclePass
  import opened LifecycleOperations
  import opened LifecycleRuns
  import opened LifecycleOutcomes
  import opened LifecycleCalls
  import opened LifecycleSupervised
  import H = LifecycleHandoff

  // ---------- Runs that agree serve the same ----------

  lemma StartServedAgrees(a: Trace, b: Trace, p: nat, q: nat, i: nat, outcome: StartOutcome)
    requires Sound(b) && Agrees(a, b, q) && StartServed(a, p, q, i, outcome)
    ensures StartServed(b, p, q, i, outcome)
  {
    hide Sound, H.WaitsFrom;
    var from: nat, to: nat, error :|
      && CallsOnce(a, p, q, from, to, H.BeginStart(i), i)
      && |a.states[from].ops| < |a.states[to].ops|
      && outcome == Seen(a.steps[to], Delivered(a.states[to].ops[|a.states[from].ops|].output, error));
    CallsAgree(a, b, p, q, from, to, H.BeginStart(i), i);
    assert a.states[from] == b.states[from] && a.states[to] == b.states[to] && a.steps[to] == b.steps[to];
  }

  lemma ProbeServedAgrees(a: Trace, b: Trace, p: nat, q: nat, i: nat, outcome: HealthOutcome)
    requires Sound(b) && Agrees(a, b, q) && ProbeServed(a, p, q, i, outcome)
    ensures p <= q && ProbeServed(b, p, q, i, outcome)
  {
    hide Sound, H.WaitsFrom;
    var from: nat, to: nat, result :|
      CallsOnce(a, p, q, from, to, H.BeginUse(H.Probing, i), i) && outcome == Seen(a.steps[to], Some(result));
    CallsAgree(a, b, p, q, from, to, H.BeginUse(H.Probing, i), i);
  }

  lemma StopServedAgrees(a: Trace, b: Trace, p: nat, q: nat, i: nat, outcome: StopOutcome)
    requires Sound(b) && Agrees(a, b, q) && StopServed(a, p, q, i, outcome)
    ensures p <= q && StopServed(b, p, q, i, outcome)
  {
    hide Sound, H.WaitsFrom;
    var from: nat, to: nat, result :|
      CallsOnce(a, p, q, from, to, H.BeginUse(H.Stopping, i), i) && outcome == Seen(a.steps[to], Some(result));
    CallsAgree(a, b, p, q, from, to, H.BeginUse(H.Stopping, i), i);
  }

  lemma StopServedForward(tr: Trace, p: nat, q: nat, i: nat, outcome: StopOutcome)
    requires StopServed(tr, p, q, i, outcome)
    ensures p <= q < |tr.states| && tr.states[p].current == None && tr.states[q].current == None
  {
    hide H.WaitsFrom;
  }

  lemma ProbeServedForward(tr: Trace, p: nat, q: nat, i: nat, outcome: HealthOutcome)
    requires ProbeServed(tr, p, q, i, outcome)
    ensures p <= q < |tr.states| && tr.states[p].current == None && tr.states[q].current == None
  {
    hide H.WaitsFrom;
  }

  lemma StartServedForward(tr: Trace, p: nat, q: nat, i: nat, outcome: StartOutcome)
    requires StartServed(tr, p, q, i, outcome)
    ensures p <= q < |tr.states| && tr.states[p].current == None && tr.states[q].current == None
  {
    hide H.WaitsFrom;
  }

  lemma AgreesEarlier(a: Trace, b: Trace, p: nat, q: nat)
    requires Agrees(a, b, q) && p <= q
    ensures Agrees(a, b, p)
  {
  }

  lemma AgreesThrough(a: Trace, b: Trace, c: Trace, p: nat, q: nat)
    requires Agrees(a, b, p) && Agrees(b, c, q) && p <= q
    ensures Agrees(a, c, p)
  {
  }

  lemma RestsForward(tr: Trace, p: nat, q: nat)
    requires Rests(tr, p, q)
    ensures p <= q < |tr.states| && tr.states[p].current == None && tr.states[q].current == None
  {
  }

  lemma VisitServedForward(tr: Trace, p: nat, q: nat, sweep: Sweep, f: Fleet, i: nat)
    requires i < |f.modules| && VisitServed(tr, p, q, sweep, f, i)
    ensures p <= q < |tr.states| && tr.states[p].current == None && tr.states[q].current == None
  {
    hide StartServed, Rests;
    if Launches(sweep, f, i) {
      StartServedForward(tr, p, q, i, sweep.starts(i));
    } else {
      RestsForward(tr, p, q);
    }
  }

  lemma VisitServedAgrees(a: Trace, b: Trace, p: nat, q: nat, sweep: Sweep, f: Fleet, i: nat)
    requires Sound(b) && Agrees(a, b, q) && i < |f.modules| && VisitServed(a, p, q, sweep, f, i)
    ensures VisitServed(b, p, q, sweep, f, i)
  {
    hide StartServed, Rests, Sound, Agrees;
    if Launches(sweep, f, i) {
      StartServedAgrees(a, b, p, q, i, sweep.starts(i));
    } else {
      RestsAgree(a, b, p, q);
    }
  }

  lemma RefreshServedForward(tr: Trace, p: nat, q: nat, m: ManagedModule, i: nat, probe: HealthOutcome,
                             stop: StopOutcome)
    requires RefreshServed(tr, p, q, m, i, probe, stop)
    ensures p <= q < |tr.states| && tr.states[p].current == None && tr.states[q].current == None
  {
    hide ProbeServed, StopServed, Rests, Answered;
    if m.handle.None? {
      RestsForward(tr, p, q);
    } else if Answered(probe) || probe.TimedOut? {
      ProbeServedForward(tr, p, q, i, probe);
    } else {
      var r: nat :| ProbeServed(tr, p, r, i, probe) && StopServed(tr, r, q, i, stop);
      ProbeServedForward(tr, p, r, i, probe);
      StopServedForward(tr, r, q, i, stop);
    }
  }

  lemma RefreshServedAgrees(a: Trace, b: Trace, p: nat, q: nat, m: ManagedModule, i: nat, probe: HealthOutcome,
                            stop: StopOutcome)
    requires Sound(b) && Agrees(a, b, q) && RefreshServed(a, p, q, m, i, probe, stop)
    ensures RefreshServed(b, p, q, m, i, probe, stop)
  {
    hide ProbeServed, StopServed, Rests, Answered, Sound, Agrees;
    if m.handle.None? {
      RestsAgree(a, b, p, q);
    } else if Answered(probe) || probe.TimedOut? {
      ProbeServedAgrees(a, b, p, q, i, probe);
    } else {
      var r: nat :| ProbeServed(a, p, r, i, probe) && StopServed(a, r, q, i, stop);
      StopServedAgrees(a, b, r, q, i, stop);
      AgreesEarlier(a, b, r, q);
      ProbeServedAgrees(a, b, p, r, i, probe);
    }
  }

  lemma HaltServedForward(tr: Trace, p: nat, q: nat, m: ManagedModule, i: nat, stop: StopOutcome)
    requires HaltServed(tr, p, q, m, i, stop)
    ensures p <= q < |tr.states| && tr.states[p].current == None && tr.states[q].current == None
  {
    hide StopServed, Rests;
    if m.handle.None? {
      RestsForward(tr, p, q);
    } else {
      StopServedForward(tr, p, q, i, stop);
    }
  }

  lemma HaltServedAgrees(a: Trace, b: Trace, p: nat, q: nat, m: ManagedModule, i: nat, stop: StopOutcome)
    requires Sound(b) && Agrees(a, b, q) && HaltServed(a, p, q, m, i, stop)
    ensures HaltServed(b, p, q, m, i, stop)
  {
    hide StopServed, Rests, Sound, Agrees;
    if m.handle.None? {
      RestsAgree(a, b, p, q);
    } else {
      StopServedAgrees(a, b, p, q, i, stop);
    }
  }

  // ---------- Runs that agree serve the same operations ----------

  predicate Rises(cuts: seq<nat>, k: nat)
    requires k + 1 < |cuts|
  {
    cuts[k] <= cuts[k + 1]
  }

  lemma {:induction false} Rising(cuts: seq<nat>, k: nat)
    requires k < |cuts| && forall j :: 0 <= j < |cuts| - 1 ==> Rises(cuts, j)
    ensures cuts[k] <= cuts[|cuts| - 1]
    decreases |cuts| - k
  {
    if k < |cuts| - 1 {
      assert Rises(cuts, k);
      Rising(cuts, k + 1);
    }
  }

  lemma SweepAgrees(a: Trace, b: Trace, cuts: seq<nat>, sweep: Sweep, f: Fleet, order: seq<nat>, n: nat)
    requires Sound(b) && Indices(order, |f.modules|) && n <= |order| && SweepServedTo(a, cuts, sweep, f, order, n)
    requires Agrees(a, b, cuts[n])
    ensures SweepServedTo(b, cuts, sweep, f, order, n) && cuts[0] <= cuts[n]
    ensures n > 0 ==> a.states[cuts[n]].current == None
  {
    hide Sound, Agrees, VisitServed, Swept;
    forall k | 0 <= k < n ensures Rises(cuts, k) && cuts[k + 1] < |a.states| && a.states[cuts[k + 1]].current == None {
      assert VisitServedAt(a, cuts, sweep, f, order, k);
      VisitServedForward(a, cuts[k], cuts[k + 1], sweep, Swept(sweep, f, order, k), order[k]);
    }
    assert n > 0 ==> Rises(cuts, n - 1);
    Rising(cuts, 0);
    forall k | 0 <= k < n ensures VisitServedAt(b, cuts, sweep, f, order, k) {
      assert VisitServedAt(a, cuts, sweep, f, order, k);
      Rising(cuts, k + 1);
      AgreesEarlier(a, b, cuts[k + 1], cuts[n]);
      VisitServedAgrees(a, b, cuts[k], cuts[k + 1], sweep, Swept(sweep, f, order, k), order[k]);
    }
  }

  lemma RefreshesAgree(a: Trace, b: Trace, cuts: seq<nat>, f: Fleet, probes: nat -> HealthOutcome,
                       stops: nat -> StopOutcome, n: nat)
    requires Sound(b) && n <= |f.modules| && RefreshesServedTo(a, cuts, f, probes, stops, n) && Agrees(a, b, cuts[n])
    ensures RefreshesServedTo(b, cuts, f, probes, stops, n) && cuts[0] <= cuts[n]
    ensures n > 0 ==> a.states[cuts[n]].current == None
  {
    hide Sound, Agrees, RefreshServed, Refreshed;
    forall k | 0 <= k < n ensures Rises(cuts, k) && cuts[k + 1] < |a.states| && a.states[cuts[k + 1]].current == None {
      assert RefreshServedAt(a, cuts, f, probes, stops, k);
      RefreshServedForward(a, cuts[k], cuts[k + 1], Refreshed(f, probes, stops, k).modules[k], k, probes(k), stops(k));
    }
    assert n > 0 ==> Rises(cuts, n - 1);
    Rising(cuts, 0);
    forall k | 0 <= k < n ensures RefreshServedAt(b, cuts, f, probes, stops, k) {
      assert RefreshServedAt(a, cuts, f, probes, stops, k);
      Rising(cuts, k + 1);
      AgreesEarlier(a, b, cuts[k + 1], cuts[n]);
      RefreshServedAgrees(a, b, cuts[k], cuts[k + 1], Refreshed(f, probes, stops, k).modules[k], k, probes(k),
                          stops(k));
    }
  }

  lemma HaltsAgree(a: Trace, b: Trace, cuts: seq<nat>, f: Fleet, stops: nat -> StopOutcome, order: seq<nat>, n: nat)
    requires Sound(b) && Indices(order, |f.modules|) && n <= |order| && HaltsServedTo(a, cuts, f, stops, order, n)
    requires Agrees(a, b, cuts[n])
    ensures HaltsServedTo(b, cuts, f, stops, order, n) && cuts[0] <= cuts[n]
    ensures n > 0 ==> a.states[cuts[n]].current == None
  {
    hide Sound, Agrees, HaltServed, Halted;
    forall k | 0 <= k < n ensures Rises(cuts, k) && cuts[k + 1] < |a.states| && a.states[cuts[k + 1]].current == None {
      assert HaltServedAt(a, cuts, f, stops, order, k);
      HaltServedForward(a, cuts[k], cuts[k + 1], Halted(f, stops, order, k).modules[order[k]], order[k],
                        stops(order[k]));
    }
    assert n > 0 ==> Rises(cuts, n - 1);
    Rising(cuts, 0);
    forall k | 0 <= k < n ensures HaltServedAt(b, cuts, f, stops, order, k) {
      assert HaltServedAt(a, cuts, f, stops, order, k);
      Rising(cuts, k + 1);
      AgreesEarlier(a, b, cuts[k + 1], cuts[n]);
      HaltServedAgrees(a, b, cuts[k], cuts[k + 1], Halted(f, stops, order, k).modules[order[k]], order[k],
                       stops(order[k]));
    }
  }

  /** An operation is served forwards, and what serves it is the run up to its end. */
  lemma ServesAgrees(a: Trace, b: Trace, p: nat, q: nat, f: Fleet, op: Operation, g: Fleet)
    requires Sound(b) && Agrees(a, b, q) && Serves(a, p, q, f, op, g)
    requires p < |a.states| && a.states[p].current == None
    ensures p <= q && Serves(b, p, q, f, op, g) && a.states[q].current == None
  {
    hide Sound, Agrees, SweepServedTo, RefreshesServedTo, HaltsServedTo, Step, Rests;
    hide Swept, Refreshed, Halted, Prepared, ProvidersFirst, DependencyGraph;
    match op
    case RegisterModule(d, schema) =>
      RestsForward(a, p, q);
      RestsAgree(a, b, p, q);
    case Validate(validations) =>
      RestsForward(a, p, q);
      RestsAgree(a, b, p, q);
    case Start(validations, starts) =>
      var order: seq<nat>, cuts: seq<nat> :|
        && Schedules(Prepared(f.modules), order)
        && g == AfterStartup(AfterValidation(f, validations, order), starts, order)
        && Cuts(cuts, p, q)
        && SweepServed(a, cuts, Startup(starts), AfterValidation(f, validations, order), order);
      SweepLength(a, cuts, Startup(starts), AfterValidation(f, validations, order), order);
      SweepAgrees(a, b, cuts, Startup(starts), AfterValidation(f, validations, order), order, |order|);
      assert SweepServed(b, cuts, Startup(starts), AfterValidation(f, validations, order), order);
    case Probe(probes, stops) =>
      var cuts: seq<nat> :| Cuts(cuts, p, q) && RefreshesServed(a, cuts, f, probes, stops);
      RefreshesLength(a, cuts, f, probes, stops);
      RefreshesAgree(a, b, cuts, f, probes, stops, |f.modules|);
      assert RefreshesServed(b, cuts, f, probes, stops);
    case Shutdown(stops) =>
      var order: seq<nat>, cuts: seq<nat> :|
        && StopsInOrder(f.modules, order) && g == Halted(f, stops, order, |order|)
        && Cuts(cuts, p, q) && HaltsServed(a, cuts, f, stops, order);
      HaltsLength(a, cuts, f, stops, order);
      HaltsAgree(a, b, cuts, f, stops, order, |order|);
      assert HaltsServed(b, cuts, f, stops, order);
  }

  lemma SweepLength(tr: Trace, cuts: seq<nat>, sweep: Sweep, f: Fleet, order: seq<nat>)
    requires Indices(order, |f.modules|) && SweepServed(tr, cuts, sweep, f, order)
    ensures |cuts| == |order| + 1
  {
  }

  lemma HaltsLength(tr: Trace, cuts: seq<nat>, f: Fleet, stops: nat -> StopOutcome, order: seq<nat>)
    requires Indices(order, |f.modules|) && HaltsServed(tr, cuts, f, stops, order)
    ensures |cuts| == |order| + 1
  {
  }

  // ---------- Runs that agree are supervised alike ----------

  /** The supervisor waits for nothing between operations, and points come in order. */
  lemma {:induction false} PointsAreFree(tr: Trace, fs: seq<Fleet>, ops: seq<Operation>, points: seq<nat>, k: nat)
    requires Supervised(tr, fs, ops, points) && k <= |ops|
    ensures points[k] < |tr.states| && tr.states[points[k]].current == None
    ensures k > 0 ==> points[k - 1] <= points[k]
  {
    hide Serves, Sound, Inv, Matches;
    HandlesAreSlots(tr, fs, ops, points, k);
    if k == 0 {
      RestsForward(tr, 0, points[0]);
    } else {
      PointsAreFree(tr, fs, ops, points, k - 1);
      assert ServedAt(tr, fs, ops, points, k - 1);
      SoundShape(tr);
      SelfAgrees(tr, points[k]);
      ServesAgrees(tr, tr, points[k - 1], points[k], fs[k - 1], ops[k - 1], fs[k]);
    }
  }

  lemma SelfAgrees(tr: Trace, q: nat)
    requires |tr.states| == |tr.steps| + 1 && q < |tr.states|
    ensures Agrees(tr, tr, q)
  {
  }

  lemma PointsRise(tr: Trace, fs: seq<Fleet>, ops: seq<Operation>, points: seq<nat>, k: nat)
    requires Supervised(tr, fs, ops, points) && k <= |ops|
    ensures points[k] <= points[|ops|]
  {
    hide Serves, Sound, Rests;
    forall j | 0 <= j < |points| - 1 ensures Rises(points, j) {
      PointsAreFree(tr, fs, ops, points, j + 1);
    }
    Rising(points, k);
  }

  /** Whether a run is supervised depends on the handoff only up to the last point. */
  lemma SupervisedAgrees(a: Trace, b: Trace, fs: seq<Fleet>, ops: seq<Operation>, points: seq<nat>)
    requires Supervised(a, fs, ops, points) && Sound(b) && Agrees(a, b, points[|ops|])
    ensures Supervised(b, fs, ops, points)
  {
    hide Serves, Sound, Agrees, Rests;
    PointsRise(a, fs, ops, points, 0);
    AgreesEarlier(a, b, points[0], points[|ops|]);
    RestsAgree(a, b, 0, points[0]);
    AgreesAtStart(a, b, points[0]);
    forall k | 0 <= k < |ops| ensures ServedAt(b, fs, ops, points, k) {
      assert ServedAt(a, fs, ops, points, k);
      PointsRise(a, fs, ops, points, k + 1);
      AgreesEarlier(a, b, points[k + 1], points[|ops|]);
      PointsAreFree(a, fs, ops, points, k);
      ServesAgrees(a, b, points[k], points[k + 1], fs[k], ops[k], fs[k + 1]);
    }
  }

  lemma AgreesAtStart(a: Trace, b: Trace, q: nat)
    requires Agrees(a, b, q)
    ensures a.states != [] && b.states != [] && a.states[0] == b.states[0]
  {
  }

  // ---------- Serving one call ----------

  /** Where a run has come to. */
  function End(tr: Trace): nat
    requires tr.states != []
  {
    |tr.states| - 1
  }

  /** `more` goes on from `tr` to a moment at which the supervisor waits for nothing. */
  ghost predicate GoesOn(tr: Trace, more: Trace, delivered: nat) {
    && Free(tr) && Free(more) && Agrees(tr, more, End(tr))
    && Last(more).next == Last(tr).next + delivered
  }

  lemma StaysFree(tr: Trace)
    requires Free(tr)
    ensures GoesOn(tr, tr, 0) && Rests(tr, End(tr), End(tr))
  {
  }

  lemma GoesOnTwice(a: Trace, b: Trace, c: Trace, m: nat, n: nat)
    requires GoesOn(a, b, m) && GoesOn(b, c, n)
    ensures GoesOn(a, c, m + n)
  {
    hide Sound;
  }

  function Arrival(outcome: StartOutcome): nat {
    if Succeeds(outcome) then 1 else 0
  }

  /** A start that delivers a handle delivers the one after all delivered so far. */
  predicate Delivers(outcome: StartOutcome, next: nat) {
    Succeeds(outcome) ==> outcome.value.value == next
  }

  lemma StartIsServed(tr: Trace, i: nat, outcome: StartOutcome) returns (more: Trace)
    requires Free(tr) && i < |Last(tr).slots| && Last(tr).slots[i] == None && Delivers(outcome, Last(tr).next)
    ensures GoesOn(tr, more, Arrival(outcome)) && StartServed(more, End(tr), End(more), i, outcome)
  {
    hide H.WaitsFrom, Sound, CallsOnce, StartServed;
    var begin := H.BeginStart(i);
    match outcome {
      case NotSpawned => more := CallFails(tr, begin);
      case TimedOut => more := CallTimesOut(tr, begin);
      case Completed(result) => more := StartCompletes(tr, begin, result.Ok?);
    }
    var error := if outcome.Completed? && outcome.value.Err? then outcome.value.error else Internal;
    assert more.states[End(tr)] == Last(tr);
    StartServedBy(more, End(tr), End(more), i, outcome, |more.steps| - 1, error);
  }

  lemma StartServedBy(tr: Trace, p: nat, q: nat, i: nat, outcome: StartOutcome, e: nat, error: CoreErrorCode)
    requires CallsOnce(tr, p, q, p, e, H.BeginStart(i), i) && |tr.states[p].ops| < |tr.states[e].ops|
    requires outcome == Seen(tr.steps[e], Delivered(tr.states[e].ops[|tr.states[p].ops|].output, error))
    ensures StartServed(tr, p, q, i, outcome)
  {
    hide CallsOnce;
  }

  /** What a probe or a stop reports when it completes always comes with the handle. */
  predicate Reports<T>(outcome: Bounded<Option<T>>) {
    outcome.Completed? ==> outcome.value.Some?
  }

  lemma UseIsServed<T>(tr: Trace, kind: H.Kind, i: nat, outcome: Bounded<Option<T>>) returns (more: Trace)
    requires Free(tr) && i < |Last(tr).slots| && Last(tr).slots[i].Some? && kind != H.Starting && Reports(outcome)
    ensures GoesOn(tr, more, 0) && |more.steps| > 0
    ensures CallsOnce(more, End(tr), End(more), End(tr), |more.steps| - 1, H.BeginUse(kind, i), i)
    ensures Ended(more.steps[|more.steps| - 1], outcome)
  {
    hide H.WaitsFrom, Sound;
    var begin := H.BeginUse(kind, i);
    match outcome
    case NotSpawned => more := CallFails(tr, begin);
    case TimedOut => more := CallTimesOut(tr, begin);
    case Completed(result) => more := UseCompletes(tr, begin);
  }

  /** The call's last step and its outcome fit. */
  predicate Ended<T>(end: H.Step, outcome: Bounded<T>) {
    match outcome
    case NotSpawned => end.SpawnFails?
    case TimedOut => end.WaiterAbandons?
    case Completed(_) => end.WaiterTakes?
  }

  lemma ProbeIsServed(tr: Trace, i: nat, outcome: HealthOutcome) returns (more: Trace)
    requires Free(tr) && i < |Last(tr).slots| && Last(tr).slots[i].Some? && Reports(outcome)
    ensures GoesOn(tr, more, 0) && ProbeServed(more, End(tr), End(more), i, outcome)
  {
    hide CallsOnce, GoesOn, Free;
    more := UseIsServed(tr, H.Probing, i, outcome);
    var result := if outcome.Completed? then outcome.value.value else Ok(HealthReady);
    assert outcome == Seen(more.steps[|more.steps| - 1], Some(result));
  }

  lemma StopIsServed(tr: Trace, i: nat, outcome: StopOutcome) returns (more: Trace)
    requires Free(tr) && i < |Last(tr).slots| && Last(tr).slots[i].Some? && Reports(outcome)
    ensures GoesOn(tr, more, 0) && StopServed(more, End(tr), End(more), i, outcome)
  {
    hide CallsOnce, GoesOn, Free;
    more := UseIsServed(tr, H.Stopping, i, outcome);
    var result := if outcome.Completed? then outcome.value.value else Ok(());
    assert outcome == Seen(more.steps[|more.steps| - 1], Some(result));
  }

  // ---------- Serving visit after visit ----------

  function VisitArrival(sweep: Sweep, f: Fleet, i: nat): nat
    requires i < |f.modules|
  {
    if Launches(sweep, f, i) then Arrival(sweep.starts(i)) else 0
  }

  /** How many handles the first `k` visits deliver. */
  ghost function Arrivals(sweep: Sweep, f: Fleet, order: seq<nat>, k: nat): nat
    requires Indices(order, |f.modules|) && k <= |order|
  {
    if k == 0 then 0
    else Arrivals(sweep, f, order, k - 1) + VisitArrival(sweep, Swept(sweep, f, order, k - 1), order[k - 1])
  }

  ghost predicate InSequenceAt(sweep: Sweep, f: Fleet, order: seq<nat>, next: nat, k: nat)
    requires Indices(order, |f.modules|) && k < |order|
  {
    Launches(sweep, Swept(sweep, f, order, k), order[k]) ==>
      Delivers(sweep.starts(order[k]), next + Arrivals(sweep, f, order, k))
  }

  /** Factories that deliver at all deliver one new handle after another, beginning with `next`. */
  ghost predicate InSequence(sweep: Sweep, f: Fleet, order: seq<nat>, next: nat)
    requires Indices(order, |f.modules|)
  {
    forall k :: 0 <= k < |order| ==> InSequenceAt(sweep, f, order, next, k)
  }

  lemma LaunchedHasNone(sweep: Sweep, f: Fleet, i: nat, slots: seq<Option<nat>>)
    requires i < |f.modules| && Inv(f) && Matches(f.modules, slots) && Launches(sweep, f, i)
    ensures i < |slots| && slots[i] == None
  {
    assert Fits(f.modules[i], Replay(f.log, i));
  }

  lemma VisitIsServed(tr: Trace, sweep: Sweep, f: Fleet, i: nat) returns (more: Trace)
    requires Free(tr) && i < |f.modules| && Inv(f) && Matches(f.modules, Last(tr).slots)
    requires Launches(sweep, f, i) ==> Delivers(sweep.starts(i), Last(tr).next)
    ensures GoesOn(tr, more, VisitArrival(sweep, f, i)) && VisitServed(more, End(tr), End(more), sweep, f, i)
    ensures Matches(Visit(sweep, f, i).modules, Last(more).slots)
  {
    hide Inv, Matches, StartServed, Sound, Rests, Visit;
    if Launches(sweep, f, i) {
      LaunchedHasNone(sweep, f, i, Last(tr).slots);
      more := StartIsServed(tr, i, sweep.starts(i));
    } else {
      more := tr;
      StaysFree(tr);
    }
    assert more.states[End(tr)] == Last(tr);
    VisitMatches(more, End(tr), End(more), sweep, f, i);
  }

  lemma {:induction false} SweepIsServed(tr: Trace, sweep: Sweep, f: Fleet, order: seq<nat>, n: nat)
    returns (more: Trace, cuts: seq<nat>)
    requires Free(tr) && Indices(order, |f.modules|) && n <= |order|
    requires Inv(f) && Matches(f.modules, Last(tr).slots) && InSequence(sweep, f, order, Last(tr).next)
    ensures GoesOn(tr, more, Arrivals(sweep, f, order, n))
    ensures SweepServedTo(more, cuts, sweep, f, order, n) && Cuts(cuts, End(tr), End(more))
    ensures Matches(Swept(sweep, f, order, n).modules, Last(more).slots)
    decreases n
  {
    hide Inv, Matches, VisitServed, Sound, Visit, Delivers;
    if n == 0 {
      more, cuts := tr, [End(tr)];
      StaysFree(tr);
    } else {
      var prev, before := SweepIsServed(tr, sweep, f, order, n - 1);
      var g := Swept(sweep, f, order, n - 1);
      SweptKeeps(sweep, f, order, n - 1);
      assert InSequenceAt(sweep, f, order, Last(tr).next, n - 1);
      more := VisitIsServed(prev, sweep, g, order[n - 1]);
      GoesOnTwice(tr, prev, more, Arrivals(sweep, f, order, n - 1), VisitArrival(sweep, g, order[n - 1]));
      SweepAgrees(prev, more, before, sweep, f, order, n - 1);
      cuts := before + [End(more)];
      VisitsAppend(more, before, sweep, f, order, n - 1, End(more));
    }
  }

  lemma VisitsAppend(tr: Trace, cuts: seq<nat>, sweep: Sweep, f: Fleet, order: seq<nat>, n: nat, q: nat)
    requires Indices(order, |f.modules|) && n < |order| && SweepServedTo(tr, cuts, sweep, f, order, n)
    requires VisitServed(tr, cuts[n], q, sweep, Swept(sweep, f, order, n), order[n])
    ensures SweepServedTo(tr, cuts + [q], sweep, f, order, n + 1)
  {
    hide VisitServed, Swept;
    forall k | 0 <= k < n + 1 ensures VisitServedAt(tr, cuts + [q], sweep, f, order, k) {
      if k < n {
        assert VisitServedAt(tr, cuts, sweep, f, order, k);
      }
    }
  }

  /** A probe that is not answered in health but gives the handle back, and the stop that follows. */
  lemma ProbeAndStopAreServed(tr: Trace, i: nat, probe: HealthOutcome, stop: StopOutcome) returns (more: Trace, r: nat)
    requires Free(tr) && i < |Last(tr).slots| && Last(tr).slots[i].Some? && !probe.TimedOut?
    requires Reports(probe) && Reports(stop)
    ensures GoesOn(tr, more, 0)
    ensures ProbeServed(more, End(tr), r, i, probe) && StopServed(more, r, End(more), i, stop)
  {
    hide ProbeServed, StopServed, Sound;
    var probed := ProbeIsServed(tr, i, probe);
    assert probed.states[End(tr)] == Last(tr);
    ProbeServedSlots(probed, End(tr), End(probed), i, probe);
    more := StopIsServed(probed, i, stop);
    r := End(probed);
    GoesOnTwice(tr, probed, more, 0, 0);
    ProbeServedAgrees(probed, more, End(tr), r, i, probe);
  }

  lemma RefreshCallsAreServed(tr: Trace, m: ManagedModule, i: nat, probe: HealthOutcome, stop: StopOutcome)
    returns (more: Trace)
    requires Free(tr) && i < |Last(tr).slots| && m.handle == Last(tr).slots[i] && Reports(probe) && Reports(stop)
    ensures GoesOn(tr, more, 0) && RefreshServed(more, End(tr), End(more), m, i, probe, stop)
  {
    hide ProbeServed, StopServed, GoesOn, Rests, Answered, Free;
    if m.handle.None? {
      more := tr;
      StaysFree(tr);
    } else if Answered(probe) || probe.TimedOut? {
      more := ProbeIsServed(tr, i, probe);
    } else {
      var r: nat;
      more, r := ProbeAndStopAreServed(tr, i, probe, stop);
      assert ProbeServed(more, End(tr), r, i, probe) && StopServed(more, r, End(more), i, stop);
    }
  }

  lemma RefreshIsServed(tr: Trace, f: Fleet, i: nat, probe: HealthOutcome, stop: StopOutcome) returns (more: Trace)
    requires Free(tr) && i < |f.modules| && Matches(f.modules, Last(tr).slots) && Reports(probe) && Reports(stop)
    ensures GoesOn(tr, more, 0) && RefreshServed(more, End(tr), End(more), f.modules[i], i, probe, stop)
    ensures Matches(RefreshOne(f, i, probe, stop).modules, Last(more).slots)
  {
    assert f.modules[i].handle == Last(tr).slots[i];
    hide Matches, RefreshServed, Sound, RefreshOne, Reports;
    more := RefreshCallsAreServed(tr, f.modules[i], i, probe, stop);
    assert more.states[End(tr)] == Last(tr);
    RefreshMatches(more, End(tr), End(more), f, i, probe, stop);
  }

  ghost predicate AllReport(f: Fleet, probes: nat -> HealthOutcome, stops: nat -> StopOutcome) {
    forall i: nat :: i < |f.modules| ==> Reports(probes(i)) && Reports(stops(i))
  }

  lemma {:induction false} RefreshesAreServed(tr: Trace, f: Fleet, probes: nat -> HealthOutcome,
                                              stops: nat -> StopOutcome, n: nat)
    returns (more: Trace, cuts: seq<nat>)
    requires Free(tr) && n <= |f.modules| && Matches(f.modules, Last(tr).slots) && AllReport(f, probes, stops)
    ensures GoesOn(tr, more, 0)
    ensures RefreshesServedTo(more, cuts, f, probes, stops, n) && Cuts(cuts, End(tr), End(more))
    ensures Matches(Refreshed(f, probes, stops, n).modules, Last(more).slots)
    decreases n
  {
    hide Matches, RefreshServed, Sound, RefreshOne, Reports;
    if n == 0 {
      more, cuts := tr, [End(tr)];
      StaysFree(tr);
    } else {
      var prev, before := RefreshesAreServed(tr, f, probes, stops, n - 1);
      var g := Refreshed(f, probes, stops, n - 1);
      more := RefreshIsServed(prev, g, n - 1, probes(n - 1), stops(n - 1));
      GoesOnTwice(tr, prev, more, 0, 0);
      RefreshesAgree(prev, more, before, f, probes, stops, n - 1);
      cuts := before + [End(more)];
      RefreshesAppend(more, before, f, probes, stops, n - 1, End(more));
    }
  }

  lemma RefreshesAppend(tr: Trace, cuts: seq<nat>, f: Fleet, probes: nat -> HealthOutcome, stops: nat -> StopOutcome,
                        n: nat, q: nat)
    requires n < |f.modules| && RefreshesServedTo(tr, cuts, f, probes, stops, n)
    requires RefreshServed(tr, cuts[n], q, Refreshed(f, probes, stops, n).modules[n], n, probes(n), stops(n))
    ensures RefreshesServedTo(tr, cuts + [q], f, probes, stops, n + 1)
  {
    hide RefreshServed, Refreshed;
    forall k | 0 <= k < n + 1 ensures RefreshServedAt(tr, cuts + [q], f, probes, stops, k) {
      if k < n {
        assert RefreshServedAt(tr, cuts, f, probes, stops, k);
      }
    }
  }

  lemma HaltIsServed(tr: Trace, f: Fleet, i: nat, stop: StopOutcome) returns (more: Trace)
    requires Free(tr) && i < |f.modules| && Matches(f.modules, Last(tr).slots) && Reports(stop)
    ensures GoesOn(tr, more, 0) && HaltServed(more, End(tr), End(more), f.modules[i], i, stop)
    ensures Matches(StopOne(f, i, stop).modules, Last(more).slots)
  {
    assert f.modules[i].handle == Last(tr).slots[i];
    hide Matches, StopServed, Sound, Rests, StopOne;
    if f.modules[i].handle.None? {
      more := tr;
      StaysFree(tr);
    } else {
      more := StopIsServed(tr, i, stop);
    }
    assert more.states[End(tr)] == Last(tr);
    HaltMatches(more, End(tr), End(more), f, i, stop);
  }

  lemma {:induction false} HaltsAreServed(tr: Trace, f: Fleet, stops: nat -> StopOutcome, order: seq<nat>, n: nat)
    returns (more: Trace, cuts: seq<nat>)
    requires Free(tr) && Indices(order, |f.modules|) && n <= |order| && Matches(f.modules, Last(tr).slots)
    requires forall i: nat :: i < |f.modules| ==> Reports(stops(i))
    ensures GoesOn(tr, more, 0)
    ensures HaltsServedTo(more, cuts, f, stops, order, n) && Cuts(cuts, End(tr), End(more))
    ensures Matches(Halted(f, stops, order, n).modules, Last(more).slots)
    decreases n
  {
    hide Matches, HaltServed, Sound, StopOne, Reports;
    if n == 0 {
      more, cuts := tr, [End(tr)];
      StaysFree(tr);
    } else {
      var prev, before := HaltsAreServed(tr, f, stops, order, n - 1);
      more := HaltIsServed(prev, Halted(f, stops, order, n - 1), order[n - 1], stops(order[n - 1]));
      GoesOnTwice(tr, prev, more, 0, 0);
      HaltsAgree(prev, more, before, f, stops, order, n - 1);
      cuts := before + [End(more)];
      HaltsAppend(more, before, f, stops, order, n - 1, End(more));
    }
  }

  lemma HaltsAppend(tr: Trace, cuts: seq<nat>, f: Fleet, stops: nat -> StopOutcome, order: seq<nat>, n: nat, q: nat)
    requires Indices(order, |f.modules|) && n < |order| && HaltsServedTo(tr, cuts, f, stops, order, n)
    requires HaltServed(tr, cuts[n], q, Halted(f, stops, order, n).modules[order[n]], order[n], stops(order[n]))
    ensures HaltsServedTo(tr, cuts + [q], f, stops, order, n + 1)
  {
    hide HaltServed, Halted;
    forall k | 0 <= k < n + 1 ensures HaltServedAt(tr, cuts + [q], f, stops, order, k) {
      if k < n {
        assert HaltServedAt(tr, cuts, f, stops, order, k);
      }
    }
  }

  // ---------- Serving every operation ----------

  /**
   * An operation as the environment can answer it when `next` handles were delivered before, with `after` delivered in
   * the end: factories deliver new handles, and completed probes and stops come with theirs.
   */
  ghost predicate FreshStep(f: Fleet, op: Operation, g: Fleet, next: nat, after: nat) {
    match op
    case RegisterModule(d, schema) => Step(f, op, g) && after == next
    case Validate(validations) => Step(f, op, g) && after == next
    case Start(validations, starts) =>
      exists order: seq<nat> ::
        && Schedules(Prepared(f.modules), order)
        && var validated := AfterValidation(f, validations, order);
           && g == AfterStartup(validated, starts, order)
           && InSequence(Startup(starts), validated, order, next)
           && after == next + Arrivals(Startup(starts), validated, order, |order|)
    case Probe(probes, stops) => Step(f, op, g) && AllReport(f, probes, stops) && after == next
    case Shutdown(stops) =>
      Step(f, op, g) && (forall i: nat :: i < |f.modules| ==> Reports(stops(i))) && after == next
  }

  lemma StartOperationIsServed(tr: Trace, f: Fleet, validations: nat -> ValidationOutcome, starts: nat -> StartOutcome,
                               g: Fleet, after: nat)
    returns (more: Trace)
    requires Free(tr) && Inv(f) && Matches(f.modules, Last(tr).slots)
    requires FreshStep(f, Start(validations, starts), g, Last(tr).next, after)
    ensures Free(more) && Agrees(tr, more, End(tr)) && Last(more).next == after
    ensures Serves(more, End(tr), End(more), f, Start(validations, starts), g)
  {
    hide Inv, Matches, Sound, Prepared, AfterValidation, InSequence, Arrivals, Swept, SweepServedTo;
    hide ProvidersFirst, DependencyGraph;
    var order: seq<nat> :|
      && Schedules(Prepared(f.modules), order)
      && var validated := AfterValidation(f, validations, order);
         && g == AfterStartup(validated, starts, order)
         && InSequence(Startup(starts), validated, order, Last(tr).next)
         && after == Last(tr).next + Arrivals(Startup(starts), validated, order, |order|);
    var validated := AfterValidation(f, validations, order);
    ValidationKeeps(f, validations, order);
    ValidationMatches(f, validations, order, Last(tr).slots);
    var cuts: seq<nat>;
    more, cuts := SweepIsServed(tr, Startup(starts), validated, order, |order|);
    assert SweepServed(more, cuts, Startup(starts), validated, order);
  }

  lemma ProbeOperationIsServed(tr: Trace, f: Fleet, probes: nat -> HealthOutcome, stops: nat -> StopOutcome)
    returns (more: Trace)
    requires Free(tr) && Matches(f.modules, Last(tr).slots) && AllReport(f, probes, stops)
    ensures Free(more) && Agrees(tr, more, End(tr)) && Last(more).next == Last(tr).next
    ensures Serves(more, End(tr), End(more), f, Probe(probes, stops), Refreshed(f, probes, stops, |f.modules|))
  {
    hide Matches, Sound, AllReport, Refreshed, RefreshesServedTo;
    var cuts: seq<nat>;
    more, cuts := RefreshesAreServed(tr, f, probes, stops, |f.modules|);
    assert RefreshesServed(more, cuts, f, probes, stops);
  }

  lemma ShutdownOperationIsServed(tr: Trace, f: Fleet, stops: nat -> StopOutcome, order: seq<nat>)
    returns (more: Trace)
    requires Free(tr) && Matches(f.modules, Last(tr).slots) && StopsInOrder(f.modules, order)
    requires forall i: nat :: i < |f.modules| ==> Reports(stops(i))
    ensures Free(more) && Agrees(tr, more, End(tr)) && Last(more).next == Last(tr).next
    ensures Serves(more, End(tr), End(more), f, Shutdown(stops), Halted(f, stops, order, |order|))
  {
    hide Matches, Sound, Halted, HaltsServedTo, Reports, DependencyGraph;
    var cuts: seq<nat>;
    more, cuts := HaltsAreServed(tr, f, stops, order, |order|);
    assert HaltsServed(more, cuts, f, stops, order);
  }

  lemma OperationIsServed(tr: Trace, f: Fleet, op: Operation, g: Fleet, after: nat) returns (more: Trace)
    requires Free(tr) && Inv(f) && Matches(f.modules, Last(tr).slots) && FreshStep(f, op, g, Last(tr).next, after)
    ensures Free(more) && Agrees(tr, more, End(tr)) && Last(more).next == after
    ensures Serves(more, End(tr), End(more), f, op, g)
  {
    match op {
      case RegisterModule(d, schema) =>
        more := tr;
        StaysFree(tr);
      case Validate(validations) =>
        more := tr;
        StaysFree(tr);
      case Start(validations, starts) =>
        more := StartOperationIsServed(tr, f, validations, starts, g, after);
      case Probe(probes, stops) =>
        more := ProbeOperationIsServed(tr, f, probes, stops);
      case Shutdown(stops) =>
        var order: seq<nat> :| StopsInOrder(f.modules, order) && g == Halted(f, stops, order, |order|);
        more := ShutdownOperationIsServed(tr, f, stops, order);
    }
  }

  /** A run cut off at state `p`. */
  function CutOff(tr: Trace, p: nat): Trace
    requires p < |tr.states| && p <= |tr.steps|
  {
    Trace(tr.states[..p + 1], tr.steps[..p])
  }

  lemma CutOffAgrees(tr: Trace, p: nat)
    requires Sound(tr) && p < |tr.states| && p <= |tr.steps| && tr.states[p].current == None
    ensures Free(CutOff(tr, p)) && Agrees(tr, CutOff(tr, p), p) && Last(CutOff(tr, p)) == tr.states[p]
  {
    hide H.Enabled, H.Next, H.Initial;
    var cut := CutOff(tr, p);
    forall k | 0 <= k < |cut.steps| ensures H.StepAt(cut.states, cut.steps, k) {
      assert H.StepAt(tr.states, tr.steps, k);
    }
  }

  /** Every supervised run goes on with every operation, whatever the environment answers. */
  lemma SupervisedRunsGoOn(tr: Trace, fs: seq<Fleet>, ops: seq<Operation>, points: seq<nat>, op: Operation, g: Fleet,
                           after: nat)
    returns (more: Trace, q: nat)
    requires Supervised(tr, fs, ops, points) && points[|ops|] < |tr.states|
    requires FreshStep(fs[|ops|], op, g, tr.states[points[|ops|]].next, after)
    ensures Agrees(tr, more, points[|ops|])
    ensures Supervised(more, fs + [g], ops + [op], points + [q])
    ensures q < |more.states| && more.states[q].next == after
  {
    hide Serves, Matches, Sound, Inv, FreshStep, Step;
    var p := points[|ops|];
    PointsAreFree(tr, fs, ops, points, |ops|);
    HandlesAreSlots(tr, fs, ops, points, |ops|);
    SupervisedIsRun(tr, fs, ops, points);
    Reachable(fs, ops, |ops|);
    SoundShape(tr);
    CutOffAgrees(tr, p);
    var cut := CutOff(tr, p);
    more := OperationIsServed(cut, fs[|ops|], op, g, after);
    q := End(more);
    AgreesThrough(tr, cut, more, p, p);
    SupervisedAgrees(tr, more, fs, ops, points);
    OneMoreServed(more, fs, ops, points, op, g, q);
  }

  lemma OneMoreServed(tr: Trace, fs: seq<Fleet>, ops: seq<Operation>, points: seq<nat>, op: Operation, g: Fleet, q: nat)
    requires Supervised(tr, fs, ops, points) && Serves(tr, points[|ops|], q, fs[|ops|], op, g)
    ensures Supervised(tr, fs + [g], ops + [op], points + [q])
  {
    hide Serves, Sound, Rests;
    forall k | 0 <= k < |ops| + 1 ensures ServedAt(tr, fs + [g], ops + [op], points + [q], k) {
      if k < |ops| {
        assert ServedAt(tr, fs, ops, points, k);
      }
    }
  }

  // ---------- Every run of the fleet is supervised ----------

  ghost predicate FreshAt(fs: seq<Fleet>, ops: seq<Operation>, counts: seq<nat>, k: nat)
    requires |fs| == |counts| == |ops| + 1 && k < |ops|
  {
    FreshStep(fs[k], ops[k], fs[k + 1], counts[k], counts[k + 1])
  }

  /** A run of the fleet in which `counts[k]` handles were delivered before operation `k`, numbered as they came. */
  ghost predicate FreshRun(fs: seq<Fleet>, ops: seq<Operation>, counts: seq<nat>) {
    && |fs| == |counts| == |ops| + 1 && fs[0] == Fleet([], []) && counts[0] == 0
    && forall k :: 0 <= k < |ops| ==> FreshAt(fs, ops, counts, k)
  }

  function Unused(): H.State {
    H.State(seq(MAX_MODULES, _ => None), [], None, 0, {}, [])
  }

  /** So what is proved of supervised runs is proved of every run of the fleet, up to the numbering of handles. */
  lemma {:induction false} EveryRunIsSupervised(fs: seq<Fleet>, ops: seq<Operation>, counts: seq<nat>)
    returns (tr: Trace, points: seq<nat>)
    requires FreshRun(fs, ops, counts)
    ensures Supervised(tr, fs, ops, points)
    ensures points[|ops|] < |tr.states| && tr.states[points[|ops|]].next == counts[|ops|]
    decreases ops
  {
    hide Serves, FreshStep;
    if ops == [] {
      tr, points := Trace([Unused()], []), [0];
    } else {
      var n := |ops| - 1;
      var before, done, counted := fs[..n + 1], ops[..n], counts[..n + 1];
      forall k | 0 <= k < n ensures FreshAt(before, done, counted, k) {
        assert FreshAt(fs, ops, counts, k);
      }
      tr, points := EveryRunIsSupervised(before, done, counted);
      assert FreshAt(fs, ops, counts, n);
      var q;
      tr, q := SupervisedRunsGoOn(tr, before, done, points, ops[n], fs[n + 1], counts[n + 1]);
      points := points + [q];
      assert fs == before + [fs[n + 1]] && ops == done + [ops[n]];
    }
  }
}
