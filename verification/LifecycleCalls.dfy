/** Runs of the handoff, the supervisor's calls in them, and the call of every kind that any such run can go on with. */
module LifecycleCalls {
  import opened Words
  import H = LifecycleHandoff

  /** A run of the handoff. */
  datatype Trace = Trace(states: seq<H.State>, steps: seq<H.Step>)

  ghost predicate Sound(tr: Trace) {
    H.Run(tr.states, tr.steps)
  }

  /** The supervisor waits for nothing from state `p` to state `q`. */
  ghost predicate Rests(tr: Trace, p: nat, q: nat) {
    p <= q < |tr.states| && forall j :: p <= j <= q ==> tr.states[j].current == None
  }

  /** From `p` to `q` the supervisor makes one call, begun by step `b` and ended by step `e`. */
  ghost predicate CallsOnce(tr: Trace, p: nat, q: nat, b: nat, e: nat, begin: H.Step, i: nat) {
    && |tr.states| == |tr.steps| + 1 && b < e < |tr.steps|
    && Rests(tr, p, b) && Rests(tr, e + 1, q)
    && tr.steps[b] == begin && H.WaitsFrom(tr.states, tr.steps, b, e, i)
  }

  // ---------- Runs that agree ----------

  /** The two runs are the same up to state `q`. */
  ghost predicate Agrees(a: Trace, b: Trace, q: nat) {
    && q < |a.states| && q < |b.states| && q <= |a.steps| && q <= |b.steps|
    && (forall j :: 0 <= j <= q ==> a.states[j] == b.states[j])
    && (forall j :: 0 <= j < q ==> a.steps[j] == b.steps[j])
  }

  lemma RestsAgree(a: Trace, b: Trace, p: nat, q: nat)
    requires Agrees(a, b, q) && Rests(a, p, q)
    ensures Rests(b, p, q)
  {
  }

  lemma CallsAgree(a: Trace, b: Trace, p: nat, q: nat, from: nat, to: nat, begin: H.Step, i: nat)
    requires Sound(b) && Agrees(a, b, q) && CallsOnce(a, p, q, from, to, begin, i)
    ensures CallsOnce(b, p, q, from, to, begin, i)
  {
    hide H.Run;
    assert |b.states| == |b.steps| + 1 by {
      SoundShape(b);
    }
  }

  lemma SoundShape(tr: Trace)
    requires Sound(tr)
    ensures |tr.states| == |tr.steps| + 1
  {
  }

  // ---------- Going on with a run ----------

  /** The state a run has come to. */
  function Last(tr: Trace): H.State
    requires tr.states != []
  {
    tr.states[|tr.states| - 1]
  }

  /** A run after which the supervisor waits for nothing. */
  ghost predicate Free(tr: Trace) {
    Sound(tr) && |tr.states| == |tr.steps| + 1 && Last(tr).current == None
  }

  ghost function Then(tr: Trace, step: H.Step): Trace
    requires tr.states != [] && H.Enabled(Last(tr), step)
  {
    Trace(tr.states + [H.Next(Last(tr), step)], tr.steps + [step])
  }

  lemma ThenGoesOn(tr: Trace, step: H.Step)
    requires Sound(tr) && |tr.states| == |tr.steps| + 1 && H.Enabled(Last(tr), step)
    ensures Sound(Then(tr, step)) && Agrees(tr, Then(tr, step), |tr.steps|)
  {
    hide H.Enabled, H.Next, H.Initial;
    var more := Then(tr, step);
    forall k | 0 <= k < |more.steps| ensures H.StepAt(more.states, more.steps, k) {
      if k < |tr.steps| {
        assert H.StepAt(tr.states, tr.steps, k);
      }
    }
  }

  /** From the end of `tr` the supervisor began a call with `begin` and waits; the new operation is `op`. */
  ghost predicate Calling(tr: Trace, on: Trace, begin: H.Step, op: H.Op, next: nat) {
    && Free(tr) && Sound(on) && |on.states| == |on.steps| + 1 && |tr.steps| < |on.steps| && Agrees(tr, on, |tr.steps|)
    && on.steps[|tr.steps|] == begin && (begin.BeginStart? || begin.BeginUse?)
    && (forall j :: |tr.steps| < j <= |on.steps| ==> on.states[j].current == Some(|Last(tr).ops|))
    && Amid(Last(tr), Last(on), op, next)
  }

  predicate Amid(s: H.State, t: H.State, op: H.Op, next: nat) {
    && t.ops == s.ops + [op] && t.next == next && t.current == Some(|s.ops|)
    && op.slot < |t.slots| && !op.abandoned
  }

  predicate IsWork(step: H.Step) {
    step.Spawn? || step.WorkerStarts? || step.WorkerTakes? || step.WorkerCalls? || step.Publish?
  }

  /** What a step of its own makes of an operation that nobody abandoned. */
  function Worked(op: H.Op, step: H.Step, next: nat): H.Op {
    match step
    case Spawn(_) => op.(worker := H.Spawned)
    case WorkerStarts(_, delivers) => op.(worker := H.Finished(if delivers then Some(next) else None))
    case WorkerTakes(_) => op.(worker := H.Holding(op.cell), cell := None)
    case WorkerCalls(_) => if op.worker.Holding? then op.(worker := H.Finished(op.worker.held)) else op
    case Publish(_) => if op.worker.Finished? then op.(worker := H.Done, output := Some(op.worker.result)) else op
    case _ => op
  }

  function Delivery(step: H.Step): nat {
    if step.WorkerStarts? && step.delivers then 1 else 0
  }

  lemma WorkAmid(s: H.State, t: H.State, op: H.Op, next: nat, step: H.Step)
    requires Amid(s, t, op, next) && H.Enabled(t, step) && IsWork(step) && H.Subject(t, step) == |s.ops|
    ensures Amid(s, H.Next(t, step), Worked(op, step, next), next + Delivery(step))
  {
    assert t.ops[|s.ops|] == op;
    assert H.Next(t, step).ops == s.ops + [Worked(op, step, next)];
  }

  /** The operation a call begins with. */
  function Begun(s: H.State, begin: H.Step): H.Op
    requires (begin.BeginStart? || begin.BeginUse?) && H.Enabled(s, begin)
  {
    if begin.BeginStart? then H.NewOp(H.Starting, begin.m, None) else H.NewOp(begin.kind, begin.m, s.slots[begin.m])
  }

  lemma Begins(tr: Trace, begin: H.Step) returns (on: Trace)
    requires Free(tr) && (begin.BeginStart? || begin.BeginUse?) && H.Enabled(Last(tr), begin)
    ensures Calling(tr, on, begin, Begun(Last(tr), begin), Last(tr).next)
  {
    hide H.Run;
    on := Then(tr, begin);
    ThenGoesOn(tr, begin);
  }

  lemma Works(tr: Trace, on: Trace, begin: H.Step, op: H.Op, next: nat, step: H.Step) returns (more: Trace)
    requires Calling(tr, on, begin, op, next)
    requires IsWork(step) && H.Enabled(Last(on), step) && H.Subject(Last(on), step) == |Last(tr).ops|
    ensures Calling(tr, more, begin, Worked(op, step, next), next + Delivery(step))
  {
    hide H.Run, H.Enabled, H.Next, H.Subject, Worked, Amid;
    more := Then(on, step);
    ThenGoesOn(on, step);
    WorkAmid(Last(tr), Last(on), op, next, step);
    assert more.states[|more.steps|].current == Some(|Last(tr).ops|) by {
      AmidWaits(Last(tr), Last(more), Worked(op, step, next), next + Delivery(step));
    }
  }

  lemma AmidWaits(s: H.State, t: H.State, op: H.Op, next: nat)
    requires Amid(s, t, op, next)
    ensures t.current == Some(|s.ops|)
  {
  }

  predicate IsEnd(step: H.Step) {
    step.SpawnFails? || step.WaiterTakes? || step.WaiterAbandons?
  }

  /** The call ends: `more` goes on from `tr` with exactly this call. */
  ghost predicate Called(tr: Trace, more: Trace, begin: H.Step, next: nat) {
    && (begin.BeginStart? || begin.BeginUse?)
    && Free(tr) && Free(more) && |tr.steps| + 1 < |more.steps| && Agrees(tr, more, |tr.steps|)
    && CallsOnce(more, |tr.steps|, |more.steps|, |tr.steps|, |more.steps| - 1, begin, begin.m)
    && |Last(tr).ops| < |more.states[|more.steps| - 1].ops| && Last(more).next == next
  }

  lemma Ends(tr: Trace, on: Trace, begin: H.Step, op: H.Op, next: nat, end: H.Step) returns (more: Trace)
    requires Calling(tr, on, begin, op, next)
    requires IsEnd(end) && H.Enabled(Last(on), end) && H.Subject(Last(on), end) == |Last(tr).ops|
    ensures Called(tr, more, begin, next)
    ensures more.steps[|more.steps| - 1] == end && more.states[|more.steps| - 1] == Last(on)
  {
    hide H.Run, H.Enabled, Amid;
    more := Then(on, end);
    ThenGoesOn(on, end);
    EndFrees(Last(on), end);
    AmidNext(Last(tr), Last(on), op, next);
  }

  lemma AmidNext(s: H.State, t: H.State, op: H.Op, next: nat)
    requires Amid(s, t, op, next)
    ensures t.next == next && |s.ops| < |t.ops|
  {
  }

  lemma EndFrees(s: H.State, end: H.Step)
    requires H.Enabled(s, end) && IsEnd(end)
    ensures H.Next(s, end).current == None && H.Next(s, end).next == s.next
  {
  }

  // ---------- Every way a call can go ----------

  predicate CanBegin(tr: Trace, begin: H.Step)
    requires tr.states != []
  {
    (begin.BeginStart? || begin.BeginUse?) && H.Enabled(Last(tr), begin)
  }

  lemma AmidEnables(s: H.State, t: H.State, op: H.Op, next: nat)
    requires Amid(s, t, op, next)
    ensures |s.ops| < |t.ops| && t.ops[|s.ops|] == op && OpEnables(t, |s.ops|, op)
  {
  }

  /** What can be done next with operation `k` while the supervisor waits for it. */
  ghost predicate OpEnables(t: H.State, k: nat, op: H.Op) {
    && (op.worker == H.Unspawned ==> H.Enabled(t, H.Spawn(k)) && H.Enabled(t, H.SpawnFails(k)))
    && (op.worker == H.Spawned && op.kind == H.Starting ==>
          forall delivers :: H.Enabled(t, H.WorkerStarts(k, delivers)))
    && (op.worker == H.Spawned && op.kind != H.Starting ==> H.Enabled(t, H.WorkerTakes(k)))
    && (op.worker.Holding? ==> H.Enabled(t, H.WorkerCalls(k)))
    && (op.worker.Finished? ==> H.Enabled(t, H.Publish(k)))
    && (op.output.Some? ==> H.Enabled(t, H.WaiterTakes(k)))
    && (op.worker != H.Unspawned && op.output.None? ==> H.Enabled(t, H.WaiterAbandons(k)))
  }

  lemma CallingEnables(tr: Trace, on: Trace, begin: H.Step, op: H.Op, next: nat)
    requires Calling(tr, on, begin, op, next)
    ensures |tr.states| == |tr.steps| + 1 && |on.states| == |on.steps| + 1
    ensures OpEnables(Last(on), |Last(tr).ops|, op)
  {
    AmidEnables(Last(tr), Last(on), op, next);
  }

  lemma FreeShape(tr: Trace)
    requires Free(tr)
    ensures |tr.states| == |tr.steps| + 1
  {
  }

  /** No worker can be spawned. */
  lemma CallFails(tr: Trace, begin: H.Step) returns (more: Trace)
    requires Free(tr) && CanBegin(tr, begin)
    ensures Called(tr, more, begin, Last(tr).next)
    ensures |more.steps| > 0 && more.steps[|more.steps| - 1].SpawnFails?
  {
    hide Calling, Amid, H.Enabled, Sound;
    var op, k := Begun(Last(tr), begin), |Last(tr).ops|;
    var on := Begins(tr, begin);
    CallingEnables(tr, on, begin, op, Last(tr).next);
    more := Ends(tr, on, begin, op, Last(tr).next, H.SpawnFails(k));
  }

  lemma Spawns(tr: Trace, begin: H.Step) returns (on: Trace)
    requires Free(tr) && CanBegin(tr, begin)
    ensures Calling(tr, on, begin, Begun(Last(tr), begin).(worker := H.Spawned), Last(tr).next)
  {
    hide Calling, Amid, H.Enabled, Sound;
    var op, k := Begun(Last(tr), begin), |Last(tr).ops|;
    on := Begins(tr, begin);
    CallingEnables(tr, on, begin, op, Last(tr).next);
    on := Works(tr, on, begin, op, Last(tr).next, H.Spawn(k));
  }

  /** The worker does not answer in time. */
  lemma CallTimesOut(tr: Trace, begin: H.Step) returns (more: Trace)
    requires Free(tr) && CanBegin(tr, begin)
    ensures Called(tr, more, begin, Last(tr).next)
    ensures |more.steps| > 0 && more.steps[|more.steps| - 1].WaiterAbandons?
  {
    hide Calling, Amid, H.Enabled, Sound;
    var op, k := Begun(Last(tr), begin).(worker := H.Spawned), |Last(tr).ops|;
    var on := Spawns(tr, begin);
    CallingEnables(tr, on, begin, op, Last(tr).next);
    more := Ends(tr, on, begin, op, Last(tr).next, H.WaiterAbandons(k));
  }

  /** The worker leaves its result and the supervisor takes it. */
  lemma Completes(tr: Trace, on: Trace, begin: H.Step, op: H.Op, next: nat) returns (more: Trace)
    requires Calling(tr, on, begin, op, next) && op.worker.Finished?
    ensures Called(tr, more, begin, next) && |more.steps| > 0 && more.steps[|more.steps| - 1].WaiterTakes?
    ensures
      var e := more.states[|more.steps| - 1];
      |Last(tr).ops| < |e.ops| && e.ops[|Last(tr).ops|].output == Some(op.worker.result)
  {
    hide Calling, Amid, H.Enabled, Sound;
    CallingEnables(tr, on, begin, op, next);
    var k := |Last(tr).ops|;
    var published := Works(tr, on, begin, op, next, H.Publish(k));
    var done := Worked(op, H.Publish(k), next);
    CallingEnables(tr, published, begin, done, next);
    more := Ends(tr, published, begin, done, next, H.WaiterTakes(k));
    CallingHolds(tr, published, begin, done, next);
  }

  lemma CallingHolds(tr: Trace, on: Trace, begin: H.Step, op: H.Op, next: nat)
    requires Calling(tr, on, begin, op, next)
    ensures tr.states != [] && on.states != []
    ensures |Last(tr).ops| < |Last(on).ops| && Last(on).ops[|Last(tr).ops|] == op
  {
  }

  /** A start completes, with the next handle or with none. */
  lemma StartCompletes(tr: Trace, begin: H.Step, delivers: bool) returns (more: Trace)
    requires Free(tr) && CanBegin(tr, begin) && begin.BeginStart?
    ensures Called(tr, more, begin, Last(tr).next + if delivers then 1 else 0)
    ensures |more.steps| > 0 && more.steps[|more.steps| - 1].WaiterTakes?
    ensures
      var e := more.states[|more.steps| - 1];
      && |Last(tr).ops| < |e.ops|
      && e.ops[|Last(tr).ops|].output == Some(if delivers then Some(Last(tr).next) else None)
  {
    hide Calling, Amid, H.Enabled, Sound;
    var op, k, next := Begun(Last(tr), begin).(worker := H.Spawned), |Last(tr).ops|, Last(tr).next;
    var on := Spawns(tr, begin);
    CallingEnables(tr, on, begin, op, next);
    var step := H.WorkerStarts(k, delivers);
    on := Works(tr, on, begin, op, next, step);
    more := Completes(tr, on, begin, Worked(op, step, next), next + Delivery(step));
  }

  /** A probe or a stop completes. */
  lemma UseCompletes(tr: Trace, begin: H.Step) returns (more: Trace)
    requires Free(tr) && CanBegin(tr, begin) && begin.BeginUse?
    ensures Called(tr, more, begin, Last(tr).next)
    ensures |more.steps| > 0 && more.steps[|more.steps| - 1].WaiterTakes?
  {
    hide Calling, Amid, Sound;
    var op, k, next := Begun(Last(tr), begin).(worker := H.Spawned), |Last(tr).ops|, Last(tr).next;
    assert begin.kind != H.Starting;
    hide H.Enabled;
    var on := Spawns(tr, begin);
    CallingEnables(tr, on, begin, op, next);
    on := Works(tr, on, begin, op, next, H.WorkerTakes(k));
    op := Worked(op, H.WorkerTakes(k), next);
    CallingEnables(tr, on, begin, op, next);
    on := Works(tr, on, begin, op, next, H.WorkerCalls(k));
    more := Completes(tr, on, begin, Worked(op, H.WorkerCalls(k), next), next);
  }
}
