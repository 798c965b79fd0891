/**
 * The handoff of live handles between the supervisor, which waits with a deadline, and the workers it spawns.
 * Every access to shared state is one atomic step; steps of the waiter and of any number of abandoned workers
 * interleave freely.
 */
module LifecycleHandoff {
  import opened Words

  datatype Kind = Starting | Probing | Stopping

  /** Where a worker is: it takes the handle, calls the module, and publishes or cleans up. */
  datatype Worker =
    | Unspawned
    | Spawned
    | Holding(held: Option<nat>)
    | Finished(result: Option<nat>)
    | Cleaning(result: Option<nat>)
    | Done
    | NeverRan

  /** One bounded operation: the handle cell, the worker, and the shared result slot with its abandoned flag. */
  datatype Op = Op(
    kind: Kind,
    slot: nat,
    cell: Option<nat>,
    worker: Worker,
    output: Option<Option<nat>>,
    abandoned: bool,
    waiterTook: nat,
    cleanupTook: nat
  )

  /** `gone` are the dropped handles and `calls` the handles whose shutdown was called, in order. */
  datatype State = State(
    slots: seq<Option<nat>>,
    ops: seq<Op>,
    current: Option<nat>,
    next: nat,
    gone: set<nat>,
    calls: seq<nat>
  )

  datatype Place = Slot(m: nat) | InCell(k: nat) | InWorker(k: nat) | InOutput(k: nat) | Gone

  function Carried(w: Worker): Option<nat> {
    match w
    case Holding(x) => x
    case Finished(x) => x
    case Cleaning(x) => x
    case _ => None
  }

  function Published(output: Option<Option<nat>>): Option<nat> {
    if output.Some? then output.value else None
  }

  predicate At(s: State, p: Place, h: nat) {
    match p
    case Slot(m) => m < |s.slots| && s.slots[m] == Some(h)
    case InCell(k) => k < |s.ops| && s.ops[k].cell == Some(h)
    case InWorker(k) => k < |s.ops| && Carried(s.ops[k].worker) == Some(h)
    case InOutput(k) => k < |s.ops| && Published(s.ops[k].output) == Some(h)
    case Gone => h in s.gone
  }

  // ---------- Steps ----------

  datatype Step =
    | BeginStart(m: nat)                    // the supervisor starts a module that has no handle
    | BeginUse(kind: Kind, m: nat)          // or takes a handle out of its slot to probe or stop it
    | Spawn(k: nat)
    | SpawnFails(k: nat)                    // the supervisor takes the handle back out of the cell
    | WorkerStarts(k: nat, delivers: bool)  // the factory returns a new handle, or fails
    | WorkerTakes(k: nat)                   // the worker empties the cell
    | WorkerCalls(k: nat)                   // and calls the handle's probe or shutdown
    | Publish(k: nat)                       // under the lock: leave the result, or keep it when abandoned
    | Cleanup(k: nat)                       // retire and drop what an abandoned operation still carries
    | WaiterTakes(k: nat)                   // under the lock: take the result and apply it
    | WaiterAbandons(k: nat)                // under the lock: no result at the deadline

  predicate Enabled(s: State, step: Step) {
    match step
    case BeginStart(m) => s.current.None? && m < |s.slots| && s.slots[m].None?
    case BeginUse(kind, m) => s.current.None? && kind != Starting && m < |s.slots| && s.slots[m].Some?
    case Spawn(k) => k < |s.ops| && s.ops[k].worker == Unspawned
    case SpawnFails(k) => k < |s.ops| && s.ops[k].worker == Unspawned && s.ops[k].slot < |s.slots|
    case WorkerStarts(k, _) => k < |s.ops| && s.ops[k].worker == Spawned && s.ops[k].kind == Starting
    case WorkerTakes(k) => k < |s.ops| && s.ops[k].worker == Spawned && s.ops[k].kind != Starting
    case WorkerCalls(k) => k < |s.ops| && s.ops[k].worker.Holding?
    case Publish(k) => k < |s.ops| && s.ops[k].worker.Finished?
    case Cleanup(k) => k < |s.ops| && s.ops[k].worker.Cleaning?
    case WaiterTakes(k) => k < |s.ops| && s.current == Some(k) && s.ops[k].output.Some? && s.ops[k].slot < |s.slots|
    case WaiterAbandons(k) =>
      k < |s.ops| && s.current == Some(k) && s.ops[k].worker != Unspawned && s.ops[k].output.None?
  }

  function WithOp(s: State, k: nat, op: Op): State
    requires k < |s.ops|
  {
    s.(ops := s.ops[k := op])
  }

  function WithCall(s: State, h: Option<nat>): State {
    if h.Some? then s.(calls := s.calls + [h.value]) else s
  }

  function WithGone(s: State, h: Option<nat>): State {
    if h.Some? then s.(gone := s.gone + {h.value}) else s
  }

  function NewOp(kind: Kind, m: nat, cell: Option<nat>): Op {
    Op(kind, m, cell, Unspawned, None, false, 0, 0)
  }

  function Next(s: State, step: Step): State
    requires Enabled(s, step)
  {
    match step
    case BeginStart(m) =>
      s.(ops := s.ops + [NewOp(Starting, m, None)], current := Some(|s.ops|))
    case BeginUse(kind, m) =>
      s.(slots := s.slots[m := None], ops := s.ops + [NewOp(kind, m, s.slots[m])], current := Some(|s.ops|))
    case Spawn(k) =>
      WithOp(s, k, s.ops[k].(worker := Spawned))
    case SpawnFails(k) =>
      var op := s.ops[k];
      WithOp(s, k, op.(worker := NeverRan, cell := None)).(
        current := None, slots := if op.kind == Starting then s.slots else s.slots[op.slot := op.cell])
    case WorkerStarts(k, delivers) =>
      if delivers then WithOp(s, k, s.ops[k].(worker := Finished(Some(s.next)))).(next := s.next + 1)
      else WithOp(s, k, s.ops[k].(worker := Finished(None)))
    case WorkerTakes(k) =>
      WithOp(s, k, s.ops[k].(worker := Holding(s.ops[k].cell), cell := None))
    case WorkerCalls(k) =>
      var op := s.ops[k];
      var t := WithOp(s, k, op.(worker := Finished(op.worker.held)));
      if op.kind == Stopping then WithCall(t, op.worker.held) else t
    case Publish(k) =>
      var op := s.ops[k];
      if op.abandoned then WithOp(s, k, op.(worker := Cleaning(op.worker.result)))
      else WithOp(s, k, op.(worker := Done, output := Some(op.worker.result)))
    case Cleanup(k) =>
      var op := s.ops[k];
      var t := WithOp(s, k, op.(worker := Done, cleanupTook := op.cleanupTook + 1));
      WithGone(if op.kind == Stopping then t else WithCall(t, op.worker.result), op.worker.result)
    case WaiterTakes(k) =>
      var op := s.ops[k];
      var t := WithOp(s, k, op.(output := None, waiterTook := op.waiterTook + 1)).(current := None);
      if op.kind == Stopping then WithGone(t, op.output.value)
      else t.(slots := s.slots[op.slot := op.output.value])
    case WaiterAbandons(k) =>
      WithOp(s, k, s.ops[k].(abandoned := true)).(current := None)
  }

  predicate Initial(s: State) {
    && s.ops == [] && s.current == None && s.next == 0 && s.gone == {} && s.calls == []
    && forall m :: 0 <= m < |s.slots| ==> s.slots[m] == None
  }

  // ---------- The invariant ----------

  /** An operation that uses a handle carries one through every phase; a start may come back without. */
  predicate Complete(op: Op, x: Option<nat>) {
    op.kind != Starting ==> x.Some?
  }

  predicate OpShape(op: Op, current: bool) {
    && (op.abandoned ==> op.waiterTook == 0 && !current)
    && (!op.abandoned ==> op.cleanupTook == 0)
    && (op.output.Some? ==> op.worker == Done && current && Complete(op, op.output.value))
    && match op.worker
       case Unspawned => current && Waits(op) && (op.cell.Some? <==> op.kind != Starting)
       case Spawned => (current <==> !op.abandoned) && Waits(op) && (op.cell.Some? <==> op.kind != Starting)
       case Holding(x) => (current <==> !op.abandoned) && Waits(op) && op.cell == None && x.Some? && op.kind != Starting
       case Finished(x) => (current <==> !op.abandoned) && Waits(op) && op.cell == None && Complete(op, x)
       case Cleaning(x) => op.abandoned && Waits(op) && op.cell == None && Complete(op, x)
       case Done => op.cell == None && op.waiterTook + op.cleanupTook == (if op.output.Some? then 0 else 1) &&
                    (current <==> op.output.Some?)
       case NeverRan => !current && op.cell == None && op.output == None && op.waiterTook + op.cleanupTook == 0
  }

  predicate Waits(op: Op) {
    op.output == None && op.waiterTook == 0 && op.cleanupTook == 0
  }

  ghost predicate Shapes(s: State) {
    && (s.current.Some? ==> s.current.value < |s.ops|)
    && forall k :: 0 <= k < |s.ops| ==> OpShape(s.ops[k], s.current == Some(k)) && s.ops[k].slot < |s.slots|
  }

  /** While an operation is under way its module's slot is empty, so handing the handle back loses nothing. */
  ghost predicate SlotReserved(s: State) {
    s.current.Some? && s.current.value < |s.ops| && s.ops[s.current.value].slot < |s.slots| ==>
      s.slots[s.ops[s.current.value].slot] == None
  }

  /** Every handle ever delivered is in exactly one place. */
  ghost predicate Owned(s: State) {
    && (forall p, h: nat :: At(s, p, h) ==> h < s.next)
    && (forall h: nat :: h < s.next ==> Somewhere(s, h))
    && (forall p, q, h: nat :: At(s, p, h) && At(s, q, h) ==> p == q)
  }

  ghost predicate Somewhere(s: State, h: nat) {
    exists p :: At(s, p, h)
  }

  /** Places only a handle that was already shut down can be in. */
  predicate AfterCall(s: State, p: Place) {
    match p
    case Slot(_) => false
    case InCell(_) => false
    case InWorker(k) => k < |s.ops| && s.ops[k].kind == Stopping && !s.ops[k].worker.Holding?
    case InOutput(k) => k < |s.ops| && s.ops[k].kind == Stopping
    case Gone => true
  }

  ghost predicate CalledOnce(s: State) {
    && (forall i, j :: 0 <= i < j < |s.calls| ==> s.calls[i] != s.calls[j])
    && (forall h: nat :: h in s.calls ==> h < s.next)
    && (forall p, h: nat :: At(s, p, h) ==> (h in s.calls <==> AfterCall(s, p)))
  }

  ghost predicate Inv(s: State) {
    Shapes(s) && SlotReserved(s) && Owned(s) && CalledOnce(s)
  }

  // ---------- Moves ----------

  /** Exactly handle `h` changes its place, to `target`. */
  ghost predicate Moves(s: State, t: State, h: nat, target: Place) {
    forall p, x: nat :: At(t, p, x) <==> if x == h then p == target else At(s, p, x)
  }

  ghost predicate Stays(s: State, t: State) {
    forall p, x: nat :: At(t, p, x) <==> At(s, p, x)
  }

  lemma MoveKeepsOwned(s: State, t: State, h: nat, target: Place)
    requires Owned(s) && Moves(s, t, h, target) && h <= s.next && t.next == (if h == s.next then h + 1 else s.next)
    ensures Owned(t)
  {
    forall x: nat | x < t.next ensures Somewhere(t, x) {
      if x == h {
        assert At(t, target, x);
      } else {
        assert Somewhere(s, x);
        var p :| At(s, p, x);
        assert At(t, p, x);
      }
    }
  }

  lemma StayKeepsOwned(s: State, t: State)
    requires Owned(s) && Stays(s, t) && t.next == s.next
    ensures Owned(t)
  {
    forall x: nat | x < t.next ensures Somewhere(t, x) {
      assert Somewhere(s, x);
      var p :| At(s, p, x);
      assert At(t, p, x);
    }
  }

  /** The handle a step moves, if any, and where to. */
  function Moved(s: State, step: Step): Option<nat>
    requires Enabled(s, step)
  {
    match step
    case BeginStart(_) => None
    case BeginUse(_, m) => s.slots[m]
    case Spawn(_) => None
    case SpawnFails(k) => if s.ops[k].kind == Starting then None else s.ops[k].cell
    case WorkerStarts(_, delivers) => if delivers then Some(s.next) else None
    case WorkerTakes(k) => s.ops[k].cell
    case WorkerCalls(_) => None
    case Publish(k) => if s.ops[k].abandoned then None else s.ops[k].worker.result
    case Cleanup(k) => s.ops[k].worker.result
    case WaiterTakes(k) => s.ops[k].output.value
    case WaiterAbandons(_) => None
  }

  function Target(s: State, step: Step): Place
    requires Enabled(s, step)
  {
    match step
    case BeginUse(_, _) => InCell(|s.ops|)
    case SpawnFails(k) => Slot(s.ops[k].slot)
    case WorkerStarts(k, _) => InWorker(k)
    case WorkerTakes(k) => InWorker(k)
    case Publish(k) => InOutput(k)
    case WaiterTakes(k) => if s.ops[k].kind == Stopping then Gone else Slot(s.ops[k].slot)
    case _ => Gone
  }

  /** The operation a step belongs to. */
  function Subject(s: State, step: Step): nat
    requires Enabled(s, step)
  {
    match step
    case BeginStart(_) => |s.ops|
    case BeginUse(_, _) => |s.ops|
    case Spawn(k) => k
    case SpawnFails(k) => k
    case WorkerStarts(k, _) => k
    case WorkerTakes(k) => k
    case WorkerCalls(k) => k
    case Publish(k) => k
    case Cleanup(k) => k
    case WaiterTakes(k) => k
    case WaiterAbandons(k) => k
  }

  ghost predicate OthersUntouched(s: State, t: State, k: nat) {
    && k <= |s.ops| <= |t.ops| && k < |t.ops| && |t.ops| <= (if k == |s.ops| then k + 1 else |s.ops|)
    && (forall j :: 0 <= j < |s.ops| && j != k ==>
        t.ops[j] == s.ops[j] && (t.current == Some(j) <==> s.current == Some(j)))
    && |t.slots| == |s.slots|
  }

  lemma StepTouchesOne(s: State, step: Step)
    requires Enabled(s, step) && Shapes(s)
    ensures OthersUntouched(s, Next(s, step), Subject(s, step))
  {
  }

  lemma SubjectSlot(s: State, step: Step)
    requires Enabled(s, step) && Shapes(s)
    ensures
      var t := Next(s, step);
      var k := Subject(s, step);
      k < |t.ops| && t.ops[k].slot < |t.slots| && (t.current.Some? ==> t.current == s.current || t.current == Some(k))
  {
    hide OpShape;
  }

  /** The operation a worker's step belongs to keeps a legal shape. */
  lemma WorkerShape(s: State, step: Step, op: Op)
    requires Enabled(s, step) && WorkersOwn(step) && op == s.ops[Subject(s, step)]
    requires OpShape(op, s.current == Some(Subject(s, step)))
    ensures
      var t := Next(s, step);
      var k := Subject(s, step);
      k < |t.ops| && OpShape(t.ops[k], t.current == Some(k))
  {
  }

  /** So does the one the supervisor begins, fails to spawn or ends. */
  lemma SupervisorShape(s: State, step: Step)
    requires Enabled(s, step) && Shapes(s) && !WorkersOwn(step)
    ensures
      var t := Next(s, step);
      var k := Subject(s, step);
      k < |t.ops| && OpShape(t.ops[k], t.current == Some(k))
  {
    if Subject(s, step) < |s.ops| {
      var op := s.ops[Subject(s, step)];
      assert OpShape(op, s.current == Some(Subject(s, step)));
    }
  }

  predicate WorkersOwn(step: Step) {
    step.WorkerStarts? || step.WorkerTakes? || step.WorkerCalls? || step.Publish? || step.Cleanup?
  }

  lemma SubjectShape(s: State, step: Step)
    requires Enabled(s, step) && Shapes(s)
    ensures
      var t := Next(s, step);
      var k := Subject(s, step);
      k < |t.ops| && OpShape(t.ops[k], t.current == Some(k))
  {
    hide Next, OpShape;
    if WorkersOwn(step) {
      WorkerShape(s, step, s.ops[Subject(s, step)]);
    } else {
      SupervisorShape(s, step);
    }
  }

  lemma StepShapes(s: State, step: Step)
    requires Enabled(s, step) && Shapes(s)
    ensures Shapes(Next(s, step))
  {
    hide Next;
    StepTouchesOne(s, step);
    SubjectShape(s, step);
    SubjectSlot(s, step);
  }

  lemma StepReserves(s: State, step: Step)
    requires Enabled(s, step) && Shapes(s) && SlotReserved(s)
    ensures SlotReserved(Next(s, step))
  {
  }

  /** Where the moved handle comes from. */
  function Source(s: State, step: Step): Place
    requires Enabled(s, step)
  {
    match step
    case BeginUse(_, m) => Slot(m)
    case SpawnFails(k) => InCell(k)
    case WorkerTakes(k) => InCell(k)
    case Publish(k) => InWorker(k)
    case Cleanup(k) => InWorker(k)
    case WaiterTakes(k) => InOutput(k)
    case _ => Gone
  }

  /** A place holds what it held before, except that the moved handle leaves its source and arrives at its target. */
  predicate PlaceEffect(s: State, step: Step, t: State, p: Place, x: nat)
    requires Enabled(s, step)
  {
    var h := Moved(s, step);
    if h.None? then At(t, p, x) <==> At(s, p, x)
    else if p == Target(s, step) then At(t, p, x) <==> x == h.value || (p == Gone && At(s, p, x))
    else if p == Source(s, step) && !step.WorkerStarts? then !At(t, p, x)
    else At(t, p, x) <==> At(s, p, x)
  }

  predicate Inside(p: Place, k: nat) {
    match p
    case InCell(j) => j == k
    case InWorker(j) => j == k
    case InOutput(j) => j == k
    case _ => false
  }

  lemma OutsideEffect(s: State, step: Step, p: Place, x: nat)
    requires Enabled(s, step) && Shapes(s) && SlotReserved(s) && (p.Slot? || p.Gone?)
    ensures PlaceEffect(s, step, Next(s, step), p, x)
  {
  }

  lemma CellEffect(s: State, step: Step, x: nat)
    requires Enabled(s, step) && Shapes(s)
    ensures PlaceEffect(s, step, Next(s, step), InCell(Subject(s, step)), x)
  {
    SubjectBefore(s, step);
  }

  lemma WorkerEffect(s: State, step: Step, x: nat)
    requires Enabled(s, step) && Shapes(s)
    ensures PlaceEffect(s, step, Next(s, step), InWorker(Subject(s, step)), x)
  {
    hide Next, PlaceEffect, Shapes, OpShape, At, Moved, Target, Source;
    SubjectBefore(s, step);
    if WorkersOwn(step) {
      WorkerEffectOfWorker(s, step, x);
    } else {
      WorkerEffectOfSupervisor(s, step, x);
    }
  }

  lemma WorkerEffectOfWorker(s: State, step: Step, x: nat)
    requires Enabled(s, step) && WorkersOwn(step)
    requires OpShape(s.ops[Subject(s, step)], s.current == Some(Subject(s, step)))
    ensures PlaceEffect(s, step, Next(s, step), InWorker(Subject(s, step)), x)
  {
  }

  lemma WorkerEffectOfSupervisor(s: State, step: Step, x: nat)
    requires Enabled(s, step) && !WorkersOwn(step)
    requires var k := Subject(s, step); k < |s.ops| ==> OpShape(s.ops[k], s.current == Some(k))
    ensures PlaceEffect(s, step, Next(s, step), InWorker(Subject(s, step)), x)
  {
  }

  lemma OutputEffect(s: State, step: Step, x: nat)
    requires Enabled(s, step) && Shapes(s)
    ensures PlaceEffect(s, step, Next(s, step), InOutput(Subject(s, step)), x)
  {
    SubjectBefore(s, step);
  }

  lemma SubjectBefore(s: State, step: Step)
    requires Enabled(s, step) && Shapes(s)
    ensures var k := Subject(s, step); k < |s.ops| ==> OpShape(s.ops[k], s.current == Some(k))
  {
  }

  lemma InsideEffect(s: State, step: Step, p: Place, x: nat)
    requires Enabled(s, step) && Shapes(s) && Inside(p, Subject(s, step))
    ensures PlaceEffect(s, step, Next(s, step), p, x)
  {
    hide Next, Moved, Target, Source, Subject, PlaceEffect, Shapes;
    match p
    case InCell(_) => CellEffect(s, step, x);
    case InWorker(_) => WorkerEffect(s, step, x);
    case InOutput(_) => OutputEffect(s, step, x);
  }

  lemma EndsAreSubject(s: State, step: Step)
    requires Enabled(s, step) && Moved(s, step).Some?
    ensures Target(s, step).Slot? || Target(s, step).Gone? || Inside(Target(s, step), Subject(s, step))
    ensures Source(s, step).Slot? || Source(s, step).Gone? || Inside(Source(s, step), Subject(s, step))
  {
  }

  lemma ElsewhereSame(s: State, t: State, k: nat, p: Place, x: nat)
    requires OthersUntouched(s, t, k) && !p.Slot? && !p.Gone? && !Inside(p, k)
    ensures At(t, p, x) <==> At(s, p, x)
  {
  }

  lemma ElsewhereEffect(s: State, step: Step, p: Place, x: nat)
    requires Enabled(s, step) && Shapes(s) && !p.Slot? && !p.Gone? && !Inside(p, Subject(s, step))
    ensures PlaceEffect(s, step, Next(s, step), p, x)
  {
    hide Next, Moved, Target, Source, Subject, At, OthersUntouched, Shapes, Enabled;
    StepTouchesOne(s, step);
    ElsewhereSame(s, Next(s, step), Subject(s, step), p, x);
    if Moved(s, step).Some? {
      EndsAreSubject(s, step);
    }
  }

  lemma StepEffect(s: State, step: Step, p: Place, x: nat)
    requires Enabled(s, step) && Shapes(s) && SlotReserved(s)
    ensures PlaceEffect(s, step, Next(s, step), p, x)
  {
    hide Next, Moved, Target, Source, Subject, PlaceEffect, Shapes, SlotReserved;
    if p.Slot? || p.Gone? {
      OutsideEffect(s, step, p, x);
    } else if Inside(p, Subject(s, step)) {
      InsideEffect(s, step, p, x);
    } else {
      ElsewhereEffect(s, step, p, x);
    }
  }

  lemma MovedFromSource(s: State, step: Step)
    requires Enabled(s, step) && Shapes(s) && Moved(s, step).Some?
    ensures if step.WorkerStarts? then Moved(s, step) == Some(s.next) else At(s, Source(s, step), Moved(s, step).value)
  {
  }

  lemma NextHandle(s: State, step: Step)
    requires Enabled(s, step)
    ensures Next(s, step).next == if step.WorkerStarts? && step.delivers then s.next + 1 else s.next
  {
  }

  /** The moved handle finds its target empty. */
  lemma TargetEmpty(s: State, step: Step, x: nat)
    requires Enabled(s, step) && Shapes(s) && SlotReserved(s) && Moved(s, step).Some?
    ensures Target(s, step) != Gone ==> !At(s, Target(s, step), x)
  {
    if Subject(s, step) < |s.ops| {
      assert OpShape(s.ops[Subject(s, step)], s.current == Some(Subject(s, step)));
    }
  }

  lemma OneAtATime(s: State, p: Place, x: nat, y: nat)
    requires At(s, p, x) && At(s, p, y) && p != Gone
    ensures x == y
  {
  }

  lemma SourceIsNotGone(s: State, step: Step)
    requires Enabled(s, step) && Moved(s, step).Some? && !step.WorkerStarts?
    ensures Source(s, step) != Gone && Source(s, step) != Target(s, step)
  {
  }

  lemma MovedEffect(s: State, step: Step, p: Place, x: nat)
    requires Enabled(s, step) && Inv(s) && Moved(s, step).Some?
    ensures At(Next(s, step), p, x) <==> if x == Moved(s, step).value then p == Target(s, step) else At(s, p, x)
  {
    hide Next, Moved, Target, Source, Shapes, SlotReserved, CalledOnce, At;
    StepEffect(s, step, p, x);
    TargetEmpty(s, step, x);
    MovedFromSource(s, step);
    if !step.WorkerStarts? {
      SourceIsNotGone(s, step);
      if p == Source(s, step) && At(s, p, x) {
        OneAtATime(s, p, x, Moved(s, step).value);
      }
    }
  }

  /** A step moves at most one handle, or delivers a new one, and disturbs no other. */
  lemma StepMoves(s: State, step: Step)
    requires Enabled(s, step) && Inv(s)
    ensures Moved(s, step).None? ==> Stays(s, Next(s, step))
    ensures Moved(s, step).Some? ==> Moves(s, Next(s, step), Moved(s, step).value, Target(s, step))
  {
    hide Next, Moved, Target, Source, Inv, At;
    if Moved(s, step).Some? {
      forall p, x: nat
        ensures At(Next(s, step), p, x) <==> if x == Moved(s, step).value then p == Target(s, step) else At(s, p, x)
      {
        MovedEffect(s, step, p, x);
      }
    } else {
      forall p, x: nat ensures At(Next(s, step), p, x) <==> At(s, p, x) {
        StayEffect(s, step, p, x);
      }
    }
  }

  lemma StayEffect(s: State, step: Step, p: Place, x: nat)
    requires Enabled(s, step) && Inv(s) && Moved(s, step).None?
    ensures At(Next(s, step), p, x) <==> At(s, p, x)
  {
    hide Next, Moved, At;
    StepEffect(s, step, p, x);
  }

  lemma StepOwns(s: State, step: Step)
    requires Enabled(s, step) && Inv(s)
    ensures Owned(Next(s, step))
  {
    hide Next, Target, Moves, Stays, Owned;
    StepMoves(s, step);
    NextHandle(s, step);
    if Moved(s, step).Some? {
      HandleKnown(s, step);
      MoveKeepsOwned(s, Next(s, step), Moved(s, step).value, Target(s, step));
    } else {
      StayKeepsOwned(s, Next(s, step));
    }
  }

  lemma HandleKnown(s: State, step: Step)
    requires Enabled(s, step) && Inv(s) && Moved(s, step).Some?
    ensures if step.WorkerStarts? then Moved(s, step).value == s.next else Moved(s, step).value < s.next
  {
    MovedFromSource(s, step);
  }

  // ---------- Shutdown calls ----------

  /** The handle whose shutdown a step calls, if any. */
  function CalledBy(s: State, step: Step): Option<nat>
    requires Enabled(s, step)
  {
    match step
    case WorkerCalls(k) => if s.ops[k].kind == Stopping then s.ops[k].worker.held else None
    case Cleanup(k) => if s.ops[k].kind == Stopping then None else s.ops[k].worker.result
    case _ => None
  }

  lemma StepCalls(s: State, step: Step)
    requires Enabled(s, step)
    ensures Next(s, step).calls == s.calls + if CalledBy(s, step).Some? then [CalledBy(s, step).value] else []
  {
    assert s.calls + [] == s.calls;
  }

  /** A step that calls shutdown finds the handle in a worker, before any call. */
  lemma CalledWasUncalled(s: State, step: Step)
    requires Enabled(s, step) && Inv(s) && CalledBy(s, step).Some?
    ensures CalledBy(s, step).value !in s.calls && CalledBy(s, step).value < s.next
  {
    var h := CalledBy(s, step).value;
    var p := InWorker(Subject(s, step));
    assert At(s, p, h) && !AfterCall(s, p);
  }

  lemma MovedPastCall(s: State, step: Step)
    requires Enabled(s, step) && Shapes(s) && Moved(s, step).Some?
    ensures AfterCall(Next(s, step), Target(s, step)) <==>
            (!step.WorkerStarts? && AfterCall(s, Source(s, step))) || CalledBy(s, step) == Moved(s, step)
  {
  }

  lemma CallerHolds(s: State, step: Step)
    requires Enabled(s, step) && CalledBy(s, step).Some?
    ensures At(s, InWorker(Subject(s, step)), CalledBy(s, step).value)
    ensures step.WorkerCalls? || CalledBy(s, step) == Moved(s, step)
  {
  }

  lemma CalledMakesPast(s: State, step: Step)
    requires Enabled(s, step) && CalledBy(s, step).Some? && step.WorkerCalls?
    ensures AfterCall(Next(s, step), InWorker(Subject(s, step)))
  {
  }

  lemma UncalledStaysPut(s: State, step: Step, p: Place)
    requires Enabled(s, step) && Shapes(s)
    requires !(step.WorkerCalls? && CalledBy(s, step).Some? && p == InWorker(Subject(s, step)))
    requires exists x: nat :: At(s, p, x) && Moved(s, step) != Some(x)
    ensures AfterCall(Next(s, step), p) <==> AfterCall(s, p)
  {
    StepTouchesOne(s, step);
  }

  lemma UnmovedPastCall(s: State, step: Step, p: Place, h: nat)
    requires Enabled(s, step) && Inv(s) && At(s, p, h) && Moved(s, step) != Some(h)
    ensures AfterCall(Next(s, step), p) <==> AfterCall(s, p) || CalledBy(s, step) == Some(h)
  {
    hide Next, Moved, CalledBy, AfterCall, Subject, Shapes, SlotReserved, CalledOnce, At;
    var q := InWorker(Subject(s, step));
    if CalledBy(s, step).Some? {
      CallerHolds(s, step);
      if step.WorkerCalls? && p == q {
        OneAtATime(s, p, h, CalledBy(s, step).value);
        CalledMakesPast(s, step);
      } else {
        UncalledStaysPut(s, step, p);
      }
    } else {
      UncalledStaysPut(s, step, p);
    }
  }

  /** After the step, a handle is past its call exactly when it was before or this step called it. */
  lemma PastCall(s: State, step: Step, p: Place, h: nat)
    requires Enabled(s, step) && Inv(s) && At(Next(s, step), p, h)
    ensures AfterCall(Next(s, step), p) <==> h in s.calls || CalledBy(s, step) == Some(h)
  {
    hide Next, Moved, CalledBy, AfterCall, Subject, Shapes, SlotReserved, At, Target, Source;
    if Moved(s, step).Some? {
      MovedEffect(s, step, p, h);
      MovedPastCall(s, step);
      MovedFromSource(s, step);
    } else {
      StayEffect(s, step, p, h);
    }
    if Moved(s, step) != Some(h) {
      UnmovedPastCall(s, step, p, h);
    }
  }

  lemma StepCallsOnce(s: State, step: Step)
    requires Enabled(s, step) && Inv(s)
    ensures CalledOnce(Next(s, step))
  {
    hide Next;
    StepCalls(s, step);
    NextHandle(s, step);
    if CalledBy(s, step).Some? {
      CalledWasUncalled(s, step);
    }
    forall p, h: nat | At(Next(s, step), p, h)
      ensures AfterCall(Next(s, step), p) <==> h in s.calls || CalledBy(s, step) == Some(h)
    {
      PastCall(s, step, p, h);
    }
  }

  // ---------- Every interleaving ----------

  lemma StepKeeps(s: State, step: Step)
    requires Enabled(s, step) && Inv(s)
    ensures Inv(Next(s, step))
  {
    hide Next, Shapes, SlotReserved, Owned, CalledOnce;
    StepShapes(s, step);
    StepReserves(s, step);
    StepOwns(s, step);
    StepCallsOnce(s, step);
  }

  ghost predicate StepAt(states: seq<State>, steps: seq<Step>, k: nat)
    requires |states| == |steps| + 1 && k < |steps|
  {
    Enabled(states[k], steps[k]) && states[k + 1] == Next(states[k], steps[k])
  }

  ghost predicate Run(states: seq<State>, steps: seq<Step>) {
    && |states| == |steps| + 1
    && Initial(states[0])
    && forall k :: 0 <= k < |steps| ==> StepAt(states, steps, k)
  }

  lemma InitialHolds(s: State)
    requires Initial(s)
    ensures Inv(s)
  {
  }

  lemma {:induction false} Reachable(states: seq<State>, steps: seq<Step>, k: nat)
    requires Run(states, steps) && k < |states|
    ensures Inv(states[k])
  {
    hide Inv, Next, Enabled, Initial;
    if k == 0 {
      InitialHolds(states[0]);
    } else {
      Reachable(states, steps, k - 1);
      assert StepAt(states, steps, k - 1);
      StepKeeps(states[k - 1], steps[k - 1]);
    }
  }

  ghost predicate SoleOwner(s: State, h: nat) {
    exists p :: At(s, p, h) && forall q :: At(s, q, h) ==> q == p
  }

  /**
   * In every interleaving each delivered handle has exactly one owner: a slot, a cell, a worker, a result, or nobody
   * any more.
   */
  lemma ExactlyOneOwner(states: seq<State>, steps: seq<Step>, k: nat, h: nat)
    requires Run(states, steps) && k < |states|
    ensures h < states[k].next <==> SoleOwner(states[k], h)
  {
    hide Next, Shapes, SlotReserved, CalledOnce, Run, At;
    Reachable(states, steps, k);
    if h < states[k].next {
      assert Somewhere(states[k], h);
    }
  }

  /** A worker always finds the handle it was spawned for, and a probe or a stop never completes without one. */
  lemma CompletedAlwaysCarriesTheHandle(states: seq<State>, steps: seq<Step>, k: nat, j: nat)
    requires Run(states, steps) && k < |states| && j < |states[k].ops| && states[k].ops[j].kind != Starting
    ensures
      var op := states[k].ops[j];
      && (op.worker == Spawned ==> op.cell.Some?)
      && (op.worker.Holding? ==> op.worker.held.Some?)
      && (op.worker.Finished? || op.worker.Cleaning? ==> op.worker.result.Some?)
      && (op.output.Some? ==> op.output.value.Some?)
  {
    hide Next, SlotReserved, Owned, CalledOnce, Run;
    Reachable(states, steps, k);
    assert OpShape(states[k].ops[j], states[k].current == Some(j));
  }

  /**
   * A result goes to the waiter or to the cleanup, never to both and never twice; a finished operation had exactly one
   * taker.
   */
  lemma ResultTakenOnce(states: seq<State>, steps: seq<Step>, k: nat, j: nat)
    requires Run(states, steps) && k < |states| && j < |states[k].ops|
    ensures
      var op := states[k].ops[j];
      && op.waiterTook + op.cleanupTook <= 1
      && (op.worker == Done ==> op.waiterTook + op.cleanupTook == if op.output.Some? then 0 else 1)
      && (op.cleanupTook == 1 ==> op.abandoned) && (op.waiterTook == 1 ==> !op.abandoned)
  {
    hide Next, SlotReserved, Owned, CalledOnce, Run;
    Reachable(states, steps, k);
  }

  /** Shutdown is called at most once per handle; a dropped handle was shut down, one in a slot was not. */
  lemma ShutdownCalledOnce(states: seq<State>, steps: seq<Step>, k: nat)
    requires Run(states, steps) && k < |states|
    ensures
      var s := states[k];
      && (forall i, j :: 0 <= i < j < |s.calls| ==> s.calls[i] != s.calls[j])
      && (forall h :: h in s.gone ==> h in s.calls)
      && (forall m :: 0 <= m < |s.slots| && s.slots[m].Some? ==> s.slots[m].value !in s.calls)
  {
    hide Next, Shapes, SlotReserved, Owned, Run;
    Reachable(states, steps, k);
    var s := states[k];
    forall h: nat | h in s.gone ensures h in s.calls {
      assert At(s, Gone, h);
    }
    forall m: nat | m < |s.slots| && s.slots[m].Some? ensures s.slots[m].value !in s.calls {
      assert At(s, Slot(m), s.slots[m].value);
    }
  }

  // ---------- Quiescence ----------

  predicate Idle(op: Op) {
    op.worker == Done || op.worker == NeverRan
  }

  predicate Quiescent(s: State) {
    s.current == None && forall k :: 0 <= k < |s.ops| ==> Idle(s.ops[k])
  }

  /**
   * Once nothing is under way no handle is lost: it sits in its slot untouched, or it was shut down exactly once and
   * dropped.
   */
  lemma NothingLeaks(states: seq<State>, steps: seq<Step>, k: nat, h: nat)
    requires Run(states, steps) && k < |states| && Quiescent(states[k]) && h < states[k].next
    ensures h in states[k].gone || exists m :: 0 <= m < |states[k].slots| && states[k].slots[m] == Some(h)
    ensures h in states[k].gone <==> h in states[k].calls
  {
    hide Next, SlotReserved, Run;
    Reachable(states, steps, k);
    var s := states[k];
    assert Somewhere(s, h);
    var p :| At(s, p, h);
    OwnerWhenIdle(s, p, h);
    assert h in s.calls <==> AfterCall(s, p);
    assert At(s, Gone, h) <==> h in s.gone;
  }

  lemma OwnerWhenIdle(s: State, p: Place, h: nat)
    requires Shapes(s) && Quiescent(s) && At(s, p, h)
    ensures p.Slot? || p.Gone?
  {
  }

  predicate BeginsWork(step: Step) {
    step.BeginStart? || step.BeginUse?
  }

  /** Nothing is ever stuck: unless all is quiet, some party can take its next step. */
  lemma SomeoneCanMove(s: State)
    requires Inv(s) && !Quiescent(s)
    ensures exists step :: Enabled(s, step) && !BeginsWork(step)
  {
    if k :| 0 <= k < |s.ops| && !Idle(s.ops[k]) {
      assert OpShape(s.ops[k], s.current == Some(k));
      var next := WorkerStep(s, k);
      assert Enabled(s, next);
    } else {
      var k := s.current.value;
      assert OpShape(s.ops[k], true);
      var next := if s.ops[k].output.Some? then WaiterTakes(k) else WaiterAbandons(k);
      assert Enabled(s, next);
    }
  }

  function WorkerStep(s: State, k: nat): Step
    requires k < |s.ops|
  {
    match s.ops[k].worker
    case Unspawned => Spawn(k)
    case Spawned => if s.ops[k].kind == Starting then WorkerStarts(k, false) else WorkerTakes(k)
    case Holding(_) => WorkerCalls(k)
    case Finished(_) => Publish(k)
    case _ => Cleanup(k)
  }

  function Remaining(w: Worker): nat {
    match w
    case Unspawned => 5
    case Spawned => 4
    case Holding(_) => 3
    case Finished(_) => 2
    case Cleaning(_) => 1
    case _ => 0
  }

  function Work(ops: seq<Op>): nat {
    if ops == [] then 0 else Work(ops[..|ops| - 1]) + Remaining(ops[|ops| - 1].worker)
  }

  lemma {:induction false} WorkUpdate(ops: seq<Op>, k: nat, op: Op)
    requires k < |ops|
    ensures Work(ops[k := op]) == Work(ops) - Remaining(ops[k].worker) + Remaining(op.worker)
  {
    var last := |ops| - 1;
    if k < last {
      WorkUpdate(ops[..last], k, op);
      assert ops[k := op][..last] == ops[..last][k := op];
    } else {
      assert ops[k := op][..last] == ops[..last];
    }
  }

  function Measure(s: State): nat {
    Work(s.ops) + if s.current.Some? then 1 else 0
  }

  lemma OneOpChanges(s: State, step: Step)
    requires Enabled(s, step) && !BeginsWork(step)
    ensures
      var k := Subject(s, step);
      var t := Next(s, step);
      && |t.ops| == |s.ops| && t.ops == s.ops[k := t.ops[k]]
      && Remaining(t.ops[k].worker) <= Remaining(s.ops[k].worker)
      && (t.current.Some? ==> s.current.Some?)
      && (Remaining(t.ops[k].worker) < Remaining(s.ops[k].worker) || (s.current.Some? && t.current.None?))
  {
  }

  /** Without new operations every step brings quiescence nearer, so the supervisor and all workers come to rest. */
  lemma EveryStepMakesProgress(s: State, step: Step)
    requires Enabled(s, step) && !BeginsWork(step)
    ensures Measure(Next(s, step)) < Measure(s)
  {
    hide Next;
    OneOpChanges(s, step);
    WorkUpdate(s.ops, Subject(s, step), Next(s, step).ops[Subject(s, step)]);
  }

  // ---------- One operation from beginning to end ----------

  /** What an operation carries, wherever it is. */
  function Load(op: Op): Option<nat> {
    if op.cell.Some? then op.cell
    else if Carried(op.worker).Some? then Carried(op.worker)
    else Published(op.output)
  }

  /** While the supervisor waits for an operation, whatever workers do leaves its load and every slot alone. */
  lemma WaitingChangesNothing(s: State, step: Step, k: nat)
    requires Enabled(s, step) && Shapes(s) && s.current == Some(k) && Next(s, step).current == Some(k)
    ensures
      var t := Next(s, step);
      && t.slots == s.slots && k < |s.ops| && k < |t.ops|
      && t.ops[k].kind == s.ops[k].kind && t.ops[k].slot == s.ops[k].slot
      && (s.ops[k].kind != Starting ==> Load(t.ops[k]) == Load(s.ops[k]))
  {
    assert OpShape(s.ops[k], true);
  }

  /** While the supervisor waits for nothing, abandoned workers leave every slot alone. */
  lemma RestingChangesNothing(s: State, step: Step)
    requires Enabled(s, step) && Shapes(s) && s.current == None && Next(s, step).current == None
    ensures Next(s, step).slots == s.slots
  {
    SubjectBefore(s, step);
  }

  /** Waiting ends in one of three ways, and each has its own effect on the module's slot. */
  lemma WaitingEnds(s: State, step: Step, k: nat)
    requires Enabled(s, step) && Shapes(s) && s.current == Some(k) && Next(s, step).current != Some(k)
    ensures step == SpawnFails(k) || step == WaiterTakes(k) || step == WaiterAbandons(k)
    ensures k < |s.ops| && s.ops[k].slot < |s.slots|
    ensures
      var op := s.ops[k];
      Next(s, step).slots ==
        if step.SpawnFails? && op.kind != Starting then s.slots[op.slot := Load(op)]
        else if step.WaiterTakes? && op.kind != Stopping then s.slots[op.slot := op.output.value]
        else s.slots
    ensures step.WaiterTakes? && s.ops[k].kind != Starting ==> s.ops[k].output.value == Load(s.ops[k])
  {
    assert OpShape(s.ops[k], true);
  }

  /** Step `b` begins operation `k` on module `m` and the supervisor still waits for it in state `e`. */
  ghost predicate WaitsFrom(states: seq<State>, steps: seq<Step>, b: nat, e: nat, m: nat) {
    && Run(states, steps) && b < e < |states|
    && (steps[b] == BeginStart(m) || (steps[b].BeginUse? && steps[b].m == m))
    && forall j :: b < j <= e ==> states[j].current == Some(|states[b].ops|)
  }

  lemma {:induction false} CarriedThroughout(states: seq<State>, steps: seq<Step>, b: nat, e: nat, m: nat)
    requires WaitsFrom(states, steps, b, e, m)
    ensures
      var k := |states[b].ops|;
      && m < |states[b].slots| && k < |states[e].ops|
      && states[e].slots == states[b].slots[m := None]
      && states[e].ops[k].slot == m
      && states[e].ops[k].kind == (if steps[b].BeginUse? then steps[b].kind else Starting)
      && (steps[b].BeginUse? ==> Load(states[e].ops[k]) == states[b].slots[m])
    decreases e
  {
    hide Inv;
    assert StepAt(states, steps, b);
    if e > b + 1 {
      CarriedThroughout(states, steps, b, e - 1, m);
      assert StepAt(states, steps, e - 1);
      Reachable(states, steps, e - 1);
      ReachableShapes(states[e - 1]);
      WaitingChangesNothing(states[e - 1], steps[e - 1], |states[b].ops|);
    } else {
      assert states[b].slots[m := None] == states[e].slots;
    }
  }

  lemma ReachableShapes(s: State)
    requires Inv(s)
    ensures Shapes(s)
  {
  }

  /**
   * A probe or a stop, from the moment the handle leaves its slot to the moment the supervisor goes on: the handle is
   * back only if no worker could be spawned or a probe completed, and no other slot changed in between.
   */
  lemma UseEnds(states: seq<State>, steps: seq<Step>, b: nat, e: nat, m: nat)
    requires WaitsFrom(states, steps, b, e, m) && steps[b].BeginUse?
    requires e < |steps| && states[e + 1].current != states[e].current
    ensures steps[e].SpawnFails? || steps[e].WaiterTakes? || steps[e].WaiterAbandons?
    ensures m < |states[b].slots|
    ensures
      var back := steps[e].SpawnFails? || (steps[e].WaiterTakes? && steps[b].kind == Probing);
      states[e + 1].slots == states[b].slots[m := if back then states[b].slots[m] else None]
  {
    hide Inv, Next, Shapes;
    CarriedThroughout(states, steps, b, e, m);
    assert StepAt(states, steps, b) && StepAt(states, steps, e);
    Reachable(states, steps, e);
    ReachableShapes(states[e]);
    WaitingEnds(states[e], steps[e], |states[b].ops|);
  }

  /**
   * A start ends with the delivered handle in its slot when the supervisor took the result, and with none otherwise.
   */
  lemma StartEnds(states: seq<State>, steps: seq<Step>, b: nat, e: nat, m: nat)
    requires WaitsFrom(states, steps, b, e, m) && steps[b].BeginStart?
    requires e < |steps| && states[e + 1].current != states[e].current
    ensures steps[e].SpawnFails? || steps[e].WaiterTakes? || steps[e].WaiterAbandons?
    ensures m < |states[b].slots| && |states[b].ops| < |states[e].ops|
    ensures steps[e].WaiterTakes? ==> states[e].ops[|states[b].ops|].output.Some?
    ensures
      states[e + 1].slots ==
        states[b].slots[m := if steps[e].WaiterTakes? then states[e].ops[|states[b].ops|].output.value else None]
  {
    hide Inv, Next, Shapes;
    CarriedThroughout(states, steps, b, e, m);
    assert StepAt(states, steps, b) && StepAt(states, steps, e);
    Reachable(states, steps, e);
    ReachableShapes(states[e]);
    WaitingEnds(states[e], steps[e], |states[b].ops|);
  }
}
