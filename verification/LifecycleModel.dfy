/** Managed modules, what one operation does to one of them, and the phases a module's log goes through. */
module LifecycleModel {
  import opened Words
  import opened Capability
  import opened LifecycleGraph

  const MAX_MODULES: nat := 256
  const MAX_CAPABILITIES: nat := 128
  const MAX_SECRET_CAPABILITIES: nat := 64

  datatype AbiVersion = AbiVersion(rustContract: ModuleVersion, componentWorldMajor: u16)

  const CORE_ABI_VERSION: AbiVersion := AbiVersion(ModuleVersion(1, 0, 0), 1)

  datatype ModuleState = Discovered | Validated | Starting | Ready | Degraded | Unavailable | Stopping | Stopped

  datatype HealthStatus = HealthLive | HealthReady | HealthDegraded | HealthUnavailable

  datatype HealthReason = CoreStarting | CoreReady | DependencyDegraded | DependencyUnavailable

  /** The aggregate report: overall status and reason, and the modules reported on. */
  datatype HealthReport = HealthReport(status: HealthStatus, reason: HealthReason, reported: seq<nat>)

  const MAX_MODULE_REPORTS: nat := 256

  /** The identity of a live handle. */
  type Handle = nat

  /** What a bounded worker reports: its result, a missed deadline, or that it could not be spawned. */
  datatype Bounded<+T> = Completed(value: T) | TimedOut | NotSpawned

  type ValidationOutcome = Bounded<Result<(), CoreErrorCode>>
  type StartOutcome = Bounded<Result<Handle, CoreErrorCode>>
  type HealthOutcome = Bounded<Option<Result<HealthStatus, CoreErrorCode>>>
  type StopOutcome = Bounded<Option<Result<(), CoreErrorCode>>>

  datatype ModuleDescriptor = ModuleDescriptor(
    id: Text,
    abiVersion: AbiVersion,
    schemaId: Text,
    provided: seq<CapabilityProvider>,
    required: seq<CapabilityRequirement>,
    requiredSecrets: seq<CapabilityRequirement>,
    shutdownPriority: u16
  )
  {
    /** What the descriptor's constructor enforces. */
    ghost predicate Valid() {
      && |provided| <= MAX_CAPABILITIES && |required| <= MAX_CAPABILITIES
        && |requiredSecrets| <= MAX_SECRET_CAPABILITIES
      && forall p :: p in provided ==> p.moduleId == id
    }

    function Requirements(): seq<CapabilityRequirement> {
      required + requiredSecrets
    }
  }

  datatype ManagedModule = ManagedModule(
    descriptor: ModuleDescriptor,
    configurationSchema: Text,
    resolution: Option<seq<CapabilityBinding>>,
    handle: Option<Handle>,
    cancelled: bool,
    state: ModuleState,
    generation: u64,
    error: Option<CoreErrorCode>
  )

  predicate Participates(state: ModuleState) {
    state in {Discovered, Validated, Starting, Ready, Degraded}
  }

  predicate IsLive(state: ModuleState) {
    state in {Starting, Ready, Degraded}
  }

  // ---------- One operation on one module ----------

  function MarkUnavailable(m: ManagedModule, code: CoreErrorCode): ManagedModule {
    m.(cancelled := true, state := ModuleState.Unavailable, error := Some(code))
  }

  function NewModule(d: ModuleDescriptor, schema: Text): ManagedModule {
    var m := ManagedModule(d, schema, None, None, false, Discovered, 0, None);
    if d.abiVersion != CORE_ABI_VERSION then MarkUnavailable(m, Conflict)
    else if schema != d.schemaId then MarkUnavailable(m, Conflict)
    else m
  }

  function ValidateModule(m: ManagedModule, outcome: ValidationOutcome): ManagedModule {
    if m.resolution.None? then MarkUnavailable(m, CoreErrorCode.Unavailable)
    else match outcome
         case Completed(Ok(_)) => m.(state := Validated, error := None)
         case Completed(Err(e)) => MarkUnavailable(m, e)
         case TimedOut => MarkUnavailable(m, CoreErrorCode.DeadlineExceeded)
         case NotSpawned => MarkUnavailable(m, CoreErrorCode.Unavailable)
  }

  /** Whether the factory may be started, and otherwise why not. */
  function PrepareStart(m: ManagedModule): Result<u64, CoreErrorCode> {
    if m.resolution.None? then Err(CoreErrorCode.Unavailable)
    else match CheckedAdd(m.generation, 1)
         case None => Err(ResourceExhausted)
         case Some(g) => Ok(g)
  }

  function ApplyStart(m: ManagedModule, generation: u64, outcome: StartOutcome): ManagedModule {
    match outcome
    case Completed(Ok(h)) => m.(handle := Some(h), generation := generation, state := Ready, error := None)
    case Completed(Err(e)) => MarkUnavailable(m, e)
    case TimedOut => MarkUnavailable(m, CoreErrorCode.DeadlineExceeded)
    case NotSpawned => MarkUnavailable(m, CoreErrorCode.Unavailable)
  }

  function StartModule(m: ManagedModule, outcome: StartOutcome): ManagedModule {
    match PrepareStart(m)
    case Err(e) => MarkUnavailable(m, e)
    case Ok(g) => ApplyStart(m.(state := Starting), g, outcome)
  }

  predicate Succeeds(outcome: StartOutcome) {
    outcome.Completed? && outcome.value.Ok?
  }

  function StateFromHealth(status: HealthStatus): ModuleState {
    match status
    case HealthLive => Starting
    case HealthReady => Ready
    case HealthDegraded => Degraded
    case HealthUnavailable => ModuleState.Unavailable
  }

  function Severity(status: HealthStatus): nat {
    match status
    case HealthReady => 0
    case HealthLive => 1
    case HealthDegraded => 2
    case HealthUnavailable => 3
  }

  function ReasonForStatus(status: HealthStatus): HealthReason {
    match status
    case HealthLive => CoreStarting
    case HealthReady => CoreReady
    case HealthDegraded => DependencyDegraded
    case HealthUnavailable => DependencyUnavailable
  }

  /** What a probe is reported as: its answer, or unavailable when there is none. */
  function ReportedStatus(probe: HealthOutcome): HealthStatus {
    match probe
    case Completed(Some(Ok(status))) => status
    case _ => HealthUnavailable
  }

  /** The shutdown operation takes the handle; only a worker that never ran gives it back. */
  function AfterShutdownOperation(m: ManagedModule, stop: StopOutcome): ManagedModule {
    if m.handle.None? then m
    else if stop.NotSpawned? then m.(cancelled := true)
    else m.(handle := None, cancelled := true)
  }

  function RetireUnavailable(m: ManagedModule, code: CoreErrorCode, stop: StopOutcome): ManagedModule {
    AfterShutdownOperation(MarkUnavailable(m, code), stop)
  }

  function RefreshHealth(m: ManagedModule, probe: HealthOutcome, stop: StopOutcome): ManagedModule {
    if m.handle.None? then m
    else match probe
         case Completed(Some(Ok(HealthUnavailable))) => RetireUnavailable(m, CoreErrorCode.Unavailable, stop)
         case Completed(Some(Ok(status))) => m.(state := StateFromHealth(status), error := None)
         case Completed(Some(Err(e))) => RetireUnavailable(m, e, stop)
         case Completed(None) => RetireUnavailable(m.(handle := None), Internal, stop)
         case TimedOut => RetireUnavailable(m.(handle := None), CoreErrorCode.DeadlineExceeded, stop)
         case NotSpawned => RetireUnavailable(m, CoreErrorCode.Unavailable, stop)
  }

  function ShutdownModule(m: ManagedModule, stop: StopOutcome): ManagedModule {
    if m.handle.None? then m
    else
      var after := AfterShutdownOperation(m.(state := Stopping), stop);
      match stop
      case Completed(Some(Ok(_))) => after.(state := Stopped, error := None)
      case Completed(Some(Err(e))) => MarkUnavailable(after, e)
      case Completed(None) => MarkUnavailable(after, CoreErrorCode.Unavailable)
      case TimedOut => MarkUnavailable(after, CoreErrorCode.DeadlineExceeded)
      case NotSpawned => MarkUnavailable(after, CoreErrorCode.Unavailable)
  }

  // ---------- Looking up dependencies ----------

  ghost predicate DistinctIds(ms: seq<ManagedModule>) {
    forall i, j :: 0 <= i < j < |ms| ==> ms[i].descriptor.id != ms[j].descriptor.id
  }

  ghost predicate Names(ms: seq<ManagedModule>, id: Text, i: nat) {
    && i < |ms| && ms[i].descriptor.id == id
    && forall j :: 0 <= j < i ==> ms[j].descriptor.id != id
  }

  /** The first module with that identity. */
  function ModuleIndex(ms: seq<ManagedModule>, id: Text): (r: Option<nat>)
    ensures r.Some? ==> Names(ms, id, r.value)
    ensures r.None? ==> forall j :: 0 <= j < |ms| ==> ms[j].descriptor.id != id
  {
    if ms == [] then None
    else
      var before := ModuleIndex(ms[..|ms| - 1], id);
      if before.Some? then before
      else if ms[|ms| - 1].descriptor.id == id then Some(|ms| - 1)
      else None
  }

  lemma IndexIs(ms: seq<ManagedModule>, id: Text, i: nat)
    requires Names(ms, id, i)
    ensures ModuleIndex(ms, id) == Some(i)
  {
  }

  /** Whether every bound provider is a registered module in one of the accepted states. */
  predicate DependenciesIn(ms: seq<ManagedModule>, consumer: nat, accepted: set<ModuleState>)
    requires consumer < |ms|
  {
    && ms[consumer].resolution.Some?
    && var bindings := ms[consumer].resolution.value;
       forall b | 0 <= b < |bindings| ::
         var p := ModuleIndex(ms, bindings[b].provider.moduleId);
         p.Some? && ms[p.value].state in accepted
  }

  ghost predicate DependsOn(ms: seq<ManagedModule>, active: seq<bool>, consumer: nat, provider: nat)
    requires |active| == |ms| && consumer < |ms| && provider < |ms|
  {
    && active[consumer] && active[provider] && ms[consumer].resolution.Some?
    && var bindings := ms[consumer].resolution.value;
       exists b :: 0 <= b < |bindings| && ModuleIndex(ms, bindings[b].provider.moduleId) == Some(provider)
  }

  /** The first `n` modules that `consumer` depends on, in ascending order. */
  ghost function ProvidersBelow(ms: seq<ManagedModule>, active: seq<bool>, consumer: nat, n: nat): (r: seq<nat>)
    requires |active| == |ms| && consumer < |ms| && n <= |ms|
    ensures forall d :: d in r <==> 0 <= d < n && DependsOn(ms, active, consumer, d)
    ensures forall i :: 0 <= i < |r| ==> r[i] < n
    ensures forall i, j :: 0 <= i < j < |r| ==> r[i] < r[j]
  {
    if n == 0 then []
    else
      var before := ProvidersBelow(ms, active, consumer, n - 1);
      if DependsOn(ms, active, consumer, n - 1) then before + [n - 1] else before
  }

  /** The dependencies among the active modules. */
  ghost function DependencyGraph(ms: seq<ManagedModule>, active: seq<bool>): (g: Graph)
    requires |active| == |ms|
    ensures |g| == |ms|
    ensures forall v :: 0 <= v < |ms| ==> g[v] == ProvidersBelow(ms, active, v, |ms|)
  {
    seq(|ms|, v requires 0 <= v < |ms| => ProvidersBelow(ms, active, v, |ms|))
  }

  lemma GraphShape(ms: seq<ManagedModule>, active: seq<bool>)
    requires |active| == |ms|
    ensures WellFormed(DependencyGraph(ms, active)) && AmongActive(DependencyGraph(ms, active), active)
  {
    var g := DependencyGraph(ms, active);
    forall v | 0 <= v < |g|
      ensures Distinct(g[v]) && (g[v] != [] ==> active[v]) && forall d :: d in g[v] ==> d < |g| && active[d]
    {
      assert g[v] == ProvidersBelow(ms, active, v, |ms|);
      if g[v] != [] {
        assert g[v][0] in g[v];
      }
    }
  }

  function Participating(ms: seq<ManagedModule>): (r: seq<bool>)
    ensures |r| == |ms| && forall i :: 0 <= i < |ms| ==> r[i] == Participates(ms[i].state)
  {
    seq(|ms|, i requires 0 <= i < |ms| => Participates(ms[i].state))
  }

  function Holding(ms: seq<ManagedModule>): (r: seq<bool>)
    ensures |r| == |ms| && forall i :: 0 <= i < |ms| ==> r[i] == ms[i].handle.Some?
  {
    seq(|ms|, i requires 0 <= i < |ms| => ms[i].handle.Some?)
  }

  // ---------- The log of calls into factories and handles ----------

  /** What was handed to a module's factory or handle, and what became of the handle. */
  datatype Event =
    | ValidateCalled(index: nat)
    | StartCalled(index: nat)
    | Attached(index: nat, bindings: seq<CapabilityBinding>)
    | ShutdownCalled(index: nat)
    | Abandoned(index: nat)

  /** How far a module has come; `Broken` is what no run may reach. */
  datatype Phase = Fresh | Checked | Attempted | Held | Released | Broken

  /** The only legal life: validated once, started once, attached once, given up once. */
  function Advance(phase: Phase, e: Event): Phase {
    if phase == Fresh && e.ValidateCalled? then Checked
    else if phase == Checked && e.StartCalled? then Attempted
    else if phase == Attempted && e.Attached? then Held
    else if phase == Held && (e.ShutdownCalled? || e.Abandoned?) then Released
    else Broken
  }

  /** The phase the log puts module `i` in. */
  function Replay(log: seq<Event>, i: nat): Phase {
    if log == [] then Fresh
    else
      var before := Replay(log[..|log| - 1], i);
      var e := log[|log| - 1];
      if e.index == i then Advance(before, e) else before
  }

  /** The modules whose handle was attached, in that order. */
  function Attachments(log: seq<Event>): seq<nat> {
    if log == [] then []
    else
      var before := Attachments(log[..|log| - 1]);
      var e := log[|log| - 1];
      if e.Attached? then before + [e.index] else before
  }

  function ValidationEvents(i: nat, m: ManagedModule): seq<Event> {
    if m.resolution.None? then [] else [ValidateCalled(i)]
  }

  function StartEvents(i: nat, m: ManagedModule, outcome: StartOutcome): seq<Event> {
    if PrepareStart(m).Err? then []
    else if Succeeds(outcome) then [StartCalled(i), Attached(i, m.resolution.value)]
    else [StartCalled(i)]
  }

  function StopEvents(i: nat, m: ManagedModule, stop: StopOutcome): seq<Event> {
    if m.handle.None? || stop.NotSpawned? then [] else [ShutdownCalled(i)]
  }

  function HealthEvents(i: nat, m: ManagedModule, probe: HealthOutcome, stop: StopOutcome): seq<Event> {
    if m.handle.None? then []
    else match probe
         case Completed(Some(Ok(status))) => if status == HealthUnavailable then StopEvents(i, m, stop) else []
         case Completed(Some(Err(_))) => StopEvents(i, m, stop)
         case NotSpawned => StopEvents(i, m, stop)
         case _ => [Abandoned(i)]
  }
}
