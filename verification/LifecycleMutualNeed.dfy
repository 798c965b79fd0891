/**
 * A run in which two live modules come to need each other: a provider fails, its consumer is isolated with its handle
 * kept, others take both their places, and a healthy probe brings the isolated module back.
 */
module LifecycleMutualNeed {
  import opened Words
  import opened BigEndian
  import opened Capability
  import opened LifecycleGraph
  import opened LifecycleModel
  import opened LifecycleInvariant
  import opened LifecyclePass
  import opened LifecycleShutdown
  import opened LifecycleOperations
  import opened LifecycleRuns
  import opened LifecycleHistory

  // ---------- Four modules ----------

  const V1: ModuleVersion := ModuleVersion(1, 0, 0)
  const ALPHA: Text := Ascii("cap.alpha")
  const BETA: Text := Ascii("cap.beta")
  const CONSUMER: Text := Ascii("mod.consumer")
  const FIRST: Text := Ascii("mod.first")
  const SUBSTITUTE: Text := Ascii("mod.substitute")
  const SECOND: Text := Ascii("mod.second")
  const SCHEMA: Text := Ascii("schema.v1")

  predicate IsLetter(b: u8) {
    'a' as int <= b <= 'z' as int
  }

  predicate IsSegmentByte(b: u8) {
    IsLetter(b) || '0' as int <= b <= '9' as int || b == '-' as int || b == '_' as int
  }

  /** What identity parsing accepts: at least two dotted segments of lower-case bytes, each starting with a letter. */
  predicate IsDottedId(t: Text, limit: nat) {
    && 0 < |t| <= limit && IsLetter(t[0])
    && (forall i :: 0 <= i < |t| ==> IsSegmentByte(t[i]) || t[i] == '.' as int)
    && (exists i :: 0 <= i < |t| && t[i] == '.' as int)
    && (forall i :: 0 <= i < |t| && t[i] == '.' as int ==> i + 1 < |t| && IsLetter(t[i + 1]))
  }

  /** What namespace validation accepts: visible ASCII or spaces, within the bound. */
  predicate IsNamespace(t: Text) {
    0 < |t| <= 128 && forall i :: 0 <= i < |t| ==> 0x20 <= t[i] < 0x7F
  }

  const MODULE_ID_LIMIT: nat := 160
  const CAPABILITY_ID_LIMIT: nat := 128

  lemma Accepted(t: Text, dot: nat, limit: nat)
    requires |t| <= limit && 0 < dot < |t| - 1 && t[dot] == '.' as int
    requires forall i :: 0 <= i < |t| && i != dot ==> IsLetter(t[i])
    ensures IsDottedId(t, limit)
  {
  }

  lemma ConsumerAccepted()
    ensures IsDottedId(CONSUMER, MODULE_ID_LIMIT)
  {
    Accepted(CONSUMER, 3, MODULE_ID_LIMIT);
  }

  lemma FirstAccepted()
    ensures IsDottedId(FIRST, MODULE_ID_LIMIT)
  {
    Accepted(FIRST, 3, MODULE_ID_LIMIT);
  }

  lemma SubstituteAccepted()
    ensures IsDottedId(SUBSTITUTE, MODULE_ID_LIMIT)
  {
    Accepted(SUBSTITUTE, 3, MODULE_ID_LIMIT);
  }

  lemma SecondAccepted()
    ensures IsDottedId(SECOND, MODULE_ID_LIMIT)
  {
    Accepted(SECOND, 3, MODULE_ID_LIMIT);
  }

  lemma CapabilitiesAccepted()
    ensures IsDottedId(ALPHA, CAPABILITY_ID_LIMIT) && IsDottedId(BETA, CAPABILITY_ID_LIMIT)
  {
    Accepted(ALPHA, 3, CAPABILITY_ID_LIMIT);
    Accepted(BETA, 3, CAPABILITY_ID_LIMIT);
  }

  /** The identities used below are ones the parsers accept. */
  lemma IdentitiesAreAccepted()
    ensures forall id :: id in {CONSUMER, FIRST, SUBSTITUTE, SECOND} ==> IsDottedId(id, MODULE_ID_LIMIT)
    ensures forall capability :: capability in {ALPHA, BETA} ==> IsDottedId(capability, CAPABILITY_ID_LIMIT)
    ensures IsNamespace(SCHEMA)
  {
    hide IsDottedId;
    ConsumerAccepted();
    FirstAccepted();
    SubstituteAccepted();
    SecondAccepted();
    CapabilitiesAccepted();
  }

  function Offer(capability: Text, id: Text): CapabilityProvider {
    CapabilityProvider(capability, V1, id)
  }

  function Need(capability: Text): CapabilityRequirement {
    CapabilityRequirement(capability, V1, None)
  }

  function Binding(capability: Text, id: Text): seq<CapabilityBinding> {
    [CapabilityBinding(Need(capability), Offer(capability, id))]
  }

  function Described(id: Text, capability: Text, needs: seq<CapabilityRequirement>): ModuleDescriptor {
    ModuleDescriptor(id, CORE_ABI_VERSION, SCHEMA, [Offer(capability, id)], needs, [], 0)
  }

  /** Offers alpha, needs beta. */
  function Consumer(): ModuleDescriptor {
    Described(CONSUMER, ALPHA, [Need(BETA)])
  }

  /** Offers beta. */
  function FirstProvider(): ModuleDescriptor {
    Described(FIRST, BETA, [])
  }

  /** Offers alpha in the consumer's place. */
  function Substitute(): ModuleDescriptor {
    Described(SUBSTITUTE, ALPHA, [])
  }

  /** Offers beta, needs alpha. */
  function SecondProvider(): ModuleDescriptor {
    Described(SECOND, BETA, [Need(ALPHA)])
  }

  function Pending(d: ModuleDescriptor, state: ModuleState, bindings: seq<CapabilityBinding>): ManagedModule {
    ManagedModule(d, SCHEMA, Some(bindings), None, false, state, 0, None)
  }

  function Running(d: ModuleDescriptor, h: Handle, bindings: seq<CapabilityBinding>): ManagedModule {
    ManagedModule(d, SCHEMA, Some(bindings), Some(h), false, Ready, 1, None)
  }

  function Gone(d: ModuleDescriptor): ManagedModule {
    ManagedModule(d, SCHEMA, Some([]), None, true, ModuleState.Unavailable, 1, Some(CoreErrorCode.Unavailable))
  }

  function Isolated(d: ModuleDescriptor, h: Handle, bindings: seq<CapabilityBinding>,
                    code: CoreErrorCode): ManagedModule
  {
    ManagedModule(d, SCHEMA, Some(bindings), Some(h), true, ModuleState.Unavailable, 1, Some(code))
  }

  function Revived(d: ModuleDescriptor, h: Handle, bindings: seq<CapabilityBinding>): ManagedModule {
    ManagedModule(d, SCHEMA, Some(bindings), Some(h), true, Ready, 1, None)
  }

  // ---------- What the environment answers ----------

  function AllValid(): nat -> ValidationOutcome {
    (i: nat) => Completed(Ok(()))
  }

  function AllStart(): nat -> StartOutcome {
    (i: nat) => Completed(Ok(i))
  }

  function AllStop(): nat -> StopOutcome {
    (i: nat) => Completed(Some(Ok(())))
  }

  /** Everything is healthy but module `failing`. */
  function HealthyBut(failing: nat): nat -> HealthOutcome {
    (i: nat) => Completed(Some(Ok(if i == failing then HealthUnavailable else HealthReady)))
  }

  // ---------- The stages ----------

  function Registered2(): seq<ManagedModule> {
    [NewModule(Consumer(), SCHEMA), NewModule(FirstProvider(), SCHEMA)]
  }

  function Started2(): seq<ManagedModule> {
    [Running(Consumer(), 0, Binding(BETA, FIRST)), Running(FirstProvider(), 1, [])]
  }

  function ProviderLost(): seq<ManagedModule> {
    [Running(Consumer(), 0, Binding(BETA, FIRST)), Gone(FirstProvider())]
  }

  function ConsumerIsolated(): seq<ManagedModule> {
    [Isolated(Consumer(), 0, Binding(BETA, FIRST), CoreErrorCode.Unavailable), Gone(FirstProvider())]
  }

  function Registered4(): seq<ManagedModule> {
    [Isolated(Consumer(), 0, Binding(BETA, FIRST), CoreErrorCode.Unavailable), Gone(FirstProvider()),
     NewModule(Substitute(), SCHEMA), NewModule(SecondProvider(), SCHEMA)]
  }

  function Started4(): seq<ManagedModule> {
    [Isolated(Consumer(), 0, Binding(BETA, FIRST), CoreErrorCode.Unavailable), Gone(FirstProvider()),
     Running(Substitute(), 2, []), Running(SecondProvider(), 3, Binding(ALPHA, SUBSTITUTE))]
  }

  function ConsumerRevived(): seq<ManagedModule> {
    [Revived(Consumer(), 0, Binding(BETA, FIRST)), Gone(FirstProvider()), Gone(Substitute()),
     Running(SecondProvider(), 3, Binding(ALPHA, SUBSTITUTE))]
  }

  function MutuallyBound(): seq<ManagedModule> {
    [Revived(Consumer(), 0, Binding(BETA, SECOND)), Gone(FirstProvider()), Gone(Substitute()),
     Running(SecondProvider(), 3, Binding(ALPHA, CONSUMER))]
  }

  function BothIsolated(): seq<ManagedModule> {
    [Isolated(Consumer(), 0, Binding(BETA, SECOND), Conflict), Gone(FirstProvider()), Gone(Substitute()),
     Isolated(SecondProvider(), 3, Binding(ALPHA, CONSUMER), Conflict)]
  }

  // ---------- General steps ----------

  lemma Registers(f: Fleet, d: ModuleDescriptor)
    requires |f.modules| < MAX_MODULES && forall i :: 0 <= i < |f.modules| ==> f.modules[i].descriptor.id != d.id
    ensures AfterRegister(f, d, SCHEMA).modules == f.modules + [NewModule(d, SCHEMA)]
  {
  }

  lemma Uncycled(ms: seq<ManagedModule>, order: seq<nat>)
    requires Distinct(order) && ProvidersFirst(ActiveGraph(ms), order)
    requires forall i :: 0 <= i < |ms| && Participates(ms[i].state) ==> i in order
    ensures CyclesMarked(ms) == ms
  {
    forall i | 0 <= i < |ms| ensures !InCycle(ms, i) {
      if Participates(ms[i].state) {
        var k :| 0 <= k < |order| && order[k] == i;
        OrderedReachesNoCycle(ActiveGraph(ms), order, k);
      }
    }
  }

  /** A module with one binding is available exactly when the one module it names is in an accepted state. */
  lemma Available(ms: seq<ManagedModule>, i: nat, p: nat, accepted: set<ModuleState>)
    requires i < |ms| && ms[i].resolution.Some? && |ms[i].resolution.value| == 1
    requires Names(ms, ms[i].resolution.value[0].provider.moduleId, p)
    ensures DependenciesIn(ms, i, accepted) <==> ms[p].state in accepted
  {
    IndexIs(ms, ms[i].resolution.value[0].provider.moduleId, p);
  }

  /** The only edge of a module with one binding leads to the module it names. */
  lemma OneEdge(ms: seq<ManagedModule>, active: seq<bool>, i: nat, p: nat)
    requires |active| == |ms| && i < |ms| && ms[i].resolution.Some? && |ms[i].resolution.value| == 1
    requires Names(ms, ms[i].resolution.value[0].provider.moduleId, p)
    ensures forall d :: d in DependencyGraph(ms, active)[i] <==> d == p && active[i] && active[p]
  {
    IndexIs(ms, ms[i].resolution.value[0].provider.moduleId, p);
    forall d ensures d in DependencyGraph(ms, active)[i] <==> d == p && active[i] && active[p] {
      if 0 <= d < |ms| {
        EdgeIs(ms, active, i, d);
        assert DependsOn(ms, active, i, p) <==> active[i] && active[p] by {
          assert ModuleIndex(ms, ms[i].resolution.value[0].provider.moduleId) == Some(p);
        }
      }
    }
  }

  lemma NoEdge(ms: seq<ManagedModule>, active: seq<bool>, i: nat)
    requires |active| == |ms| && i < |ms| && (!active[i] || ms[i].resolution == Some([]))
    ensures forall d :: d !in DependencyGraph(ms, active)[i]
  {
    forall d ensures d !in DependencyGraph(ms, active)[i] {
      if 0 <= d < |ms| {
        EdgeIs(ms, active, i, d);
      }
    }
  }

  /** A validation that finds nothing newly discovered changes nothing more. */
  lemma ValidatesQuietly(f: Fleet) returns (g: Fleet)
    requires forall i :: 0 <= i < |f.modules| ==> Prepared(f.modules)[i].state != Discovered
    ensures Step(f, Validate(AllValid()), g) && g.modules == Prepared(f.modules)
  {
    var order := ScheduleExists(f.modules);
    g := AfterValidation(f, AllValid(), order);
    ValidationSettles(f, AllValid(), order);
    forall i | 0 <= i < |g.modules| ensures g.modules[i] == Prepared(f.modules)[i] {
      assert SettledAt(Validation(AllValid()), Prepared(f.modules), g.modules, i);
    }
  }

  lemma StartsSettled(f: Fleet) returns (mid: seq<ManagedModule>, g: Fleet)
    ensures Step(f, Start(AllValid(), AllStart()), g)
    ensures Settled(Validation(AllValid()), Prepared(f.modules), mid) && Settled(Startup(AllStart()), mid, g.modules)
  {
    var order := ScheduleExists(f.modules);
    mid := AfterValidation(f, AllValid(), order).modules;
    g := AfterStartup(AfterValidation(f, AllValid(), order), AllStart(), order);
    ValidationSettles(f, AllValid(), order);
    StartupSettles(f, AllValid(), AllStart(), order);
  }

  lemma Probes(f: Fleet, failing: nat) returns (g: Fleet)
    ensures Step(f, Probe(HealthyBut(failing), AllStop()), g) && |g.modules| == |f.modules|
    ensures forall i :: 0 <= i < |f.modules| ==>
              g.modules[i] == RefreshHealth(f.modules[i], HealthyBut(failing)(i), AllStop()(i))
  {
    g := Refreshed(f, HealthyBut(failing), AllStop(), |f.modules|);
    forall i | 0 <= i < |f.modules|
      ensures g.modules[i] == RefreshHealth(f.modules[i], HealthyBut(failing)(i), AllStop()(i))
    {
      RefreshedAt(f, HealthyBut(failing), AllStop(), |f.modules|, i);
    }
  }

  // ---------- A consumer and its provider ----------

  /** Module `c` has one binding, which names module `p`, and `p` needs nothing. */
  ghost predicate Pair(ms: seq<ManagedModule>, c: nat, p: nat) {
    && c < |ms| && p < |ms| && c != p
    && ms[p].resolution == Some([])
    && ms[c].resolution.Some? && |ms[c].resolution.value| == 1
    && Names(ms, ms[c].resolution.value[0].provider.moduleId, p)
  }

  lemma PairUncycled(ms: seq<ManagedModule>, c: nat, p: nat)
    requires Pair(ms, c, p)
    requires forall i :: 0 <= i < |ms| && Participates(ms[i].state) ==> i == c || i == p
    ensures CyclesMarked(ms) == ms
  {
    OneEdge(ms, Participating(ms), c, p);
    NoEdge(ms, Participating(ms), p);
    hide DependencyGraph;
    var g := ActiveGraph(ms);
    var order: seq<nat> := [p, c];
    forall k | 0 <= k < |order| ensures order[k] < |g| && forall d :: d in g[order[k]] ==> d in order[..k] {
      if k == 1 {
        assert order[..1] == [p];
      }
    }
    Uncycled(ms, order);
  }

  lemma PairSame(a: seq<ManagedModule>, b: seq<ManagedModule>, c: nat, p: nat)
    requires Pair(a, c, p) && SameBindings(a, b)
    ensures Pair(b, c, p)
  {
  }

  /** Module `i` is a new arrival that was resolved but not yet validated. */
  predicate Arrived(m: ManagedModule) {
    m.state == Discovered && m.resolution.Some? && m.generation == 0
  }

  lemma PairValidates(before: seq<ManagedModule>, after: seq<ManagedModule>, c: nat, p: nat)
    requires Pair(before, c, p) && Arrived(before[c]) && Arrived(before[p])
    requires Settled(Validation(AllValid()), before, after)
    ensures after[c] == before[c].(state := Validated, error := None)
    ensures after[p] == before[p].(state := Validated, error := None)
  {
    PairSame(before, after, c, p);
    assert SettledAt(Validation(AllValid()), before, after, p);
    assert SettledAt(Validation(AllValid()), before, after, c);
    Available(after, c, p, {Validated, Ready, Degraded});
  }

  lemma PairLaunches(before: seq<ManagedModule>, after: seq<ManagedModule>, c: nat, p: nat)
    requires Pair(before, c, p) && before[c].state == before[p].state == Validated
    requires before[c].generation == before[p].generation == 0
    requires Settled(Startup(AllStart()), before, after)
    ensures after[c] == before[c].(handle := Some(c), generation := 1, state := Ready, error := None)
    ensures after[p] == before[p].(handle := Some(p), generation := 1, state := Ready, error := None)
  {
    PairSame(before, after, c, p);
    assert SettledAt(Startup(AllStart()), before, after, p);
    assert SettledAt(Startup(AllStart()), before, after, c);
    Available(after, c, p, {Ready, Degraded});
  }

  lemma OthersUnmoved(sweep: Sweep, before: seq<ManagedModule>, after: seq<ManagedModule>)
    requires Settled(sweep, before, after)
    ensures forall i :: 0 <= i < |before| && before[i].state != sweep.Pending() ==> after[i] == before[i]
  {
    forall i | 0 <= i < |before| && before[i].state != sweep.Pending() ensures after[i] == before[i] {
      assert SettledAt(sweep, before, after, i);
    }
  }

  /** Starting a fleet whose only new arrivals are such a pair starts both. */
  lemma PairStarts(f: Fleet, c: nat, p: nat) returns (g: Fleet)
    requires Pair(Prepared(f.modules), c, p) && Arrived(Prepared(f.modules)[c]) && Arrived(Prepared(f.modules)[p])
    requires forall i :: 0 <= i < |f.modules| && i != c && i != p ==>
               !(Prepared(f.modules)[i].state in {Discovered, Validated})
    ensures Step(f, Start(AllValid(), AllStart()), g) && |g.modules| == |f.modules|
    ensures
      var r := Prepared(f.modules);
      && g.modules[c] == r[c].(handle := Some(c), generation := 1, state := Ready, error := None)
      && g.modules[p] == r[p].(handle := Some(p), generation := 1, state := Ready, error := None)
      && forall i :: 0 <= i < |r| && i != c && i != p ==> g.modules[i] == r[i]
  {
    hide Step, Prepared;
    var mid;
    mid, g := StartsSettled(f);
    var r := Prepared(f.modules);
    PairValidates(r, mid, c, p);
    OthersUnmoved(Validation(AllValid()), r, mid);
    PairSame(r, mid, c, p);
    PairLaunches(mid, g.modules, c, p);
    OthersUnmoved(Startup(AllStart()), mid, g.modules);
  }

  // ---------- Resolution ----------

  lemma Offered(m: ManagedModule, providers: seq<CapabilityProvider>, p: CapabilityProvider)
    requires Participates(m.state) && m.descriptor.provided == [p] && |providers| < MAX_GRAPH_CAPABILITIES
    requires UniqueIds(providers) && forall q :: q in providers ==> q.id != p.id
    ensures AddOffer(m, providers) == providers + [p] && UniqueIds(providers + [p]) && AfterOffer(m, providers) == m
  {
  }

  lemma ResolvesNothing(m: ManagedModule, providers: seq<CapabilityProvider>)
    requires Participates(m.state) && m.descriptor.required == m.descriptor.requiredSecrets == []
    ensures Resolve(m, providers) == m.(resolution := Some([]))
  {
    assert m.descriptor.Requirements() == [];
  }

  lemma ResolvesOne(m: ManagedModule, providers: seq<CapabilityProvider>, capability: Text)
    requires Participates(m.state) && m.descriptor.required == [Need(capability)] && m.descriptor.requiredSecrets == []
    ensures
      var found := FirstOffering(providers, capability);
      Resolve(m, providers) ==
        if found.None? then MarkUnavailable(m, CoreErrorCode.Unavailable)
        else if AtLeast(found.value.version, V1)
          then m.(resolution := Some([CapabilityBinding(Need(capability), found.value)]))
        else MarkUnavailable(m, Conflict)
  {
    var needs := m.descriptor.Requirements();
    assert needs == [Need(capability)];
    assert needs[..0] == [];
    var found := FirstOffering(providers, capability);
    assert Bindings(providers, []) == Ok([]);
    if found.Some? && AtLeast(found.value.version, V1) {
      var b := CapabilityBinding(Need(capability), found.value);
      assert [] + [b] == [b];
      assert Bindings(providers, needs) == Ok([b]);
    }
  }

  function Prepared2(): seq<ManagedModule> {
    [Pending(Consumer(), Discovered, Binding(BETA, FIRST)), Pending(FirstProvider(), Discovered, [])]
  }

  /** Module `k` participates and offers `p` alone. */
  ghost predicate OffersOnly(ms: seq<ManagedModule>, k: nat, p: CapabilityProvider) {
    k < |ms| && Participates(ms[k].state) && ms[k].descriptor.provided == [p]
  }

  ghost predicate OffersNothing(ms: seq<ManagedModule>, k: nat) {
    k < |ms| && !Participates(ms[k].state)
  }

  lemma NextOffered(ms: seq<ManagedModule>, k: nat, p: CapabilityProvider)
    requires OffersOnly(ms, k, p) && |Offers(ms, k)| < MAX_GRAPH_CAPABILITIES
    requires UniqueIds(Offers(ms, k)) && forall q :: q in Offers(ms, k) ==> q.id != p.id
    ensures Offers(ms, k + 1) == Offers(ms, k) + [p] && UniqueIds(Offers(ms, k + 1)) && OfferChecked(ms, k) == ms[k]
  {
    Offered(ms[k], Offers(ms, k), p);
  }

  lemma NextSkipped(ms: seq<ManagedModule>, k: nat)
    requires OffersNothing(ms, k)
    ensures Offers(ms, k + 1) == Offers(ms, k) && OfferChecked(ms, k) == ms[k]
  {
    Skipped(ms[k], Offers(ms, k));
  }

  lemma NoOffer(ms: seq<ManagedModule>)
    ensures Offers(ms, 0) == []
  {
  }

  lemma TwoOffers(ms: seq<ManagedModule>, a: CapabilityProvider, b: CapabilityProvider)
    requires |ms| == 2 && OffersOnly(ms, 0, a) && OffersOnly(ms, 1, b) && a.id != b.id
    ensures Offers(ms, 2) == [a, b] && OfferChecked(ms, 0) == ms[0] && OfferChecked(ms, 1) == ms[1]
  {
    hide Offers, OfferChecked, OffersOnly;
    NoOffer(ms);
    NextOffered(ms, 0, a);
    NextOffered(ms, 1, b);
  }

  lemma LastTwoOffer(ms: seq<ManagedModule>, a: CapabilityProvider, b: CapabilityProvider)
    requires |ms| == 4 && OffersNothing(ms, 0) && OffersNothing(ms, 1)
    requires OffersOnly(ms, 2, a) && OffersOnly(ms, 3, b) && a.id != b.id
    ensures Offers(ms, 4) == [a, b] && forall i :: 0 <= i < 4 ==> OfferChecked(ms, i) == ms[i]
  {
    hide Offers, OfferChecked, OffersOnly, OffersNothing;
    NoOffer(ms);
    NextSkipped(ms, 0);
    NextSkipped(ms, 1);
    NextOffered(ms, 2, a);
    NextOffered(ms, 3, b);
  }

  lemma OuterTwoOffer(ms: seq<ManagedModule>, a: CapabilityProvider, b: CapabilityProvider)
    requires |ms| == 4 && OffersNothing(ms, 1) && OffersNothing(ms, 2)
    requires OffersOnly(ms, 0, a) && OffersOnly(ms, 3, b) && a.id != b.id
    ensures Offers(ms, 4) == [a, b] && forall i :: 0 <= i < 4 ==> OfferChecked(ms, i) == ms[i]
  {
    hide Offers, OfferChecked, OffersOnly, OffersNothing;
    NoOffer(ms);
    NextOffered(ms, 0, a);
    NextSkipped(ms, 1);
    NextSkipped(ms, 2);
    NextOffered(ms, 3, b);
  }

  lemma FirstOffers()
    ensures
      var ms := Registered2();
      && Offers(ms, 2) == [Offer(ALPHA, CONSUMER), Offer(BETA, FIRST)]
      && OfferChecked(ms, 0) == ms[0] && OfferChecked(ms, 1) == ms[1]
  {
    hide Offers, OfferChecked;
    TwoOffers(Registered2(), Offer(ALPHA, CONSUMER), Offer(BETA, FIRST));
  }

  lemma FirstResolution()
    ensures Resolved(Registered2()) == Prepared2()
  {
    hide Offers, AfterOffer, Resolve, FirstOffering, OfferChecked;
    var ms := Registered2();
    FirstOffers();
    SecondIsFound(Offer(ALPHA, CONSUMER), Offer(BETA, FIRST));
    ResolvesOne(ms[0], Offers(ms, 2), BETA);
    ResolvesNothing(ms[1], Offers(ms, 2));
    assert Resolved(ms)[0] == Prepared2()[0] && Resolved(ms)[1] == Prepared2()[1];
  }

  lemma FirstPreparation()
    ensures Prepared(Registered2()) == Prepared2()
  {
    hide Resolved;
    FirstResolution();
    PairUncycled(Prepared2(), 0, 1);
  }

  lemma FirstStart(f: Fleet) returns (g: Fleet)
    requires f.modules == Registered2()
    ensures Step(f, Start(AllValid(), AllStart()), g) && g.modules == Started2()
  {
    hide Step, Prepared;
    FirstPreparation();
    g := PairStarts(f, 0, 1);
    assert g.modules == Started2();
  }

  lemma Skipped(m: ManagedModule, providers: seq<CapabilityProvider>)
    requires !Participates(m.state)
    ensures AddOffer(m, providers) == providers && AfterOffer(m, providers) == m && Resolve(m, providers) == m
  {
  }

  // ---------- The provider fails, and its consumer is isolated ----------

  lemma ProviderFails(f: Fleet) returns (g: Fleet)
    requires f.modules == Started2()
    ensures Step(f, Probe(HealthyBut(1), AllStop()), g) && g.modules == ProviderLost()
  {
    hide Step;
    g := Probes(f, 1);
    assert g.modules[0] == ProviderLost()[0] && g.modules[1] == ProviderLost()[1];
  }

  lemma NothingOffersBeta()
    ensures Resolved(ProviderLost()) == ConsumerIsolated()
  {
    var ms := ProviderLost();
    var a := Offer(ALPHA, CONSUMER);
    Offered(ms[0], [], a);
    assert [] + [a] == [a];
    Skipped(ms[1], [a]);
    assert Offers(ms, 0) == [] && Offers(ms, 1) == [a] && Offers(ms, 2) == [a];
    ResolvesOne(ms[0], [a], BETA);
    assert FirstOffering([a], BETA) == None;
    assert Resolved(ms)[0] == ConsumerIsolated()[0] && Resolved(ms)[1] == ConsumerIsolated()[1];
  }

  lemma NobodyParticipates(ms: seq<ManagedModule>)
    requires forall i :: 0 <= i < |ms| ==> !Participates(ms[i].state)
    ensures CyclesMarked(ms) == ms
  {
  }

  lemma ConsumerLosesProvider(f: Fleet) returns (g: Fleet)
    requires f.modules == ProviderLost()
    ensures Step(f, Validate(AllValid()), g) && g.modules == ConsumerIsolated()
  {
    hide Step, Resolved, CyclesMarked;
    NothingOffersBeta();
    NobodyParticipates(ConsumerIsolated());
    g := ValidatesQuietly(f);
  }

  // ---------- Others take both places ----------

  function Prepared4(): seq<ManagedModule> {
    [Isolated(Consumer(), 0, Binding(BETA, FIRST), CoreErrorCode.Unavailable), Gone(FirstProvider()),
     Pending(Substitute(), Discovered, []), Pending(SecondProvider(), Discovered, Binding(ALPHA, SUBSTITUTE))]
  }

  lemma SecondOffers()
    ensures
      var ms := Registered4();
      && Offers(ms, 4) == [Offer(ALPHA, SUBSTITUTE), Offer(BETA, SECOND)]
      && (forall i :: 0 <= i < 4 ==> OfferChecked(ms, i) == ms[i])
  {
    hide Offers, OfferChecked;
    LastTwoOffer(Registered4(), Offer(ALPHA, SUBSTITUTE), Offer(BETA, SECOND));
  }

  lemma SecondIsFound(a: CapabilityProvider, b: CapabilityProvider)
    requires a.id != b.id
    ensures FirstOffering([a, b], b.id) == Some(b)
  {
    assert [a, b][1..] == [b];
  }

  lemma FirstIsFound(a: CapabilityProvider, b: CapabilityProvider)
    ensures FirstOffering([a, b], a.id) == Some(a)
  {
  }

  lemma SecondResolution()
    ensures Resolved(Registered4()) == Prepared4()
  {
    hide Offers, AfterOffer, Resolve, FirstOffering, OfferChecked;
    var ms := Registered4();
    SecondOffers();
    FirstIsFound(Offer(ALPHA, SUBSTITUTE), Offer(BETA, SECOND));
    Skipped(ms[0], Offers(ms, 4));
    Skipped(ms[1], Offers(ms, 4));
    ResolvesNothing(ms[2], Offers(ms, 4));
    ResolvesOne(ms[3], Offers(ms, 4), ALPHA);
    assert Resolved(ms)[0] == Prepared4()[0] && Resolved(ms)[1] == Prepared4()[1];
    assert Resolved(ms)[2] == Prepared4()[2] && Resolved(ms)[3] == Prepared4()[3];
  }

  lemma SecondStart(f: Fleet) returns (g: Fleet)
    requires f.modules == Registered4()
    ensures Step(f, Start(AllValid(), AllStart()), g) && g.modules == Started4()
  {
    hide Step, Resolved, Prepared;
    SecondResolution();
    PairUncycled(Prepared4(), 3, 2);
    assert Prepared(f.modules) == CyclesMarked(Resolved(f.modules)) by {
      PreparedIs(f.modules);
    }
    g := PairStarts(f, 3, 2);
    assert g.modules == Started4();
  }

  lemma PreparedIs(ms: seq<ManagedModule>)
    ensures Prepared(ms) == CyclesMarked(Resolved(ms))
  {
  }

  // ---------- The consumer returns, and the two need each other ----------

  lemma ConsumerReturns(f: Fleet) returns (g: Fleet)
    requires f.modules == Started4()
    ensures Step(f, Probe(HealthyBut(2), AllStop()), g) && g.modules == ConsumerRevived()
  {
    hide Step;
    g := Probes(f, 2);
    assert g.modules[0] == ConsumerRevived()[0] && g.modules[1] == ConsumerRevived()[1];
    assert g.modules[2] == ConsumerRevived()[2] && g.modules[3] == ConsumerRevived()[3];
  }

  lemma ThirdOffers()
    ensures
      var ms := ConsumerRevived();
      && Offers(ms, 4) == [Offer(ALPHA, CONSUMER), Offer(BETA, SECOND)]
      && (forall i :: 0 <= i < 4 ==> OfferChecked(ms, i) == ms[i])
  {
    hide Offers, OfferChecked;
    OuterTwoOffer(ConsumerRevived(), Offer(ALPHA, CONSUMER), Offer(BETA, SECOND));
  }

  lemma ThirdResolution()
    ensures Resolved(ConsumerRevived()) == MutuallyBound()
  {
    hide Offers, AfterOffer, Resolve, FirstOffering, OfferChecked;
    var ms := ConsumerRevived();
    ThirdOffers();
    FirstIsFound(Offer(ALPHA, CONSUMER), Offer(BETA, SECOND));
    SecondIsFound(Offer(ALPHA, CONSUMER), Offer(BETA, SECOND));
    ResolvesOne(ms[0], Offers(ms, 4), BETA);
    Skipped(ms[1], Offers(ms, 4));
    Skipped(ms[2], Offers(ms, 4));
    ResolvesOne(ms[3], Offers(ms, 4), ALPHA);
    assert Resolved(ms)[0] == MutuallyBound()[0] && Resolved(ms)[1] == MutuallyBound()[1];
    assert Resolved(ms)[2] == MutuallyBound()[2] && Resolved(ms)[3] == MutuallyBound()[3];
  }

  /** Modules `c` and `p` have one binding each, naming the other. */
  ghost predicate Mutual(ms: seq<ManagedModule>, c: nat, p: nat) {
    && c < |ms| && p < |ms|
    && ms[c].resolution.Some? && |ms[c].resolution.value| == 1
    && ms[p].resolution.Some? && |ms[p].resolution.value| == 1
    && Names(ms, ms[c].resolution.value[0].provider.moduleId, p)
    && Names(ms, ms[p].resolution.value[0].provider.moduleId, c)
  }

  lemma MutualCycle(ms: seq<ManagedModule>, active: seq<bool>, c: nat, p: nat)
    requires |active| == |ms| && Mutual(ms, c, p) && active[c] && active[p]
    ensures OnCycle(DependencyGraph(ms, active), c) && OnCycle(DependencyGraph(ms, active), p)
  {
    var g := DependencyGraph(ms, active);
    OneEdge(ms, active, c, p);
    OneEdge(ms, active, p, c);
    assert Path(g, [c, p, c], c, c);
    assert Path(g, [p, c, p], p, p);
  }

  lemma BothAreMarked()
    ensures CyclesMarked(MutuallyBound()) == BothIsolated()
  {
    var ms := MutuallyBound();
    MutualCycle(ms, Participating(ms), 0, 3);
    hide DependencyGraph;
    assert InCycle(ms, 0) && InCycle(ms, 3) && !InCycle(ms, 1) && !InCycle(ms, 2);
  }

  lemma BothAreIsolated(f: Fleet) returns (g: Fleet)
    requires f.modules == ConsumerRevived()
    ensures Step(f, Validate(AllValid()), g) && g.modules == BothIsolated()
  {
    hide Step, Resolved, CyclesMarked;
    ThirdResolution();
    BothAreMarked();
    g := ValidatesQuietly(f);
  }

  // ---------- The run ----------

  lemma Continues(fs: seq<Fleet>, ops: seq<Operation>, op: Operation, g: Fleet)
    requires Run(fs, ops) && Step(fs[|ops|], op, g)
    ensures Run(fs + [g], ops + [op])
  {
    hide Step;
    var more, done := fs + [g], ops + [op];
    forall k | 0 <= k < |done| ensures StepAt(more, done, k) {
      if k < |ops| {
        assert StepAt(fs, ops, k);
      }
    }
  }

  lemma FirstHalf() returns (fs: seq<Fleet>, ops: seq<Operation>)
    ensures Run(fs, ops) && |fs| == 6 && |ops| == 5 && fs[5].modules == ConsumerIsolated()
  {
    hide Step, Run;
    fs, ops := [Fleet([], [])], [];
    assert Run(fs, ops) by {
      StandingStill();
    }
    fs, ops := RegistersNext(fs, ops, Consumer());
    fs, ops := RegistersNext(fs, ops, FirstProvider());
    assert fs[2].modules == Registered2();
    var g := FirstStart(fs[2]);
    Continues(fs, ops, Start(AllValid(), AllStart()), g);
    fs, ops := fs + [g], ops + [Start(AllValid(), AllStart())];
    g := ProviderFails(fs[3]);
    Continues(fs, ops, Probe(HealthyBut(1), AllStop()), g);
    fs, ops := fs + [g], ops + [Probe(HealthyBut(1), AllStop())];
    g := ConsumerLosesProvider(fs[4]);
    Continues(fs, ops, Validate(AllValid()), g);
    fs, ops := fs + [g], ops + [Validate(AllValid())];
  }

  lemma StandingStill()
    ensures Run([Fleet([], [])], [])
  {
  }

  lemma RegistersNext(fs: seq<Fleet>, ops: seq<Operation>, d: ModuleDescriptor)
    returns (more: seq<Fleet>, done: seq<Operation>)
    requires Run(fs, ops) && d.Valid() && |fs[|ops|].modules| < MAX_MODULES
    requires forall i :: 0 <= i < |fs[|ops|].modules| ==> fs[|ops|].modules[i].descriptor.id != d.id
    ensures Run(more, done) && |done| == |ops| + 1 && fs <= more && ops <= done
    ensures more[|done|].modules == fs[|ops|].modules + [NewModule(d, SCHEMA)]
  {
    var g := AfterRegister(fs[|ops|], d, SCHEMA);
    Registers(fs[|ops|], d);
    Continues(fs, ops, RegisterModule(d, SCHEMA), g);
    more, done := fs + [g], ops + [RegisterModule(d, SCHEMA)];
  }

  lemma SecondHalf(fs: seq<Fleet>, ops: seq<Operation>) returns (more: seq<Fleet>, done: seq<Operation>)
    requires Run(fs, ops) && |ops| == 5 && fs[5].modules == ConsumerIsolated()
    ensures Run(more, done) && |more| == 11 && |done| == 10 && more[5] == fs[5]
    ensures more[9].modules == ConsumerRevived() && more[10].modules == BothIsolated()
  {
    hide Step;
    more, done := RegistersNext(fs, ops, Substitute());
    more, done := RegistersNext(more, done, SecondProvider());
    assert more[7].modules == Registered4();
    hide Run;
    var g := SecondStart(more[7]);
    Continues(more, done, Start(AllValid(), AllStart()), g);
    more, done := more + [g], done + [Start(AllValid(), AllStart())];
    g := ConsumerReturns(more[8]);
    Continues(more, done, Probe(HealthyBut(2), AllStop()), g);
    more, done := more + [g], done + [Probe(HealthyBut(2), AllStop())];
    g := BothAreIsolated(more[9]);
    Continues(more, done, Validate(AllValid()), g);
    more, done := more + [g], done + [Validate(AllValid())];
  }

  /** An unavailable module that still holds its handle is reachable, and a later probe does make it ready again. */
  lemma RevivalIsReachable() returns (fs: seq<Fleet>, ops: seq<Operation>)
    ensures Run(fs, ops) && |fs| == 11 && |ops| == 10
    ensures fs[5].modules != [] && fs[5].modules[0].state == ModuleState.Unavailable && fs[5].modules[0].handle.Some?
    ensures fs[9].modules != [] && fs[9].modules[0].state == Ready && fs[9].modules[0].handle == fs[5].modules[0].handle
    ensures fs[10].modules == BothIsolated()
  {
    hide Run;
    var half, done := FirstHalf();
    fs, ops := SecondHalf(half, done);
  }

  lemma LiveCycle()
    ensures var ms := BothIsolated(); !Acyclic(DependencyGraph(ms, Holding(ms))) && DistinctIds(ms)
  {
    var ms := BothIsolated();
    MutualCycle(ms, Holding(ms), 0, 3);
  }

  /** However a cyclic fleet is shut down, some provider stops before its consumer. */
  lemma NoOrderServes(ms: seq<ManagedModule>)
    requires DistinctIds(ms) && !Acyclic(DependencyGraph(ms, Holding(ms)))
    ensures forall order :: StopsInOrder(ms, order) ==>
              !ConsumersBeforeProviders(DependencyGraph(ms, Holding(ms)), order)
  {
    hide StopsInOrder, ConsumersBeforeProviders, DependencyGraph, Acyclic;
    forall order | StopsInOrder(ms, order) ensures !ConsumersBeforeProviders(DependencyGraph(ms, Holding(ms)), order) {
      ShutdownRespectsDependencies(ms, order);
    }
  }

  lemma ShutsDown(f: Fleet, stops: nat -> StopOutcome) returns (g: Fleet)
    requires DistinctIds(f.modules)
    ensures Step(f, Shutdown(stops), g)
    ensures exists order :: StopsInOrder(f.modules, order) && g == Halted(f, stops, order, |order|)
  {
    var order := StopOrderExists(f.modules);
    g := Halted(f, stops, order, |order|);
  }

  /**
   * The documented shutdown order can be impossible to keep: a run reaches live modules that need each other, and in
   * the shutdown that follows a provider stops before its consumer, whatever else happens.
   */
  lemma MutualNeedBreaksTheOrder() returns (fs: seq<Fleet>, ops: seq<Operation>)
    ensures Run(fs, ops) && |fs| == 12 && |ops| == 11 && ops[10].Shutdown?
    ensures
      var ms := fs[10].modules;
      var g := DependencyGraph(ms, Holding(ms));
      && !Acyclic(g)
      && (exists order :: StopsInOrder(ms, order) && fs[11] == Halted(fs[10], ops[10].stops, order, |order|))
      && (forall order :: StopsInOrder(ms, order) ==> !ConsumersBeforeProviders(g, order))
  {
    hide Run, Step, Halted, ConsumersBeforeProviders, DependencyGraph, Acyclic, BothIsolated, Greedy;
    fs, ops := RevivalIsReachable();
    LiveCycle();
    NoOrderServes(BothIsolated());
    var g := ShutsDown(fs[10], AllStop());
    Continues(fs, ops, Shutdown(AllStop()), g);
    fs, ops := fs + [g], ops + [Shutdown(AllStop())];
  }
}
