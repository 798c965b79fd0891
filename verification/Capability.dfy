/** Capability requirements, the providers registered for them, and their resolution. */
module Capability {
  import opened Words

  const MAX_GRAPH_CAPABILITIES: nat := 256

  datatype CoreErrorCode =
    InvalidArgument | Conflict | Cancelled | DeadlineExceeded | Unavailable | ResourceExhausted | Internal

  datatype ModuleVersion = ModuleVersion(major: u16, minor: u16, patch: u16)

  /** The lexicographic order of semantic versions. */
  predicate AtLeast(a: ModuleVersion, b: ModuleVersion) {
    || a.major > b.major
    || (a.major == b.major && (a.minor > b.minor || (a.minor == b.minor && a.patch >= b.patch)))
  }

  datatype CapabilityRequirement = CapabilityRequirement(id: Text, minimum: ModuleVersion, maximumMajor: Option<u16>)
  {
    predicate Accepts(version: ModuleVersion) {
      AtLeast(version, minimum) && (maximumMajor.Some? ==> version.major <= maximumMajor.value)
    }
  }

  datatype CapabilityProvider = CapabilityProvider(id: Text, version: ModuleVersion, moduleId: Text)

  datatype CapabilityBinding = CapabilityBinding(requirement: CapabilityRequirement, provider: CapabilityProvider)

  /** Versions as numbers: major, minor and patch are its digits. */
  function VersionRank(v: ModuleVersion): nat {
    (v.major * 0x1_0000 + v.minor) * 0x1_0000 + v.patch
  }

  /** A version is accepted from the minimum on and up to the last major version allowed. */
  lemma AcceptedVersions(requirement: CapabilityRequirement, version: ModuleVersion)
    ensures requirement.Accepts(version) <==>
            && VersionRank(requirement.minimum) <= VersionRank(version)
            && forall last :: requirement.maximumMajor == Some(last) ==> version.major <= last
  {
    assert requirement.maximumMajor.Some? ==> requirement.maximumMajor == Some(requirement.maximumMajor.value);
  }

  /** No two providers offer the same capability. */
  ghost predicate UniqueIds(providers: seq<CapabilityProvider>) {
    forall i, j :: 0 <= i < j < |providers| ==> providers[i].id != providers[j].id
  }

  ghost predicate WithinLimits(providers: seq<CapabilityProvider>) {
    UniqueIds(providers) && |providers| <= MAX_GRAPH_CAPABILITIES
  }

  /** A batch is accepted whole or not at all; acceptance is exactly that the invariant survives. */
  ghost function Registered(providers: seq<CapabilityProvider>, batch: seq<CapabilityProvider>)
    : Result<seq<CapabilityProvider>, CoreErrorCode>
  {
    if |providers| + |batch| > MAX_GRAPH_CAPABILITIES then Err(ResourceExhausted)
    else if !UniqueIds(providers + batch) then Err(Conflict)
    else Ok(providers + batch)
  }

  /** A requirement is met by a provider of that capability with an accepted version. */
  ghost predicate Meets(providers: seq<CapabilityProvider>, requirement: CapabilityRequirement, p: CapabilityProvider) {
    p in providers && p.id == requirement.id && requirement.Accepts(p.version)
  }

  ghost predicate Met(providers: seq<CapabilityProvider>, requirement: CapabilityRequirement) {
    exists p :: Meets(providers, requirement, p)
  }

  ghost predicate Offered(providers: seq<CapabilityProvider>, id: Text) {
    exists p :: p in providers && p.id == id
  }

  /** Each requirement in turn is bound to a provider that meets it. */
  ghost predicate Binds(providers: seq<CapabilityProvider>, requirements: seq<CapabilityRequirement>,
                        bindings: seq<CapabilityBinding>) {
    && |bindings| == |requirements|
    && forall i :: 0 <= i < |bindings| ==>
                     bindings[i].requirement == requirements[i]
                       && Meets(providers, requirements[i], bindings[i].provider)
  }

  /** The first requirement that no provider meets, and why. */
  ghost predicate FailsAt(providers: seq<CapabilityProvider>, requirements: seq<CapabilityRequirement>, k: nat,
                          error: CoreErrorCode)
    requires k < |requirements|
  {
    && (forall i :: 0 <= i < k ==> Met(providers, requirements[i]))
    && !Met(providers, requirements[k])
    && error == if Offered(providers, requirements[k].id) then Conflict else Unavailable
  }

  ghost function FirstOffering(providers: seq<CapabilityProvider>, id: Text): Option<CapabilityProvider> {
    if providers == [] then None
    else if providers[0].id == id then Some(providers[0])
    else FirstOffering(providers[1..], id)
  }

  ghost function Bound(providers: seq<CapabilityProvider>, requirement: CapabilityRequirement)
    : Result<CapabilityBinding, CoreErrorCode>
  {
    match FirstOffering(providers, requirement.id)
    case None => Err(Unavailable)
    case Some(p) => if requirement.Accepts(p.version) then Ok(CapabilityBinding(requirement, p)) else Err(Conflict)
  }

  /** Requirements are bound in order; the first that cannot be bound decides the error. */
  ghost function Bindings(providers: seq<CapabilityProvider>, requirements: seq<CapabilityRequirement>)
    : Result<seq<CapabilityBinding>, CoreErrorCode>
  {
    if requirements == [] then Ok([])
    else
      var last := |requirements| - 1;
      match Bindings(providers, requirements[..last])
      case Err(e) => Err(e)
      case Ok(before) =>
        match Bound(providers, requirements[last])
        case Err(e) => Err(e)
        case Ok(b) => Ok(before + [b])
  }

  ghost function Resolution(providers: seq<CapabilityProvider>, requirements: seq<CapabilityRequirement>)
    : Result<seq<CapabilityBinding>, CoreErrorCode>
  {
    if |requirements| > MAX_GRAPH_CAPABILITIES then Err(ResourceExhausted) else Bindings(providers, requirements)
  }

  class CapabilityGraph {
    var providers: seq<CapabilityProvider>

    ghost predicate Valid()
      reads this
    {
      WithinLimits(providers)
    }

    constructor ()
      ensures Valid() && providers == []
    {
      providers := [];
    }

    method RegisterBatch(batch: seq<CapabilityProvider>) returns (r: Result<(), CoreErrorCode>)
      requires Valid()
      modifies this
      ensures Valid()
      ensures var expected := Registered(old(providers), batch);
              && (r == if expected.Ok? then Ok(()) else Err(expected.error))
              && providers == if expected.Ok? then expected.value else old(providers)
    {
      if |batch| > MAX_GRAPH_CAPABILITIES - |providers| {
        return Err(ResourceExhausted);
      }
      var existing := HasExistingProvider(providers, batch);
      var duplicate := HasBatchDuplicate(batch);
      UniqueTogether(providers, batch);
      if existing || duplicate {
        return Err(Conflict);
      }
      providers := providers + batch;
      r := Ok(());
    }

    method Resolve(requirements: seq<CapabilityRequirement>) returns (r: Result<seq<CapabilityBinding>, CoreErrorCode>)
      ensures r == Resolution(providers, requirements)
    {
      if |requirements| > MAX_GRAPH_CAPABILITIES {
        return Err(ResourceExhausted);
      }
      var bindings: seq<CapabilityBinding> := [];
      for i := 0 to |requirements|
        invariant Bindings(providers, requirements[..i]) == Ok(bindings)
      {
        var requirement := requirements[i];
        var found := FindProvider(providers, requirement.id);
        assert requirements[..i + 1][..i] == requirements[..i];
        if found.None? {
          BindingsFail(providers, requirements, i + 1);
          return Err(Unavailable);
        }
        if !requirement.Accepts(found.value.version) {
          BindingsFail(providers, requirements, i + 1);
          return Err(Conflict);
        }
        bindings := bindings + [CapabilityBinding(requirement, found.value)];
      }
      assert requirements[..|requirements|] == requirements;
      r := Ok(bindings);
    }
  }

  lemma {:induction false} BindingsFail(providers: seq<CapabilityProvider>, requirements: seq<CapabilityRequirement>,
                                        k: nat)
    requires k <= |requirements| && Bindings(providers, requirements[..k]).Err?
    ensures Bindings(providers, requirements) == Bindings(providers, requirements[..k])
  {
    if k == |requirements| {
      assert requirements[..k] == requirements;
    } else {
      var fewer := requirements[..|requirements| - 1];
      assert fewer[..k] == requirements[..k];
      BindingsFail(providers, fewer, k);
    }
  }

  method HasExistingProvider(existing: seq<CapabilityProvider>, incoming: seq<CapabilityProvider>) returns (r: bool)
    ensures r <==> exists i, j :: 0 <= i < |existing| && 0 <= j < |incoming| && existing[i].id == incoming[j].id
  {
    for j := 0 to |incoming|
      invariant forall i, b :: 0 <= i < |existing| && 0 <= b < j ==> existing[i].id != incoming[b].id
    {
      for i := 0 to |existing|
        invariant forall a :: 0 <= a < i ==> existing[a].id != incoming[j].id
      {
        if existing[i].id == incoming[j].id {
          return true;
        }
      }
    }
    r := false;
  }

  method HasBatchDuplicate(batch: seq<CapabilityProvider>) returns (r: bool)
    ensures r <==> !UniqueIds(batch)
  {
    for i := 0 to |batch|
      invariant forall a, b :: 0 <= a < i && a < b < |batch| ==> batch[a].id != batch[b].id
    {
      for j := i + 1 to |batch|
        invariant forall b :: i < b < j ==> batch[i].id != batch[b].id
      {
        if batch[i].id == batch[j].id {
          return true;
        }
      }
    }
    r := false;
  }

  method FindProvider(providers: seq<CapabilityProvider>, id: Text) returns (r: Option<CapabilityProvider>)
    ensures r == FirstOffering(providers, id)
  {
    assert providers[0..] == providers;
    for i := 0 to |providers|
      invariant FirstOffering(providers[i..], id) == FirstOffering(providers, id)
    {
      if providers[i].id == id {
        return Some(providers[i]);
      }
      assert providers[i..][1..] == providers[i + 1..];
    }
    r := None;
  }

  lemma UniqueTogether(providers: seq<CapabilityProvider>, batch: seq<CapabilityProvider>)
    requires UniqueIds(providers)
    ensures UniqueIds(providers + batch) <==>
            && UniqueIds(batch)
            && forall i, j :: 0 <= i < |providers| && 0 <= j < |batch| ==> providers[i].id != batch[j].id
  {
    var all := providers + batch;
    if UniqueIds(all) {
      forall i, j | 0 <= i < |providers| && 0 <= j < |batch| ensures providers[i].id != batch[j].id {
        assert all[i] == providers[i] && all[|providers| + j] == batch[j];
      }
      forall i, j | 0 <= i < j < |batch| ensures batch[i].id != batch[j].id {
        assert all[|providers| + i] == batch[i] && all[|providers| + j] == batch[j];
      }
    }
  }

  // ---------- Properties ----------

  lemma {:induction false} FirstOfferingSound(providers: seq<CapabilityProvider>, id: Text)
    ensures var r := FirstOffering(providers, id);
            && (r.Some? <==> Offered(providers, id))
            && (r.Some? ==> r.value in providers && r.value.id == id)
  {
    if providers != [] {
      FirstOfferingSound(providers[1..], id);
      assert providers == [providers[0]] + providers[1..];
      if Offered(providers, id) && providers[0].id != id {
        var p :| p in providers && p.id == id;
        assert p in providers[1..];
      }
      if Offered(providers[1..], id) {
        var p :| p in providers[1..] && p.id == id;
        assert p in providers;
      }
      if providers[0].id == id {
        assert providers[0] in providers;
      }
    }
  }

  /** Identities being unique, the provider that is found is the only one that could be meant. */
  lemma BoundExact(providers: seq<CapabilityProvider>, requirement: CapabilityRequirement, p: CapabilityProvider)
    requires UniqueIds(providers)
    ensures Meets(providers, requirement, p) <==> Bound(providers, requirement) == Ok(CapabilityBinding(requirement, p))
    ensures Bound(providers, requirement).Err? ==>
              Bound(providers, requirement).error ==
              if Offered(providers, requirement.id) then Conflict else Unavailable
  {
    FirstOfferingSound(providers, requirement.id);
  }

  /** Resolution succeeds exactly when every requirement is met, and then it is the only possible binding. */
  lemma {:induction false} ResolutionExact(providers: seq<CapabilityProvider>, requirements: seq<CapabilityRequirement>,
                                           bindings: seq<CapabilityBinding>)
    requires UniqueIds(providers)
    ensures Bindings(providers, requirements) == Ok(bindings) <==> Binds(providers, requirements, bindings)
  {
    if requirements != [] {
      var last := |requirements| - 1;
      if bindings != [] {
        var before := bindings[..|bindings| - 1];
        ResolutionExact(providers, requirements[..last], before);
        BoundExact(providers, requirements[last], bindings[|bindings| - 1].provider);
        assert bindings == before + [bindings[|bindings| - 1]];
        BindsExtends(providers, requirements, bindings);
      }
    }
  }

  /**
   * Beyond the limit nothing is resolved; within it, resolution answers with the one possible binding if there is one.
   */
  lemma ResolutionAnswer(providers: seq<CapabilityProvider>, requirements: seq<CapabilityRequirement>)
    requires UniqueIds(providers)
    ensures
      var r := Resolution(providers, requirements);
      && (|requirements| > 256 ==> r == Err(ResourceExhausted))
      && (|requirements| <= 256 ==>
            && (r.Ok? <==> exists bindings :: Binds(providers, requirements, bindings))
            && (r.Ok? ==> Binds(providers, requirements, r.value))
            && (r.Err? ==> exists k: nat :: k < |requirements| && FailsAt(providers, requirements, k, r.error)))
  {
    hide Bindings, Binds, FailsAt;
    forall bindings
      ensures Binds(providers, requirements, bindings) <==> Bindings(providers, requirements) == Ok(bindings)
    {
      ResolutionExact(providers, requirements, bindings);
    }
    if Bindings(providers, requirements).Err? {
      var k := ResolutionFailure(providers, requirements);
    }
  }

  lemma BindsExtends(providers: seq<CapabilityProvider>, requirements: seq<CapabilityRequirement>,
                     bindings: seq<CapabilityBinding>)
    requires requirements != [] && bindings != []
    ensures
      var last := |requirements| - 1;
      var b := bindings[|bindings| - 1];
      Binds(providers, requirements, bindings) <==>
      && Binds(providers, requirements[..last], bindings[..|bindings| - 1])
      && b.requirement == requirements[last] && Meets(providers, requirements[last], b.provider)
  {
    var last := |requirements| - 1;
    if |bindings| == |requirements| {
      assert forall i :: 0 <= i < last ==>
               requirements[..last][i] == requirements[i] && bindings[..last][i] == bindings[i];
    }
  }

  /**
   * A failed resolution names the first requirement nobody meets: `Conflict` on a wrong version, `Unavailable` on
   * absence.
   */
  lemma {:induction false} ResolutionFailure(providers: seq<CapabilityProvider>,
                                             requirements: seq<CapabilityRequirement>)
      returns (k: nat)
    requires UniqueIds(providers) && Bindings(providers, requirements).Err?
    ensures k < |requirements| && FailsAt(providers, requirements, k, Bindings(providers, requirements).error)
  {
    var last := |requirements| - 1;
    if Bindings(providers, requirements[..last]).Err? {
      k := ResolutionFailure(providers, requirements[..last]);
      assert forall i :: 0 <= i <= k ==> requirements[..last][i] == requirements[i];
    } else {
      k := last;
      var before := Bindings(providers, requirements[..last]).value;
      ResolutionExact(providers, requirements[..last], before);
      forall i | 0 <= i < k ensures Met(providers, requirements[i]) {
        assert Meets(providers, requirements[..last][i], before[i].provider);
      }
      forall p ensures !Meets(providers, requirements[k], p) {
        BoundExact(providers, requirements[k], p);
      }
      FirstOfferingSound(providers, requirements[k].id);
    }
  }
}
