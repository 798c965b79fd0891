/** The values of the affinity registry, rendezvous selection, and the registry's transitions. */
module AffinityModel {
  import opened Words
  import opened ByteOrder
  import opened BigEndian

  const MAX_CANDIDATE_BYTES: nat := 128
  const MAX_BINDINGS: nat := 131072
  const MAX_CANDIDATES: nat := 131072
  const MAX_TTL_SECONDS: nat := 2_592_000

  datatype AffinityErrorCode =
    | EmptyCandidateSet
    | TooManyCandidates
    | CapacityExceeded
    | InvalidTtl
    | GenerationConflict
    | EpochConflict
    | TenantMismatch
    | VersionExhausted

  datatype AffinityScope = User | Session | SessionFamily

  function Tag(scope: AffinityScope): u8 {
    match scope
    case User => 0
    case Session => 1
    case SessionFamily => 2
  }

  type OpaqueId = t: Text | |t| == 32 witness seq(32, _ => 0)

  predicate ValidCandidate(t: Text) {
    0 < |t| <= MAX_CANDIDATE_BYTES && forall i :: 0 <= i < |t| ==> 0x20 <= t[i] < 0x7F
  }

  type CandidateId = t: Text | ValidCandidate(t) witness [0x61]

  datatype AffinityKey = AffinityKey(tenantId: Text, scope: AffinityScope, id: OpaqueId, epoch: u64)

  datatype AffinityBinding = AffinityBinding(key: AffinityKey, candidate: CandidateId, expiresAt: u64)

  datatype RegistryState = RegistryState(
    tenantId: Text, generation: u64, epoch: u64, bindings: map<AffinityKey, AffinityBinding>)

  // ---------- Rendezvous selection ----------

  /** The bytes whose digest ranks a candidate for a key. */
  function SelectPreimage(key: AffinityKey, candidate: CandidateId): Text {
    Ascii("ariadnion-affinity-select-v1") + [0] + [Tag(key.scope)] + Be64(key.epoch) + key.id
    + Be16(|candidate|) + candidate
  }

  /** For one key, different candidates are hashed from different bytes. */
  lemma SelectPreimageInjective(key: AffinityKey, a: CandidateId, b: CandidateId)
    requires SelectPreimage(key, a) == SelectPreimage(key, b)
    ensures a == b
  {
    var prefix := Ascii("ariadnion-affinity-select-v1") + [0] + [Tag(key.scope)] + Be64(key.epoch) + key.id;
    assert SelectPreimage(key, a) == prefix + (Be16(|a|) + a);
    assert SelectPreimage(key, b) == prefix + (Be16(|b|) + b);
    SplitEqual(prefix, Be16(|a|) + a, prefix, Be16(|b|) + b);
    SplitEqual(Be16(|a|), a, Be16(|b|), b);
  }

  function Score(sha256: Text -> Text, key: AffinityKey, candidate: CandidateId): Text {
    sha256(SelectPreimage(key, candidate))
  }

  /** Index `i` holds the least score, and the first one among equals. */
  ghost predicate Wins(sha256: Text -> Text, key: AffinityKey, candidates: seq<CandidateId>, i: nat) {
    && i < |candidates|
    && (forall j :: 0 <= j < |candidates| ==>
        !Less(Score(sha256, key, candidates[j]), Score(sha256, key, candidates[i])))
    && (forall j :: 0 <= j < i ==> Less(Score(sha256, key, candidates[i]), Score(sha256, key, candidates[j])))
  }

  lemma WinsUnique(sha256: Text -> Text, key: AffinityKey, candidates: seq<CandidateId>, i: nat, j: nat)
    requires Wins(sha256, key, candidates, i) && Wins(sha256, key, candidates, j)
    ensures i == j
  {
    var a, b := candidates[i], candidates[j];
  }

  lemma {:induction false} WinnerExists(sha256: Text -> Text, key: AffinityKey, candidates: seq<CandidateId>)
    requires candidates != []
    ensures exists i :: Wins(sha256, key, candidates, i)
  {
    var last := |candidates| - 1;
    var before := candidates[..last];
    if before == [] {
      LessIrreflexive(Score(sha256, key, candidates[0]));
      assert Wins(sha256, key, candidates, 0);
    } else {
      WinnerExists(sha256, key, before);
      var i :| Wins(sha256, key, before, i);
      WinsExtend(sha256, key, candidates, last, i);
    }
  }

  /** How the leader among the first `n` candidates changes when the next one is looked at. */
  lemma WinsExtend(sha256: Text -> Text, key: AffinityKey, candidates: seq<CandidateId>, n: nat, i: nat)
    requires n < |candidates| && Wins(sha256, key, candidates[..n], i)
    ensures
      if Less(Score(sha256, key, candidates[n]), Score(sha256, key, candidates[i]))
      then Wins(sha256, key, candidates[..n + 1], n) else Wins(sha256, key, candidates[..n + 1], i)
    ensures candidates[..n + 1] == candidates || n + 1 < |candidates|
  {
    var more := candidates[..n + 1];
    var s := Score(sha256, key, candidates[n]);
    var t := Score(sha256, key, candidates[i]);
    assert n + 1 == |candidates| ==> more == candidates;
    assert forall j :: 0 <= j < n ==> more[j] == candidates[..n][j];
    if Less(s, t) {
      LessIrreflexive(s);
      forall j | 0 <= j < n ensures Less(s, Score(sha256, key, more[j])) && !Less(Score(sha256, key, more[j]), s) {
        var u := Score(sha256, key, candidates[..n][j]);
        LessTotal(t, u);
        if t != u {
          LessTransitive(s, t, u);
        }
        LessAsymmetric(s, u);
      }
    }
  }

  ghost function Winner(sha256: Text -> Text, key: AffinityKey, candidates: seq<CandidateId>): (i: nat)
    requires candidates != []
    ensures Wins(sha256, key, candidates, i)
  {
    WinnerExists(sha256, key, candidates);
    var i :| Wins(sha256, key, candidates, i);
    i
  }

  ghost function Chosen(sha256: Text -> Text, key: AffinityKey, candidates: seq<CandidateId>): CandidateId
    requires candidates != []
  {
    candidates[Winner(sha256, key, candidates)]
  }

  /** Different candidates among those offered get different scores. */
  ghost predicate CollisionFree(sha256: Text -> Text, key: AffinityKey, candidates: seq<CandidateId>) {
    forall a, b :: a in candidates && b in candidates && a != b ==> Score(sha256, key, a) != Score(sha256, key, b)
  }

  // ---------- Operations ----------

  predicate Live(binding: AffinityBinding, key: AffinityKey, now: u64) {
    binding.key == key && binding.expiresAt > now
  }

  function Unexpired(bindings: map<AffinityKey, AffinityBinding>, now: u64): map<AffinityKey, AffinityBinding> {
    map k | k in bindings && bindings[k].expiresAt > now :: bindings[k]
  }

  function CandidatesError(candidates: seq<CandidateId>): Option<AffinityErrorCode> {
    if |candidates| == 0 then Some(EmptyCandidateSet)
    else if |candidates| > MAX_CANDIDATES then Some(TooManyCandidates)
    else None
  }

  function KeyError(s: RegistryState, key: AffinityKey): Option<AffinityErrorCode> {
    if key.tenantId != s.tenantId then Some(TenantMismatch)
    else if key.epoch != s.epoch then Some(EpochConflict)
    else None
  }

  /** The sticky candidate when its binding is live and still offered, the rendezvous choice otherwise. */
  ghost function Preferred(sha256: Text -> Text, s: RegistryState, key: AffinityKey, candidates: seq<CandidateId>,
                           now: u64): CandidateId
    requires candidates != []
  {
    if key in s.bindings && Live(s.bindings[key], key, now) && s.bindings[key].candidate in candidates
    then s.bindings[key].candidate
    else Chosen(sha256, key, candidates)
  }

  ghost function Select(sha256: Text -> Text, s: RegistryState, key: AffinityKey, candidates: seq<CandidateId>,
                        now: u64): Result<CandidateId, AffinityErrorCode>
  {
    if CandidatesError(candidates).Some? then Err(CandidatesError(candidates).value)
    else if KeyError(s, key).Some? then Err(KeyError(s, key).value)
    else Ok(Preferred(sha256, s, key, candidates, now))
  }

  /** Pruning expired bindings does not change what is preferred. */
  lemma PreferredAfterPrune(sha256: Text -> Text, s: RegistryState, key: AffinityKey, candidates: seq<CandidateId>,
                            now: u64)
    requires candidates != []
    ensures Preferred(sha256, s.(bindings := Unexpired(s.bindings, now)), key, candidates, now)
            == Preferred(sha256, s, key, candidates, now)
  {
  }

  /** Why an assignment is refused, if it is. */
  ghost function AssignError(s: RegistryState, key: AffinityKey, candidates: seq<CandidateId>, now: u64,
                             ttl: u64): Option<AffinityErrorCode>
  {
    if CandidatesError(candidates).Some? then CandidatesError(candidates)
    else if ttl == 0 || ttl > MAX_TTL_SECONDS then Some(InvalidTtl)
    else if now + ttl > U64_MAX then Some(VersionExhausted)
    else if KeyError(s, key).Some? then KeyError(s, key)
    else if s.generation == U64_MAX then Some(VersionExhausted)
    else if key !in Unexpired(s.bindings, now) && |Unexpired(s.bindings, now)| >= MAX_BINDINGS
      then Some(CapacityExceeded)
    else None
  }

  /** The registry after a successful assignment: expired bindings gone, the new one in, one generation later. */
  ghost function Assigned(sha256: Text -> Text, s: RegistryState, key: AffinityKey, candidates: seq<CandidateId>,
                          now: u64, ttl: u64): (RegistryState, AffinityBinding)
    requires AssignError(s, key, candidates, now, ttl).None?
  {
    var binding := AffinityBinding(key, Preferred(sha256, s, key, candidates, now), now + ttl);
    (s.(generation := s.generation + 1, bindings := Unexpired(s.bindings, now)[key := binding]), binding)
  }

  /** Refused assignments leave the registry as it was. */
  ghost function Assign(sha256: Text -> Text, s: RegistryState, key: AffinityKey, candidates: seq<CandidateId>,
                        now: u64, ttl: u64): (RegistryState, Result<AffinityBinding, AffinityErrorCode>)
  {
    match AssignError(s, key, candidates, now, ttl)
    case Some(e) => (s, Err(e))
    case None =>
      var (s', binding) := Assigned(sha256, s, key, candidates, now, ttl);
      (s', Ok(binding))
  }

  function Expire(s: RegistryState, now: u64): (RegistryState, Result<nat, AffinityErrorCode>) {
    var kept := Unexpired(s.bindings, now);
    if kept == s.bindings then (s, Ok(0))
    else if s.generation == U64_MAX then (s, Err(VersionExhausted))
    else (s.(generation := s.generation + 1, bindings := kept),
          Ok(if |kept| <= |s.bindings| then |s.bindings| - |kept| else 0))
  }

  function RotateEpoch(s: RegistryState,
                       expectedGeneration: u64): (RegistryState, Result<(u64, u64), AffinityErrorCode>)
  {
    if s.generation != expectedGeneration then (s, Err(GenerationConflict))
    else if s.epoch == U64_MAX || s.generation == U64_MAX then (s, Err(VersionExhausted))
    else (RegistryState(s.tenantId, s.generation + 1, s.epoch + 1, map[]), Ok((s.epoch + 1, s.generation + 1)))
  }

  // ---------- The invariant ----------

  /** Bindings sit under their own key, belong to this tenant and epoch, and are within capacity. */
  ghost predicate Inv(s: RegistryState) {
    && |s.bindings| <= MAX_BINDINGS
    && forall k :: k in s.bindings ==> s.bindings[k].key == k && k.tenantId == s.tenantId && k.epoch == s.epoch
  }

  lemma UnexpiredSmaller(bindings: map<AffinityKey, AffinityBinding>, now: u64)
    ensures |Unexpired(bindings, now)| <= |bindings|
    ensures |Unexpired(bindings, now)| == |bindings| ==> Unexpired(bindings, now) == bindings
  {
    var kept := Unexpired(bindings, now);
    assert kept.Keys <= bindings.Keys;
    assert bindings.Keys == kept.Keys + (bindings.Keys - kept.Keys);
    assert |bindings.Keys| == |kept.Keys| + |bindings.Keys - kept.Keys|;
    if |kept| == |bindings| {
      assert bindings.Keys - kept.Keys == {};
      assert kept.Keys == bindings.Keys;
    }
  }

  lemma NothingExpired(bindings: map<AffinityKey, AffinityBinding>, now: u64)
    ensures Unexpired(bindings, now) == bindings <==> forall k :: k in bindings ==> bindings[k].expiresAt > now
  {
    if forall k :: k in bindings ==> bindings[k].expiresAt > now {
      assert Unexpired(bindings, now) == bindings;
    }
  }

  predicate AnyDue(bindings: map<AffinityKey, AffinityBinding>, now: u64) {
    exists k :: k in bindings && bindings[k].expiresAt <= now
  }

  /** Pruning makes the table smaller exactly when something has expired. */
  lemma PrunedCount(bindings: map<AffinityKey, AffinityBinding>, now: u64)
    ensures AnyDue(bindings, now) ==> |Unexpired(bindings, now)| < |bindings| && Unexpired(bindings, now) != bindings
    ensures !AnyDue(bindings, now) ==> Unexpired(bindings, now) == bindings
  {
    UnexpiredSmaller(bindings, now);
    NothingExpired(bindings, now);
  }

  lemma InsertedSize(bindings: map<AffinityKey, AffinityBinding>, key: AffinityKey, binding: AffinityBinding)
    ensures |bindings[key := binding]| == |bindings| + if key in bindings then 0 else 1
  {
    var inserted := bindings[key := binding];
    if key in bindings {
      assert inserted.Keys == bindings.Keys;
      assert |inserted| == |inserted.Keys| == |bindings.Keys|;
    } else {
      assert inserted.Keys == bindings.Keys + {key};
      assert |inserted| == |inserted.Keys| == |bindings.Keys| + 1;
    }
  }

  lemma PrunedInv(s: RegistryState, now: u64)
    requires Inv(s)
    ensures Inv(s.(bindings := Unexpired(s.bindings, now)))
  {
    UnexpiredSmaller(s.bindings, now);
  }

  lemma InsertedInv(s: RegistryState, key: AffinityKey, binding: AffinityBinding, generation: u64)
    requires Inv(s) && KeyError(s, key).None? && binding.key == key
    requires key in s.bindings || |s.bindings| < MAX_BINDINGS
    ensures Inv(s.(generation := generation, bindings := s.bindings[key := binding]))
  {
    InsertedSize(s.bindings, key, binding);
  }

  lemma AssignInv(sha256: Text -> Text, s: RegistryState, key: AffinityKey, candidates: seq<CandidateId>, now: u64,
                  ttl: u64)
    requires Inv(s)
    ensures Inv(Assign(sha256, s, key, candidates, now, ttl).0)
  {
    hide Inv, Unexpired, Preferred;
    if AssignError(s, key, candidates, now, ttl).None? {
      PrunedInv(s, now);
      var (s', binding) := Assigned(sha256, s, key, candidates, now, ttl);
      InsertedInv(s.(bindings := Unexpired(s.bindings, now)), key, binding, s.generation + 1);
    }
  }

  lemma ExpireInv(s: RegistryState, now: u64)
    requires Inv(s)
    ensures Inv(Expire(s, now).0)
  {
    UnexpiredSmaller(s.bindings, now);
  }
}
