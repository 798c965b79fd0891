/** What selection depends on, and what each command does to the registry, stated on keys, bindings and instants. */
module AffinityEffects {
  import opened Words
  import opened ByteOrder
  import opened BigEndian
  import opened AffinityModel
  import opened AffinityRuns

  // ---------- What is hashed ----------

  /** The keys agree in all that is hashed of them: everything but the tenant, which the registry fixes. */
  predicate HashedAlike(k: AffinityKey, l: AffinityKey) {
    k.scope == l.scope && k.epoch == l.epoch && k.id == l.id
  }

  /**
   * Two pairs of key and candidate are hashed from the same bytes exactly when scope, epoch, id and candidate agree.
   */
  lemma PreimageDeterminesKey(k: AffinityKey, a: CandidateId, l: AffinityKey, b: CandidateId)
    ensures SelectPreimage(k, a) == SelectPreimage(l, b) <==> HashedAlike(k, l) && a == b
  {
    if SelectPreimage(k, a) == SelectPreimage(l, b) {
      PreimageParts(k, a);
      PreimageParts(l, b);
      BeInjective();
    }
  }

  const DOMAIN: Text := Ascii("ariadnion-affinity-select-v1") + [0]

  /** Where each part of what is hashed stands: domain, scope, epoch, id, length and candidate. */
  lemma PreimageParts(key: AffinityKey, candidate: CandidateId)
    ensures |SelectPreimage(key, candidate)| == 72 + |candidate|
    ensures
      var p := SelectPreimage(key, candidate);
      && p[..29] == DOMAIN
      && p[29] == (match key.scope case User => 0 case Session => 1 case SessionFamily => 2)
      && p[30..38] == Be64(key.epoch) && p[38..70] == key.id
      && p[70..72] == Be16(|candidate|) && p[72..] == candidate
  {
  }

  /** A digest without collisions on what is offered scores no two pairs alike but those hashed from the same bytes. */
  lemma NoTwoAlike(sha256: Text -> Text, keys: set<AffinityKey>, candidates: seq<CandidateId>, k: AffinityKey,
                   a: CandidateId, l: AffinityKey, b: CandidateId)
    requires forall k, a, l, b ::
               && k in keys && l in keys && a in candidates && b in candidates
               && sha256(SelectPreimage(k, a)) == sha256(SelectPreimage(l, b))
               ==> SelectPreimage(k, a) == SelectPreimage(l, b)
    requires k in keys && l in keys && a in candidates && b in candidates
    ensures Score(sha256, k, a) == Score(sha256, l, b) <==> HashedAlike(k, l) && a == b
  {
    PreimageDeterminesKey(k, a, l, b);
  }

  /** Favours one candidate for one key and another for another, and scores all else higher. */
  function Favouring(x: Text, y: Text): Text -> Text {
    (t: Text) => if t == x || t == y then [0] else [1]
  }

  lemma FavouredIsChosen(sha256: Text -> Text, key: AffinityKey, candidates: seq<CandidateId>, a: CandidateId)
    requires a in candidates && Score(sha256, key, a) == [0]
    requires forall c :: c in candidates && c != a ==> Score(sha256, key, c) == [1]
    ensures Chosen(sha256, key, candidates) == a
  {
    var w := Chosen(sha256, key, candidates);
    var i :| 0 <= i < |candidates| && candidates[i] == a;
    assert !Less(Score(sha256, key, candidates[i]), Score(sha256, key, w));
  }

  /** Keys that differ in what is hashed are ranked independently: some digest gives each its own candidate. */
  lemma KeysChooseIndependently(k: AffinityKey, l: AffinityKey, candidates: seq<CandidateId>, a: CandidateId,
                                b: CandidateId)
      returns (sha256: Text -> Text)
    requires !HashedAlike(k, l) && a in candidates && b in candidates
    ensures Chosen(sha256, k, candidates) == a && Chosen(sha256, l, candidates) == b
  {
    sha256 := Favouring(SelectPreimage(k, a), SelectPreimage(l, b));
    forall c: CandidateId ensures (Score(sha256, k, c) == if c == a then [0] else [1]) {
      PreimageDeterminesKey(k, c, k, a);
      PreimageDeterminesKey(k, c, l, b);
    }
    forall c: CandidateId ensures (Score(sha256, l, c) == if c == b then [0] else [1]) {
      PreimageDeterminesKey(l, c, k, a);
      PreimageDeterminesKey(l, c, l, b);
    }
    FavouredIsChosen(sha256, k, candidates, a);
    FavouredIsChosen(sha256, l, candidates, b);
  }

  // ---------- Selection ----------

  /** The candidate at `i` scores least, and everything before it scores more. */
  ghost predicate RanksFirst(sha256: Text -> Text, key: AffinityKey, candidates: seq<CandidateId>, i: nat) {
    && i < |candidates|
    && forall j :: 0 <= j < |candidates| && j != i ==>
         var mine, other := sha256(SelectPreimage(key, candidates[i])), sha256(SelectPreimage(key, candidates[j]));
         if j < i then Less(mine, other) else mine == other || Less(mine, other)
  }

  /** The key has a binding that has not expired and whose candidate is still offered. */
  predicate HeldBy(s: RegistryState, key: AffinityKey, candidates: seq<CandidateId>, now: u64, c: CandidateId) {
    key in s.bindings && now < s.bindings[key].expiresAt && s.bindings[key].candidate == c && c in candidates
  }

  /** What selection answers: the bound candidate while it is offered, otherwise the first of the least scored. */
  lemma SelectionAnswer(sha256: Text -> Text, s: RegistryState, key: AffinityKey, candidates: seq<CandidateId>,
                        now: u64)
    requires Inv(s)
    ensures
      var r := Select(sha256, s, key, candidates, now);
      var sized := 0 < |candidates| <= MAX_CANDIDATES;
      var ours := sized && key.tenantId == s.tenantId;
      && (r == Err(EmptyCandidateSet) <==> candidates == [])
      && (r == Err(TooManyCandidates) <==> |candidates| > MAX_CANDIDATES)
      && (r == Err(TenantMismatch) <==> sized && !ours)
      && (r == Err(EpochConflict) <==> ours && key.epoch != s.epoch)
      && (r.Ok? <==> ours && key.epoch == s.epoch)
      && (r.Ok? ==>
            if exists c :: HeldBy(s, key, candidates, now, c) then HeldBy(s, key, candidates, now, r.value)
            else exists i: nat :: RanksFirst(sha256, key, candidates, i) && candidates[i] == r.value)
  {
    if candidates != [] {
      PreferredIs(sha256, s, key, candidates, now);
      hide Preferred, RanksFirst, HeldBy;
    }
  }

  lemma PreferredIs(sha256: Text -> Text, s: RegistryState, key: AffinityKey, candidates: seq<CandidateId>, now: u64)
    requires Inv(s) && candidates != []
    ensures
      var c := Preferred(sha256, s, key, candidates, now);
      if exists c :: HeldBy(s, key, candidates, now, c) then HeldBy(s, key, candidates, now, c)
      else exists i: nat :: RanksFirst(sha256, key, candidates, i) && candidates[i] == c
  {
    if key in s.bindings && now < s.bindings[key].expiresAt && s.bindings[key].candidate in candidates {
      assert HeldBy(s, key, candidates, now, s.bindings[key].candidate);
    } else {
      var w := Winner(sha256, key, candidates);
      WinnerRanksFirst(sha256, key, candidates, w);
      assert Preferred(sha256, s, key, candidates, now) == candidates[w];
    }
  }

  lemma WinnerRanksFirst(sha256: Text -> Text, key: AffinityKey, candidates: seq<CandidateId>, w: nat)
    requires Wins(sha256, key, candidates, w)
    ensures RanksFirst(sha256, key, candidates, w)
  {
    forall j | 0 <= j < |candidates| && j != w
      ensures
        var mine, other := sha256(SelectPreimage(key, candidates[w])), sha256(SelectPreimage(key, candidates[j]));
        if j < w then Less(mine, other) else mine == other || Less(mine, other)
    {
      LessTotal(Score(sha256, key, candidates[w]), Score(sha256, key, candidates[j]));
    }
  }

  // ---------- Assignment ----------

  /** The bindings of `before` that outlive `now`, and no others, are in `after`. */
  ghost predicate OnlyLiveRemain(before: map<AffinityKey, AffinityBinding>, after: map<AffinityKey, AffinityBinding>,
                                 now: u64, except: set<AffinityKey>)
  {
    forall k :: k !in except ==>
      && (k in after <==> k in before && now < before[k].expiresAt)
      && (k in after ==> after[k] == before[k])
  }

  /** What a successful assignment retains, for how long, and what else it leaves. */
  lemma AssignmentEffect(sha256: Text -> Text, s: RegistryState, key: AffinityKey, candidates: seq<CandidateId>,
                         now: u64, ttl: u64)
    requires Inv(s) && Assign(sha256, s, key, candidates, now, ttl).1.Ok?
    ensures
      var (s', r) := Assign(sha256, s, key, candidates, now, ttl);
      && r.value.key == key && r.value.expiresAt == now + ttl
      && Select(sha256, s, key, candidates, now) == Ok(r.value.candidate)
      && key in s'.bindings && s'.bindings[key] == r.value
      && OnlyLiveRemain(s.bindings, s'.bindings, now, {key})
      && s'.generation == s.generation + 1 && s'.epoch == s.epoch && s'.tenantId == s.tenantId
  {
    AssignAgreesWithSelect(sha256, s, key, candidates, now, ttl);
  }

  /** The bindings of other keys that outlive `now`. */
  ghost function LiveOthers(s: RegistryState, key: AffinityKey, now: u64): set<AffinityKey> {
    set k | k in s.bindings && k != key && now < s.bindings[k].expiresAt
  }

  /** Which answer an assignment gets, and that a refused one changes nothing. */
  lemma AssignmentAnswer(sha256: Text -> Text, s: RegistryState, key: AffinityKey, candidates: seq<CandidateId>,
                         now: u64, ttl: u64)
    requires Inv(s)
    ensures
      var (s', r) := Assign(sha256, s, key, candidates, now, ttl);
      var sized := 0 < |candidates| <= MAX_CANDIDATES;
      var timed := sized && 1 <= ttl <= MAX_TTL_SECONDS;
      var ends := timed && now + ttl <= U64_MAX;
      var ours := ends && key.tenantId == s.tenantId;
      var current := ours && key.epoch == s.epoch;
      var counted := current && s.generation < U64_MAX;
      && (r == Err(EmptyCandidateSet) <==> candidates == [])
      && (r == Err(TooManyCandidates) <==> |candidates| > MAX_CANDIDATES)
      && (r == Err(InvalidTtl) <==> sized && !timed)
      && (r == Err(TenantMismatch) <==> ends && !ours)
      && (r == Err(EpochConflict) <==> ours && !current)
      && (r == Err(VersionExhausted) <==> (timed && !ends) || (current && !counted))
      && (r == Err(CapacityExceeded) <==>
          counted && |LiveOthers(s, key, now)| >= MAX_BINDINGS)
      && (r.Ok? <==> counted && |LiveOthers(s, key, now)| < MAX_BINDINGS)
      && (r.Err? ==> s' == s)
  {
    UnexpiredOthers(s, key, now);
    hide Unexpired, Preferred, LiveOthers;
  }

  lemma UnexpiredOthers(s: RegistryState, key: AffinityKey, now: u64)
    requires Inv(s)
    ensures key !in Unexpired(s.bindings, now) ==> |Unexpired(s.bindings, now)| == |LiveOthers(s, key, now)|
    ensures key in Unexpired(s.bindings, now) ==> |LiveOthers(s, key, now)| < MAX_BINDINGS
  {
    UnexpiredSmaller(s.bindings, now);
    OthersCount(s, key, now);
  }

  lemma OthersCount(s: RegistryState, key: AffinityKey, now: u64)
    ensures |Unexpired(s.bindings, now)| ==
              |LiveOthers(s, key, now)| + if key in Unexpired(s.bindings, now) then 1 else 0
  {
    var kept := Unexpired(s.bindings, now);
    var others := LiveOthers(s, key, now);
    assert |kept| == |kept.Keys|;
    assert kept.Keys == if key in kept then others + {key} else others;
  }

  // ---------- Expiry and rotation ----------

  ghost function Lapsed(s: RegistryState, now: u64): set<AffinityKey> {
    set k | k in s.bindings && s.bindings[k].expiresAt <= now
  }

  /**
   * Expiry removes exactly what has lapsed, reports how many, and counts a generation only when there was something.
   */
  lemma ExpiryEffect(s: RegistryState, now: u64)
    ensures
      var (s', r) := Expire(s, now);
      && (r == Err(VersionExhausted) <==> Lapsed(s, now) != {} && s.generation == U64_MAX)
      && (r.Err? ==> r == Err(VersionExhausted) && s' == s)
      && (r.Ok? ==>
            && r.value == |Lapsed(s, now)|
            && OnlyLiveRemain(s.bindings, s'.bindings, now, {})
            && s'.generation == s.generation + (if Lapsed(s, now) == {} then 0 else 1)
            && s'.epoch == s.epoch && s'.tenantId == s.tenantId)
  {
    LapsedCount(s, now);
    if Lapsed(s, now) == {} {
      NothingExpired(s.bindings, now);
    }
  }

  lemma LapsedCount(s: RegistryState, now: u64)
    ensures |Unexpired(s.bindings, now)| + |Lapsed(s, now)| == |s.bindings|
    ensures Lapsed(s, now) == {} <==> Unexpired(s.bindings, now) == s.bindings
  {
    var kept := Unexpired(s.bindings, now);
    assert s.bindings.Keys == kept.Keys + Lapsed(s, now);
    assert |kept.Keys| + |Lapsed(s, now)| == |s.bindings.Keys|;
    NothingExpired(s.bindings, now);
  }

  /** Rotation under the expected generation empties the table and advances both counters by one. */
  lemma RotationEffect(s: RegistryState, expectedGeneration: u64)
    ensures
      var (s', r) := RotateEpoch(s, expectedGeneration);
      var room := s.epoch < U64_MAX && s.generation < U64_MAX;
      && (r == Err(GenerationConflict) <==> expectedGeneration != s.generation)
      && (r == Err(VersionExhausted) <==> expectedGeneration == s.generation && !room)
      && (r.Ok? <==> expectedGeneration == s.generation && room)
      && (r.Err? ==> s' == s)
      && (r.Ok? ==>
            && s'.bindings == map[] && s'.tenantId == s.tenantId
            && s'.epoch == s.epoch + 1 && s'.generation == s.generation + 1
            && r.value == (s'.epoch, s'.generation))
  {
  }
}
