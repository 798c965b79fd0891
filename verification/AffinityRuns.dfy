/**
 * What selection and the registry promise: agreement, order independence, minimal disruption, stickiness, epoch
 * fencing.
 */
module AffinityRuns {
  import opened Words
  import opened ByteOrder
  import opened AffinityModel

  // ---------- Assignment against selection ----------

  /** A successful assignment retains what selection would have returned; a refused one changes nothing. */
  lemma AssignAgreesWithSelect(sha256: Text -> Text, s: RegistryState, key: AffinityKey, candidates: seq<CandidateId>,
                               now: u64, ttl: u64)
    ensures
      var (s', r) := Assign(sha256, s, key, candidates, now, ttl);
      && (r.Ok? ==>
            && Select(sha256, s, key, candidates, now) == Ok(r.value.candidate)
            && (forall later: u64 :: now <= later < now + ttl ==>
                  Select(sha256, s', key, candidates, later) == Ok(r.value.candidate)))
      && (r.Err? ==> s' == s)
  {
    var (s', r) := Assign(sha256, s, key, candidates, now, ttl);
    if r.Ok? {
      PreferredOffered(sha256, s, key, candidates, now);
    }
  }

  lemma PreferredOffered(sha256: Text -> Text, s: RegistryState, key: AffinityKey, candidates: seq<CandidateId>,
                         now: u64)
    requires candidates != []
    ensures Preferred(sha256, s, key, candidates, now) in candidates
  {
  }

  // ---------- Rendezvous properties ----------

  lemma LeastScoreIsChosen(sha256: Text -> Text, key: AffinityKey, candidates: seq<CandidateId>, c: CandidateId)
    requires CollisionFree(sha256, key, candidates) && c in candidates
    requires forall a :: a in candidates && a != c ==> Less(Score(sha256, key, c), Score(sha256, key, a))
    ensures Chosen(sha256, key, candidates) == c
  {
    var w := Chosen(sha256, key, candidates);
    var j :| 0 <= j < |candidates| && candidates[j] == c;
    assert !Less(Score(sha256, key, candidates[j]), Score(sha256, key, w));
  }

  lemma ChosenIsLeast(sha256: Text -> Text, key: AffinityKey, candidates: seq<CandidateId>, a: CandidateId)
    requires CollisionFree(sha256, key, candidates) && a in candidates && a != Chosen(sha256, key, candidates)
    ensures Less(Score(sha256, key, Chosen(sha256, key, candidates)), Score(sha256, key, a))
  {
    var j :| 0 <= j < |candidates| && candidates[j] == a;
    LessTotal(Score(sha256, key, Chosen(sha256, key, candidates)), Score(sha256, key, a));
  }

  /** With collision-free scores, any other list that keeps the choice and offers nothing new chooses it again. */
  lemma ChoiceSurvives(sha256: Text -> Text, key: AffinityKey, candidates: seq<CandidateId>, others: seq<CandidateId>)
    requires candidates != [] && CollisionFree(sha256, key, candidates)
    requires forall c :: c in others ==> c in candidates
    requires Chosen(sha256, key, candidates) in others
    ensures Chosen(sha256, key, others) == Chosen(sha256, key, candidates)
  {
    var c := Chosen(sha256, key, candidates);
    forall a | a in others && a != c ensures Less(Score(sha256, key, c), Score(sha256, key, a)) {
      ChosenIsLeast(sha256, key, candidates, a);
    }
    LeastScoreIsChosen(sha256, key, others, c);
  }

  /** Reordering or repeating candidates does not change the choice. */
  lemma ChoiceIgnoresOrder(sha256: Text -> Text, key: AffinityKey, a: seq<CandidateId>, b: seq<CandidateId>)
    requires a != [] && CollisionFree(sha256, key, a)
    requires forall c :: c in a <==> c in b
    ensures b != []
    ensures Chosen(sha256, key, a) == Chosen(sha256, key, b)
  {
    assert Chosen(sha256, key, a) in b;
    ChoiceSurvives(sha256, key, a, b);
  }

  /** A new candidate can only take keys over for itself. */
  lemma AdditionMovesOnlyToTheNew(sha256: Text -> Text, key: AffinityKey, candidates: seq<CandidateId>,
                                  added: CandidateId)
    requires candidates != [] && CollisionFree(sha256, key, candidates + [added])
    ensures Chosen(sha256, key, candidates + [added]) in {Chosen(sha256, key, candidates), added}
  {
    var more := candidates + [added];
    var w := Chosen(sha256, key, more);
    assert w in more;
    if w != added {
      ChoiceSurvives(sha256, key, more, candidates);
    }
  }

  /** A digest without collisions ranks without ties. */
  lemma CollisionFreeDigest(sha256: Text -> Text, key: AffinityKey, candidates: seq<CandidateId>)
    requires forall a, b :: a in candidates && b in candidates && Score(sha256, key, a) == Score(sha256, key, b) ==>
               SelectPreimage(key, a) == SelectPreimage(key, b)
    ensures CollisionFree(sha256, key, candidates)
  {
    forall a, b | a in candidates && b in candidates && a != b ensures Score(sha256, key, a) != Score(sha256, key, b) {
      if Score(sha256, key, a) == Score(sha256, key, b) {
        assert SelectPreimage(key, a) == SelectPreimage(key, b);
        SelectPreimageInjective(key, a, b);
      }
    }
  }

  // ---------- Runs ----------

  datatype Command =
    | AssignCommand(key: AffinityKey, candidates: seq<CandidateId>, now: u64, ttl: u64)
    | ExpireCommand(now: u64)
    | RotateCommand(expectedGeneration: u64)

  ghost function Step(sha256: Text -> Text, s: RegistryState, c: Command): RegistryState {
    match c
    case AssignCommand(key, candidates, now, ttl) => Assign(sha256, s, key, candidates, now, ttl).0
    case ExpireCommand(now) => Expire(s, now).0
    case RotateCommand(g) => RotateEpoch(s, g).0
  }

  ghost function Run(sha256: Text -> Text, s: RegistryState, commands: seq<Command>): RegistryState
    decreases commands
  {
    if commands == [] then s else Run(sha256, Step(sha256, s, commands[0]), commands[1..])
  }

  lemma StepInv(sha256: Text -> Text, s: RegistryState, c: Command)
    requires Inv(s)
    ensures Inv(Step(sha256, s, c))
  {
    match c
    case AssignCommand(key, candidates, now, ttl) => AssignInv(sha256, s, key, candidates, now, ttl);
    case ExpireCommand(now) => ExpireInv(s, now);
    case RotateCommand(_) =>
  }

  /** Every reachable registry is within capacity and holds bindings of its own tenant and epoch only. */
  lemma {:induction false} RunInv(sha256: Text -> Text, s: RegistryState, commands: seq<Command>)
    requires Inv(s)
    ensures Inv(Run(sha256, s, commands))
    decreases commands
  {
    if commands != [] {
      StepInv(sha256, s, commands[0]);
      RunInv(sha256, Step(sha256, s, commands[0]), commands[1..]);
    }
  }

  /** Commands that neither rebind `key` nor rotate, at times before `deadline`. */
  ghost predicate Leaves(commands: seq<Command>, key: AffinityKey, deadline: u64) {
    forall i :: 0 <= i < |commands| ==>
      match commands[i]
      case AssignCommand(k, _, now, _) => k != key && now < deadline
      case ExpireCommand(now) => now < deadline
      case RotateCommand(_) => false
  }

  lemma {:induction false} BindingStays(sha256: Text -> Text, s: RegistryState, commands: seq<Command>,
                                        key: AffinityKey)
    requires key in s.bindings && Leaves(commands, key, s.bindings[key].expiresAt)
    ensures key in Run(sha256, s, commands).bindings
    ensures Run(sha256, s, commands).bindings[key] == s.bindings[key]
    ensures Run(sha256, s, commands).epoch == s.epoch && Run(sha256, s, commands).tenantId == s.tenantId
    decreases commands
  {
    if commands != [] {
      var s1 := Step(sha256, s, commands[0]);
      assert key in s1.bindings && s1.bindings[key] == s.bindings[key];
      BindingStays(sha256, s1, commands[1..], key);
    }
  }

  /**
   * An assignment sticks: until it expires, and while its candidate is offered, every selection for the key returns it.
   */
  lemma AssignmentSticks(sha256: Text -> Text, s: RegistryState, key: AffinityKey, candidates: seq<CandidateId>,
                         now: u64, ttl: u64,
                         commands: seq<Command>, offered: seq<CandidateId>, later: u64)
    requires Assign(sha256, s, key, candidates, now, ttl).1.Ok?
    requires Leaves(commands, key, now + ttl) && later < now + ttl
    requires 0 < |offered| <= MAX_CANDIDATES
             && Assign(sha256, s, key, candidates, now, ttl).1.value.candidate in offered
    ensures
      var (s1, r) := Assign(sha256, s, key, candidates, now, ttl);
      Select(sha256, Run(sha256, s1, commands), key, offered, later) == Ok(r.value.candidate)
  {
    var (s1, r) := Assign(sha256, s, key, candidates, now, ttl);
    BindingStays(sha256, s1, commands, key);
  }

  lemma {:induction false} VersionsNeverFall(sha256: Text -> Text, s: RegistryState, commands: seq<Command>)
    ensures s.epoch <= Run(sha256, s, commands).epoch
    ensures s.generation <= Run(sha256, s, commands).generation
    ensures s.tenantId == Run(sha256, s, commands).tenantId
    decreases commands
  {
    if commands != [] {
      VersionsNeverFall(sha256, Step(sha256, s, commands[0]), commands[1..]);
    }
  }

  /** After a rotation no key of an earlier epoch is ever served again, and nothing bound before survives. */
  lemma RotationFencesKeys(sha256: Text -> Text, s: RegistryState, g: u64, commands: seq<Command>,
                           key: AffinityKey, candidates: seq<CandidateId>, now: u64, ttl: u64)
    requires RotateEpoch(s, g).1.Ok? && key.epoch <= s.epoch
    ensures
      var after := Run(sha256, RotateEpoch(s, g).0, commands);
      && Select(sha256, after, key, candidates, now).Err?
      && Assign(sha256, after, key, candidates, now, ttl).1.Err?
      && key !in after.bindings
  {
    var rotated := RotateEpoch(s, g).0;
    VersionsNeverFall(sha256, rotated, commands);
    RunInv(sha256, rotated, commands);
  }
}
