/** The affinity registry as its methods change it, proved against the transitions of `AffinityModel`. */
module AffinityRegistries {
  import opened Words
  import opened ByteOrder
  import opened BigEndian
  import opened AffinityModel

  /** Pruning can only make room, so a full table that stays full was not pruned at all. */
  lemma RefusedCapacityUnpruned(s: RegistryState, now: u64)
    requires Inv(s) && |Unexpired(s.bindings, now)| >= MAX_BINDINGS
    ensures Unexpired(s.bindings, now) == s.bindings
  {
    UnexpiredSmaller(s.bindings, now);
  }

  class AffinityRegistry {
    const sha256: Text -> Text
    const tenantId: Text
    var generation: u64
    var epoch: u64
    var bindings: map<AffinityKey, AffinityBinding>

    ghost function State(): RegistryState
      reads this
    {
      RegistryState(tenantId, generation, epoch, bindings)
    }

    ghost predicate Valid()
      reads this
    {
      Inv(State())
    }

    constructor WithVersions(sha256: Text -> Text, tenantId: Text, epoch: u64, generation: u64)
      ensures Valid() && this.sha256 == sha256
      ensures State() == RegistryState(tenantId, generation, epoch, map[])
    {
      this.sha256 := sha256;
      this.tenantId := tenantId;
      this.epoch := epoch;
      this.generation := generation;
      bindings := map[];
    }

    method DeterministicCandidate(key: AffinityKey, candidates: seq<CandidateId>)
      returns (r: Result<CandidateId, AffinityErrorCode>)
      ensures candidates == [] ==> r == Err(EmptyCandidateSet)
      ensures candidates != [] ==> r == Ok(Chosen(sha256, key, candidates))
    {
      var best: Option<(Text, CandidateId)> := None;
      ghost var leader: nat := 0;
      for i := 0 to |candidates|
        invariant best.None? <==> i == 0
        invariant best.Some? ==> Wins(sha256, key, candidates[..i], leader)
                                 && best.value == (Score(sha256, key, candidates[leader]), candidates[leader])
      {
        var candidate := candidates[i];
        var preimage := Ascii("ariadnion-affinity-select-v1") + [0] + [Tag(key.scope)] + Be64(key.epoch) + key.id
                        + Be16(|candidate|) + candidate;
        var score := sha256(preimage);
        if best.None? {
          LessIrreflexive(score);
          best := Some((score, candidate));
          leader := 0;
          assert Wins(sha256, key, candidates[..i + 1], 0);
        } else {
          WinsExtend(sha256, key, candidates, i, leader);
          if Less(score, best.value.0) {
            best := Some((score, candidate));
            leader := i;
          }
        }
      }
      assert candidates[..|candidates|] == candidates;
      if best.None? {
        return Err(EmptyCandidateSet);
      }
      WinsUnique(sha256, key, candidates, leader, Winner(sha256, key, candidates));
      r := Ok(best.value.1);
    }

    method LiveCandidateIndex(key: AffinityKey, candidates: seq<CandidateId>, now: u64) returns (r: Option<nat>)
      ensures r.Some? <==> key in bindings && Live(bindings[key], key, now) && bindings[key].candidate in candidates
      ensures r.Some? ==> r.value < |candidates| && candidates[r.value] == bindings[key].candidate
    {
      if key !in bindings {
        return None;
      }
      if !Live(bindings[key], key, now) {
        return None;
      }
      for i := 0 to |candidates|
        invariant bindings[key].candidate !in candidates[..i]
      {
        if candidates[i] == bindings[key].candidate {
          return Some(i);
        }
        assert candidates[..i + 1] == candidates[..i] + [candidates[i]];
      }
      assert candidates[..|candidates|] == candidates;
      r := None;
    }

    method Select(key: AffinityKey, candidates: seq<CandidateId>, now: u64)
      returns (r: Result<CandidateId, AffinityErrorCode>)
      requires Valid()
      ensures r == AffinityModel.Select(sha256, State(), key, candidates, now)
    {
      if CandidatesError(candidates).Some? {
        return Err(CandidatesError(candidates).value);
      }
      if KeyError(RegistryState(tenantId, generation, epoch, bindings), key).Some? {
        return Err(KeyError(RegistryState(tenantId, generation, epoch, bindings), key).value);
      }
      var index := LiveCandidateIndex(key, candidates, now);
      if index.Some? {
        return Ok(candidates[index.value]);
      }
      r := DeterministicCandidate(key, candidates);
    }

    method PruneExpired(now: u64)
      requires Valid()
      modifies this`bindings
      ensures Valid()
      ensures bindings == Unexpired(old(bindings), now)
    {
      UnexpiredSmaller(bindings, now);
      bindings := map k | k in bindings && bindings[k].expiresAt > now :: bindings[k];
    }

    method AssignmentCandidate(key: AffinityKey, candidates: seq<CandidateId>, now: u64)
      returns (r: Result<CandidateId, AffinityErrorCode>)
      ensures candidates != [] ==> r == Ok(Preferred(sha256, State(), key, candidates, now))
    {
      if key in bindings && Live(bindings[key], key, now) {
        var eligible := bindings[key].candidate in candidates;
        if eligible {
          return Ok(bindings[key].candidate);
        }
      }
      r := DeterministicCandidate(key, candidates);
    }

    method Assign(key: AffinityKey, candidates: seq<CandidateId>, now: u64, ttlSeconds: u64)
      returns (r: Result<AffinityBinding, AffinityErrorCode>)
      requires Valid()
      modifies this
      ensures Valid()
      ensures (State(), r) == AffinityModel.Assign(sha256, old(State()), key, candidates, now, ttlSeconds)
    {
      hide Inv, Unexpired, Preferred, Live;
      if CandidatesError(candidates).Some? {
        return Err(CandidatesError(candidates).value);
      }
      if ttlSeconds == 0 || ttlSeconds > MAX_TTL_SECONDS {
        return Err(InvalidTtl);
      }
      var expiresAt := CheckedAdd(now, ttlSeconds);
      if expiresAt.None? {
        return Err(VersionExhausted);
      }
      if KeyError(RegistryState(tenantId, generation, epoch, bindings), key).Some? {
        return Err(KeyError(RegistryState(tenantId, generation, epoch, bindings), key).value);
      }
      var nextGeneration := CheckedAdd(generation, 1);
      if nextGeneration.None? {
        return Err(VersionExhausted);
      }
      PreferredAfterPrune(sha256, State(), key, candidates, now);
      PruneExpired(now);
      var candidate := AssignmentCandidate(key, candidates, now);
      r := Retain(key, AffinityBinding(key, candidate.value, expiresAt.value), nextGeneration.value);
      if r.Err? {
        RefusedCapacityUnpruned(old(State()), now);
      }
    }

    method Retain(key: AffinityKey, binding: AffinityBinding, nextGeneration: u64)
      returns (r: Result<AffinityBinding, AffinityErrorCode>)
      requires Valid() && binding.key == key && KeyError(State(), key).None?
      modifies this
      ensures Valid()
      ensures r == (if key !in old(bindings) && |old(bindings)| >= MAX_BINDINGS then Err(CapacityExceeded)
                    else Ok(binding))
      ensures r.Err? ==> State() == old(State())
      ensures r.Ok? ==>
                State() == old(State()).(bindings := old(bindings)[key := binding], generation := nextGeneration)
    {
      if key !in bindings && |bindings| >= MAX_BINDINGS {
        return Err(CapacityExceeded);
      }
      InsertedInv(State(), key, binding, nextGeneration);
      bindings := bindings[key := binding];
      generation := nextGeneration;
      r := Ok(binding);
    }

    method Expire(now: u64) returns (r: Result<nat, AffinityErrorCode>)
      requires Valid()
      modifies this
      ensures Valid()
      ensures (State(), r) == AffinityModel.Expire(old(State()), now)
    {
      hide Inv, Unexpired, AnyDue;
      ExpireInv(State(), now);
      PrunedCount(bindings, now);
      var before := |bindings|;
      var hasExpired := AnyDue(bindings, now);
      if hasExpired && generation == U64_MAX {
        return Err(VersionExhausted);
      }
      PruneExpired(now);
      var removed := before - |bindings|;
      if removed > 0 && hasExpired {
        generation := generation + 1;
      }
      r := Ok(removed);
    }

    method RotateEpoch(expectedGeneration: u64) returns (r: Result<(u64, u64), AffinityErrorCode>)
      requires Valid()
      modifies this
      ensures Valid()
      ensures (State(), r) == AffinityModel.RotateEpoch(old(State()), expectedGeneration)
    {
      if generation != expectedGeneration {
        return Err(GenerationConflict);
      }
      var nextEpoch := CheckedAdd(epoch, 1);
      if nextEpoch.None? {
        return Err(VersionExhausted);
      }
      var nextGeneration := CheckedAdd(generation, 1);
      if nextGeneration.None? {
        return Err(VersionExhausted);
      }
      epoch := nextEpoch.value;
      bindings := map[];
      generation := nextGeneration.value;
      r := Ok((epoch, generation));
    }
  }
}
