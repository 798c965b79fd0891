/**
 * What a plan, an artifact and an opened export owe to the request they came from, and which answer each step gives:
 * stated on the authorization, the records handed in and the instants.
 */
module ExportEffects {
  import opened Words
  import opened BigEndian
  import opened ExportModel
  import opened ExportSort
  import opened ExportCodec
  import opened ExportParser
  import opened ExportDigest
  import opened ExportPlan
  import opened ExportSeal

  // ---------- What a plan takes over ----------

  /** What an export carries of a record: all of it, but the secret reference only when references were asked for. */
  predicate Carries(fields: ExportFields, given: ExportRecord, carried: ExportRecord) {
    && carried.tenantId == given.tenantId && carried.accountId == given.accountId
    && carried.accountVersion == given.accountVersion && carried.configVersion == given.configVersion
    && match fields
       case MetadataOnly => carried.secretRef == None
       case MetadataAndSecretReferences => carried.secretRef == given.secretRef
  }

  /** A plan is the authorization's and the records', and its manifest says so. */
  lemma PlanComesFromRequest(sha256: Text -> Digest, a: ExportAuthorization, records: seq<ExportRecord>, now: u64,
                             watermark: Watermark)
    requires Prepared(sha256, a, records, now, watermark).Ok?
    ensures
      var plan := Prepared(sha256, a, records, now, watermark).value;
      && plan.authorization == a
      && plan.manifest.batchId == a.batchId && plan.manifest.tenantId == a.tenantId
      && plan.manifest.fields == a.fields && plan.manifest.expiresAt == a.expiresAt
      && plan.manifest.watermark == watermark && plan.manifest.recordCount == |records|
      && |plan.records| == |records|
      && (forall i :: 0 <= i < |records| ==> Carries(a.fields, records[i], plan.records[i]))
  {
  }

  /** Record `i` is the first that is not the tenant's, lacks a required reference or repeats an account. */
  ghost predicate FirstFaultyAt(records: seq<ExportRecord>, i: nat, tenantId: Id, fields: ExportFields,
                                e: ExportErrorCode)
  {
    && i < |records|
    && (forall j :: 0 <= j < i ==> Sound(records, j, tenantId, fields))
    && !Sound(records, i, tenantId, fields)
    && e == if records[i].tenantId != tenantId then ScopeMismatch
            else if fields == MetadataAndSecretReferences && records[i].secretRef == None then MissingSecretReference
            else DuplicateAccount
  }

  ghost predicate Sound(records: seq<ExportRecord>, i: nat, tenantId: Id, fields: ExportFields)
    requires i < |records|
  {
    && records[i].tenantId == tenantId
    && (fields == MetadataAndSecretReferences ==> records[i].secretRef != None)
    && (forall j :: 0 <= j < i ==> records[j].accountId != records[i].accountId)
  }

  /** No fault means none anywhere; a fault is that of the first faulty record. */
  ghost predicate Reported(records: seq<ExportRecord>, tenantId: Id, fields: ExportFields,
                           fault: Option<ExportErrorCode>)
  {
    match fault
    case None => forall i :: 0 <= i < |records| ==> Sound(records, i, tenantId, fields)
    case Some(e) => exists i: nat :: FirstFaultyAt(records, i, tenantId, fields, e)
  }

  lemma {:induction false} FaultIsFirst(records: seq<ExportRecord>, tenantId: Id, fields: ExportFields)
    ensures Reported(records, tenantId, fields, FirstFault(records, tenantId, fields))
  {
    if records != [] {
      var n := |records| - 1;
      var init := records[..n];
      FaultIsFirst(init, tenantId, fields);
      var earlier, last := FirstFault(init, tenantId, fields), RecordFault(records, n, tenantId, fields);
      forall i | 0 <= i < n ensures Sound(init, i, tenantId, fields) <==> Sound(records, i, tenantId, fields) {
        assert forall j :: 0 <= j <= i ==> init[j] == records[j];
      }
      if earlier.Some? {
        var i: nat :| FirstFaultyAt(init, i, tenantId, fields, earlier.value);
        assert FirstFaultyAt(records, i, tenantId, fields, earlier.value);
      } else if last.Some? {
        assert FirstFaultyAt(records, n, tenantId, fields, last.value);
      } else {
        assert Sound(records, n, tenantId, fields);
      }
    }
  }

  /** Which answer a request for an export gets, from the first requirement it misses. */
  lemma PreparationAnswer(sha256: Text -> Digest, a: ExportAuthorization, records: seq<ExportRecord>, now: u64,
                          watermark: Watermark)
    ensures
      var r := Prepared(sha256, a, records, now, watermark);
      var valid := a.issuedAt <= now < a.expiresAt;
      var some := valid && records != [];
      var bounded := some && |records| <= MAX_EXPORT_RECORDS;
      var needsSecond := a.fields == MetadataAndSecretReferences || |records| > LARGE_EXPORT_THRESHOLD;
      var approved := bounded && (needsSecond ==> a.approval.secondary != None);
      && (r == Err(AuthorizationExpired) <==> !valid)
      && (r == Err(EmptyBatch) <==> valid && !some)
      && (r == Err(TooManyRecords) <==> some && !bounded)
      && (r == Err(SecondaryApprovalRequired) <==> bounded && !approved)
      && (approved && r.Err? ==> exists i: nat :: FirstFaultyAt(records, i, a.tenantId, a.fields, r.error))
      && (r.Ok? <==> approved && forall i :: 0 <= i < |records| ==> Sound(records, i, a.tenantId, a.fields))
  {
    FaultIsFirst(records, a.tenantId, a.fields);
    hide FirstFault, NewManifest, ProjectRecords;
  }

  // ---------- Sealing and opening within the authorization ----------

  /** What is opened is what was handed in, reduced to what the export may carry, in the order of accounts. */
  ghost predicate Returns(fields: ExportFields, given: seq<ExportRecord>, returned: seq<ExportRecord>) {
    && |returned| == |given| && Canonical(returned)
    && (forall g :: g in given ==> exists r :: r in returned && Carries(fields, g, r))
    && (forall r :: r in returned ==> exists g :: g in given && Carries(fields, g, r))
  }

  lemma SortedReturns(sha256: Text -> Digest, a: ExportAuthorization, records: seq<ExportRecord>, now: u64,
                      watermark: Watermark)
    requires Prepared(sha256, a, records, now, watermark).Ok?
    ensures
      var plan := Prepared(sha256, a, records, now, watermark).value;
      Returns(a.fields, records, SortByAccount(plan.records))
  {
    var plan := Prepared(sha256, a, records, now, watermark).value;
    PlanComesFromRequest(sha256, a, records, now, watermark);
    PreparedWellFormed(sha256, a, records, now, watermark);
    SortContents(plan.records);
    SortCanonical(plan.records);
    SortsTo(a.fields, records, plan.records);
  }

  lemma SortsTo(fields: ExportFields, given: seq<ExportRecord>, carried: seq<ExportRecord>)
    requires |carried| == |given| && forall i :: 0 <= i < |given| ==> Carries(fields, given[i], carried[i])
    requires Canonical(SortByAccount(carried)) && |SortByAccount(carried)| == |carried|
    ensures Returns(fields, given, SortByAccount(carried))
  {
    var sorted := SortByAccount(carried);
    hide Carries, Canonical, SortByAccount;
    forall g | g in given ensures exists r :: r in sorted && Carries(fields, g, r) {
      var i :| 0 <= i < |given| && given[i] == g;
      SortMember(carried, carried[i]);
    }
    forall r | r in sorted ensures exists g :: g in given && Carries(fields, g, r) {
      SortMember(carried, r);
      var i :| 0 <= i < |carried| && carried[i] == r;
      assert given[i] in given;
    }
  }

  /** A prepared plan can be sealed exactly until its authorization expires, if it fits the artifact at all. */
  lemma SealsUntilAuthorizationExpires(p: Primitives, encryptionKey: Text, signingKey: Text, a: ExportAuthorization,
                                       records: seq<ExportRecord>, prepared: u64, watermark: Watermark, nonce: Nonce,
                                       now: u64)
    requires Lawful(p) && Prepared(p.sha256, a, records, prepared, watermark).Ok?
    ensures
      var plan := Prepared(p.sha256, a, records, prepared, watermark).value;
      var sealed := Sealed(p, encryptionKey, signingKey, plan, nonce, now);
      var fits := Serialized(plan.records).Ok?;
      && (sealed.Ok? <==> now < a.expiresAt && fits)
      && (sealed == Err(AuthorizationExpired) <==> a.expiresAt <= now)
      && (sealed == Err(ArtifactTooLarge) <==> now < a.expiresAt && !fits)
      && (sealed.Ok? ==> sealed.value.manifest == plan.manifest)
  {
    var plan := Prepared(p.sha256, a, records, prepared, watermark).value;
    PlanComesFromRequest(p.sha256, a, records, prepared, watermark);
    SealExact(p, encryptionKey, signingKey, plan, nonce, now);
    hide Prepared, Lawful, Serialized;
  }

  /**
   * The artifact opens to the records handed in until the authorization expires, and is refused for that from then on.
   */
  lemma OpensUntilAuthorizationExpires(p: Primitives, encryptionKey: Text, signingKey: Text, a: ExportAuthorization,
                                       records: seq<ExportRecord>, prepared: u64, watermark: Watermark, nonce: Nonce,
                                       sealedAt: u64, openedAt: u64)
    requires Lawful(p) && Prepared(p.sha256, a, records, prepared, watermark).Ok?
    requires Serialized(Prepared(p.sha256, a, records, prepared, watermark).value.records).Ok?
    requires sealedAt < a.expiresAt
    ensures
      var plan := Prepared(p.sha256, a, records, prepared, watermark).value;
      var sealed := Sealed(p, encryptionKey, signingKey, plan, nonce, sealedAt);
      && sealed.Ok? && |sealed.value.ciphertext| <= MAX_CIPHERTEXT_BYTES
      && var r := Opened(p, encryptionKey, p.publicKey(signingKey), sealed.value, openedAt);
         && (r == Err(AuthorizationExpired) <==> a.expiresAt <= openedAt)
         && (r.Ok? <==> openedAt < a.expiresAt)
         && (r.Ok? ==> r.value.manifest == plan.manifest && Returns(a.fields, records, r.value.records))
  {
    var plan := Prepared(p.sha256, a, records, prepared, watermark).value;
    PlanComesFromRequest(p.sha256, a, records, prepared, watermark);
    SealExact(p, encryptionKey, signingKey, plan, nonce, sealedAt);
    SealsUntilAuthorizationExpires(p, encryptionKey, signingKey, a, records, prepared, watermark, nonce, sealedAt);
    if openedAt < a.expiresAt {
      RoundTrip(p, encryptionKey, signingKey, a, records, prepared, watermark, nonce, sealedAt, openedAt);
      SortedReturns(p.sha256, a, records, prepared, watermark);
    }
  }

  /** Which answer opening any artifact gives: expiry first, then the signature, then everything else alike. */
  lemma OpeningAnswer(p: Primitives, encryptionKey: Text, verificationKey: Text, sealed: SealedExport, now: u64)
    requires |sealed.ciphertext| <= MAX_CIPHERTEXT_BYTES
    ensures
      var r := Opened(p, encryptionKey, verificationKey, sealed, now);
      var timely := now < sealed.manifest.expiresAt;
      var signed := timely && p.verify(verificationKey, p.sha512(SignaturePreimage(sealed.manifest, sealed.ciphertext)),
                                       sealed.signature);
      && (r == Err(AuthorizationExpired) <==> !timely)
      && (r == Err(SignatureInvalid) <==> timely && !signed)
      && (signed && r.Err? ==> r == Err(AuthenticationFailed))
  {
    hide SignaturePreimage, OpenedValid;
  }

  // ---------- What binds an artifact together ----------

  /** Encryption under one associated text is not undone under the other. */
  ghost predicate Separates(p: Primitives, key: Text, aad: Text, other: Text) {
    forall n: Nonce, m: Text :: p.encrypt(key, n, aad, m).Some? ==>
                                  p.decrypt(key, n, other, p.encrypt(key, n, aad, m).value) == None
  }

  /** Lawful primitives can tell any two associated texts apart. */
  lemma SeparatingPrimitivesExist(key: Text, aad: Text, other: Text) returns (p: Primitives)
    requires aad != other
    ensures Lawful(p) && Separates(p, key, aad, other)
  {
    var ones, zeros: Text := seq(AEAD_TAG_BYTES, _ => 1), seq(AEAD_TAG_BYTES, _ => 0);
    var digest: Digest := seq(32, _ => 0);
    p := Primitives(
      (_: Text) => digest,
      (t: Text) => t,
      (k: Text, n: Nonce, a: Text, m: Text) => Some(m + if a == aad then ones else zeros),
      (k: Text, n: Nonce, a: Text, c: Text) =>
        if |c| >= AEAD_TAG_BYTES && c[|c| - AEAD_TAG_BYTES..] == (if a == aad then ones else zeros)
        then Some(c[..|c| - AEAD_TAG_BYTES]) else None,
      (k: Text, m: Text) => m,
      (k: Text, m: Text, s: Text) => true,
      (k: Text) => k);
    assert ones[0] != zeros[0];
    forall m: Text, tag: Text | |tag| == AEAD_TAG_BYTES
      ensures (m + tag)[..|m + tag| - AEAD_TAG_BYTES] == m && (m + tag)[|m + tag| - AEAD_TAG_BYTES..] == tag
    {
    }
    forall k: Text, n: Nonce, a: Text, m: Text | |m| <= MAX_PLAINTEXT_BYTES
      ensures var c := p.encrypt(k, n, a, m);
              c.Some? && |c.value| == |m| + AEAD_TAG_BYTES && p.decrypt(k, n, a, c.value) == Some(m)
    {
      var tag := if a == aad then ones else zeros;
      assert p.encrypt(k, n, a, m) == Some(m + tag);
    }
  }

  /** A ciphertext opens under no other manifest than its own, whatever signature comes with it. */
  lemma NoOtherManifestOpens(p: Primitives, encryptionKey: Text, signingKey: Text, plan: AccountExportPlan,
                             nonce: Nonce,
                             sealedAt: u64, other: ExportManifest, verificationKey: Text, signature: Text,
                             openedAt: u64)
    requires Sealed(p, encryptionKey, signingKey, plan, nonce, sealedAt).Ok?
    requires other != plan.manifest
    requires forall a, b :: a == AssociatedData(plan.manifest) && b == AssociatedData(other) && a != b ==>
                              Separates(p, encryptionKey, a, b)
    ensures
      var artifact := Sealed(p, encryptionKey, signingKey, plan, nonce, sealedAt).value;
      && |artifact.ciphertext| <= MAX_CIPHERTEXT_BYTES
      && Opened(p, encryptionKey, verificationKey, SealedExport(other, artifact.ciphertext, signature), openedAt).Err?
  {
    var payload := Serialized(plan.records).value;
    var aad := AssociatedData(plan.manifest);
    if AssociatedData(other) == aad {
      SplitEqual(AadPrefix(), ManifestBytes(plan.manifest), AadPrefix(), ManifestBytes(other));
      ManifestBytesInjective(plan.manifest, other);
    }
    assert Separates(p, encryptionKey, aad, AssociatedData(other));
    var encrypted := p.encrypt(encryptionKey, nonce, aad, payload).value;
    SealedEnvelopeOpens(nonce, encrypted);
  }

  lemma SealedEnvelopeOpens(nonce: Nonce, encrypted: Text)
    ensures OpenedEnvelope(Envelope(nonce, encrypted)).Ok? ==>
              OpenedEnvelope(Envelope(nonce, encrypted)).value == (nonce, encrypted)
  {
    if OpenedEnvelope(Envelope(nonce, encrypted)).Ok? {
      var found := OpenedEnvelope(Envelope(nonce, encrypted)).value;
      EnvelopeUnique(nonce, encrypted, found.0, found.1);
    }
  }

  /** A signature that verifies only for what was signed lets no other manifest or ciphertext pass. */
  lemma SignatureBindsArtifact(p: Primitives, encryptionKey: Text, verificationKey: Text, signature: Text,
                               manifest: ExportManifest, ciphertext: Text, other: SealedExport, now: u64)
    requires |ciphertext| <= MAX_CIPHERTEXT_BYTES && |other.ciphertext| <= MAX_CIPHERTEXT_BYTES
    requires other.signature == signature && (other.manifest != manifest || other.ciphertext != ciphertext)
    requires forall digest :: p.verify(verificationKey, digest, signature) ==>
                                digest == p.sha512(SignaturePreimage(manifest, ciphertext))
    requires
      var x, y := SignaturePreimage(manifest, ciphertext), SignaturePreimage(other.manifest, other.ciphertext);
      x != y ==> p.sha512(x) != p.sha512(y)
    ensures Opened(p, encryptionKey, verificationKey, other, now) in {Err(AuthorizationExpired), Err(SignatureInvalid)}
  {
    if SignaturePreimage(manifest, ciphertext) == SignaturePreimage(other.manifest, other.ciphertext) {
      SignedBytesInjective(manifest, ciphertext, other.manifest, other.ciphertext);
    }
    hide SignaturePreimage;
  }

  /** The hashed bytes determine the whole manifest but its digest, and the records up to order. */
  lemma PreimageDeterminesManifest(m: ExportManifest, a: seq<ExportRecord>, n: ExportManifest, b: seq<ExportRecord>)
    requires ManifestPreimage(m, a) == ManifestPreimage(n, b)
    ensures m == n.(digest := m.digest) && SortByAccount(a) == SortByAccount(b)
  {
    PreimageFront(m, a);
    PreimageFront(n, b);
    var da, db := DigestAll(SortByAccount(a)), DigestAll(SortByAccount(b));
    var wa := LongField(m.watermark) + (Be32(m.recordCount) + da);
    var wb := LongField(n.watermark) + (Be32(n.recordCount) + db);
    var ea, eb := Be64(m.expiresAt) + wa, Be64(n.expiresAt) + wb;
    SplitEqual(DigestDomain(), LongField(m.tenantId) + (LongField(m.batchId) + ([Tag(m.fields)] + ea)),
               DigestDomain(), LongField(n.tenantId) + (LongField(n.batchId) + ([Tag(n.fields)] + eb)));
    LongFieldSuffix(LongField(m.batchId) + ([Tag(m.fields)] + ea), m.tenantId,
                    LongField(n.batchId) + ([Tag(n.fields)] + eb), n.tenantId);
    LongFieldSuffix([Tag(m.fields)] + ea, m.batchId, [Tag(n.fields)] + eb, n.batchId);
    SplitEqual([Tag(m.fields)], ea, [Tag(n.fields)], eb);
    assert [Tag(m.fields)][0] == [Tag(n.fields)][0];
    Be64Prefix(m.expiresAt, wa, n.expiresAt, wb);
    LongFieldSuffix(Be32(m.recordCount) + da, m.watermark, Be32(n.recordCount) + db, n.watermark);
    SplitEqual(Be32(m.recordCount), da, Be32(n.recordCount), db);
    BeInjective();
    DigestAllInjective(SortByAccount(a), SortByAccount(b));
  }

  function DigestDomain(): Text {
    Ascii("ariadnion-account-export-v1") + [0]
  }

  lemma PreimageFront(m: ExportManifest, records: seq<ExportRecord>)
    ensures ManifestPreimage(m, records) ==
              DigestDomain()
              + (LongField(m.tenantId)
                 + (LongField(m.batchId)
                    + ([Tag(m.fields)]
                       + (Be64(m.expiresAt)
                          + (LongField(m.watermark) + (Be32(m.recordCount) + DigestAll(SortByAccount(records))))))))
  {
    var a, b, c, d, e, f, g, h := DigestDomain(), LongField(m.tenantId), LongField(m.batchId), [Tag(m.fields)],
      Be64(m.expiresAt), LongField(m.watermark), Be32(m.recordCount), DigestAll(SortByAccount(records));
    Nested(a, b, c, d, e, f, g, h);
  }

  lemma Nested(a: Text, b: Text, c: Text, d: Text, e: Text, f: Text, g: Text, h: Text)
    ensures a + b + c + d + e + f + g + h == a + (b + (c + (d + (e + (f + (g + h))))))
  {
    Associative(a + b + c + d + e + f, g, h);
    Associative(a + b + c + d + e, f, g + h);
    Associative(a + b + c + d, e, f + (g + h));
    Associative(a + b + c, d, e + (f + (g + h)));
    Associative(a + b, c, d + (e + (f + (g + h))));
    Associative(a, b, c + (d + (e + (f + (g + h)))));
  }
}
