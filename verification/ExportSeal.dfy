/** Sealing and opening of export artifacts over given cryptographic primitives. */
module ExportSeal {
  import opened Words
  import opened BigEndian
  import opened ExportModel
  import opened ExportSort
  import opened ExportCodec
  import opened ExportParser
  import opened ExportDigest
  import opened ExportPlan

  /** The primitives the export calls: SHA-256, SHA-512, an AEAD and a signature scheme. */
  datatype Primitives = Primitives(
    sha256: Text -> Digest,
    sha512: Text -> Text,
    encrypt: (Text, Nonce, Text, Text) -> Option<Text>,
    decrypt: (Text, Nonce, Text, Text) -> Option<Text>,
    sign: (Text, Text) -> Text,
    verify: (Text, Text, Text) -> bool,
    publicKey: Text -> Text)

  /**
   * Encryption of a bounded payload succeeds, adds one tag and decrypts to the payload; a signature verifies under its
   * own key.
   */
  ghost predicate Lawful(p: Primitives) {
    && (forall k: Text, n: Nonce, a: Text, m: Text :: |m| <= MAX_PLAINTEXT_BYTES ==>
          var c := p.encrypt(k, n, a, m);
          c.Some? && |c.value| == |m| + AEAD_TAG_BYTES && p.decrypt(k, n, a, c.value) == Some(m))
    && (forall k: Text, m: Text :: p.verify(p.publicKey(k), m, p.sign(k, m)))
  }

  /** Such primitives exist: appending a constant tag already obeys these laws, which say nothing about secrecy. */
  lemma LawfulPrimitivesExist() returns (p: Primitives)
    ensures Lawful(p)
  {
    var tag: Text := seq(AEAD_TAG_BYTES, _ => 0);
    var digest: Digest := seq(32, _ => 0);
    p := Primitives(
      (_: Text) => digest,
      (t: Text) => t,
      (k: Text, n: Nonce, a: Text, m: Text) => Some(m + tag),
      (k: Text, n: Nonce, a: Text, c: Text) => if |c| >= AEAD_TAG_BYTES then Some(c[..|c| - AEAD_TAG_BYTES]) else None,
      (k: Text, m: Text) => m,
      (k: Text, m: Text, s: Text) => true,
      (k: Text) => k);
    forall k: Text, n: Nonce, a: Text, m: Text | |m| <= MAX_PLAINTEXT_BYTES
      ensures p.encrypt(k, n, a, m) == Some(m + tag) && p.decrypt(k, n, a, m + tag) == Some(m)
    {
      assert (m + tag)[..|m + tag| - AEAD_TAG_BYTES] == m;
    }
  }

  datatype SealedExport = SealedExport(manifest: ExportManifest, ciphertext: Text, signature: Text)

  datatype VerifiedExport = VerifiedExport(manifest: ExportManifest, records: seq<ExportRecord>)

  // ---------- Authenticated bytes ----------

  function ManifestBytes(m: ExportManifest): Text {
    Field(m.batchId) + (Field(m.tenantId) +
                        ([Tag(m.fields)] + (Field(m.watermark) +
                                            (Be32(m.recordCount) + (Be64(m.expiresAt) + m.digest)))))
  }

  function AadPrefix(): Text {
    Ascii("ariadnion-account-export-aad-v1") + [0] + ENVELOPE_MAGIC + Be16(FORMAT_VERSION)
  }

  function AssociatedData(m: ExportManifest): Text {
    AadPrefix() + ManifestBytes(m)
  }

  /** The associated data of any manifest fits its bound. */
  lemma AssociatedDataFits(m: ExportManifest)
    ensures |AssociatedData(m)| <= 509 <= MAX_MANIFEST_BYTES
  {
  }

  lemma ManifestWritten(was: Text, m: ExportManifest)
    ensures was + Field(m.batchId) + Field(m.tenantId) + [Tag(m.fields)] + Field(m.watermark) + Be32(m.recordCount) +
              Be64(m.expiresAt) + m.digest
            == was + ManifestBytes(m)
    ensures |ManifestBytes(m)| == 51 + |m.batchId| + |m.tenantId| + |m.watermark|
  {
    var a, b, c, d, e, f, g :=
      Field(m.batchId), Field(m.tenantId), [Tag(m.fields)], Field(m.watermark), Be32(m.recordCount), Be64(m.expiresAt),
      m.digest;
    assert a + (b + (c + (d + (e + (f + g))))) == a + b + c + d + e + f + g;
    assert was + (a + b + c + d + e + f + g) == was + a + b + c + d + e + f + g;
  }

  method WriteManifest(writer: BoundedWriter, m: ExportManifest) returns (r: Result<(), ExportErrorCode>)
    requires writer.Valid()
    modifies writer
    ensures writer.Valid()
    ensures r == if |old(writer.bytes)| + |ManifestBytes(m)| <= writer.limit then Ok(()) else Err(ArtifactTooLarge)
    ensures r.Ok? ==> writer.bytes == old(writer.bytes) + ManifestBytes(m)
  {
    ManifestWritten(writer.bytes, m);
    var _ :- writer.WriteText(m.batchId);
    var _ :- writer.WriteText(m.tenantId);
    var _ :- writer.Write([Tag(m.fields)]);
    var _ :- writer.WriteText(m.watermark);
    var _ :- writer.Write(Be32(m.recordCount));
    var _ :- writer.Write(Be64(m.expiresAt));
    var _ :- writer.Write(m.digest);
    r := Ok(());
  }

  method WriteAssociatedData(writer: BoundedWriter, m: ExportManifest) returns (r: Result<(), ExportErrorCode>)
    requires writer.Valid()
    modifies writer
    ensures writer.Valid()
    ensures r == if |old(writer.bytes)| + |AssociatedData(m)| <= writer.limit then Ok(()) else Err(ArtifactTooLarge)
    ensures r.Ok? ==> writer.bytes == old(writer.bytes) + AssociatedData(m)
  {
    ghost var was := writer.bytes;
    AadWritten(was);
    var _ :- writer.Write(Ascii("ariadnion-account-export-aad-v1") + [0]);
    var _ :- writer.Write(ENVELOPE_MAGIC);
    var _ :- writer.Write(Be16(FORMAT_VERSION));
    var _ :- WriteManifest(writer, m);
    Associative(was, AadPrefix(), ManifestBytes(m));
    r := Ok(());
  }

  lemma AadWritten(was: Text)
    ensures was + (Ascii("ariadnion-account-export-aad-v1") + [0]) + ENVELOPE_MAGIC + Be16(FORMAT_VERSION) ==
              was + AadPrefix()
    ensures |AadPrefix()| == 42
  {
    var a := Ascii("ariadnion-account-export-aad-v1") + [0];
    Associative(was, a, ENVELOPE_MAGIC);
    Associative(was, a + ENVELOPE_MAGIC, Be16(FORMAT_VERSION));
  }

  method BuildAssociatedData(m: ExportManifest) returns (r: Result<Text, ExportErrorCode>)
    ensures r == Ok(AssociatedData(m))
  {
    var writer := new BoundedWriter(MAX_MANIFEST_BYTES);
    AssociatedDataFits(m);
    var written := WriteAssociatedData(writer, m);
    assert [] + AssociatedData(m) == AssociatedData(m);
    r := Ok(writer.bytes);
  }

  function SignatureDomain(): Text {
    Ascii("ariadnion-account-export-signature-v1") + [0]
  }

  /** The bytes whose SHA-512 digest is signed. */
  function SignaturePreimage(m: ExportManifest, ciphertext: Text): Text
    requires |ciphertext| <= MAX_CIPHERTEXT_BYTES
  {
    AssociatedDataFits(m);
    SignatureDomain() + (LongField(AssociatedData(m)) + LongField(ciphertext))
  }

  lemma ManifestBytesInjective(a: ExportManifest, b: ExportManifest)
    requires ManifestBytes(a) == ManifestBytes(b)
    ensures a == b
  {
    var ea := Be64(a.expiresAt) + a.digest;
    var eb := Be64(b.expiresAt) + b.digest;
    var wa := Field(a.watermark) + (Be32(a.recordCount) + ea);
    var wb := Field(b.watermark) + (Be32(b.recordCount) + eb);
    FieldPrefix(a.batchId, Field(a.tenantId) + ([Tag(a.fields)] + wa), b.batchId,
                Field(b.tenantId) + ([Tag(b.fields)] + wb));
    FieldPrefix(a.tenantId, [Tag(a.fields)] + wa, b.tenantId, [Tag(b.fields)] + wb);
    SplitEqual([Tag(a.fields)], wa, [Tag(b.fields)], wb);
    assert [Tag(a.fields)][0] == [Tag(b.fields)][0];
    FieldPrefix(a.watermark, Be32(a.recordCount) + ea, b.watermark, Be32(b.recordCount) + eb);
    SplitEqual(Be32(a.recordCount), ea, Be32(b.recordCount), eb);
    BeInjective();
    Be64Prefix(a.expiresAt, a.digest, b.expiresAt, b.digest);
  }

  /** What is signed determines the manifest and the ciphertext. */
  lemma SignedBytesInjective(a: ExportManifest, x: Text, b: ExportManifest, y: Text)
    requires |x| <= MAX_CIPHERTEXT_BYTES && |y| <= MAX_CIPHERTEXT_BYTES
    requires SignaturePreimage(a, x) == SignaturePreimage(b, y)
    ensures a == b && x == y
  {
    AssociatedDataFits(a);
    AssociatedDataFits(b);
    SplitEqual(SignatureDomain(), LongField(AssociatedData(a)) + LongField(x), SignatureDomain(),
               LongField(AssociatedData(b)) + LongField(y));
    LongFieldSuffix(LongField(x), AssociatedData(a), LongField(y), AssociatedData(b));
    assert LongField(x) + [] == LongField(x) && LongField(y) + [] == LongField(y);
    LongFieldSuffix([], x, [], y);
    SplitEqual(AadPrefix(), ManifestBytes(a), AadPrefix(), ManifestBytes(b));
    ManifestBytesInjective(a, b);
  }

  // ---------- The envelope ----------

  function Envelope(nonce: Nonce, payload: Text): Text {
    ENVELOPE_MAGIC + (Be16(FORMAT_VERSION) + (nonce + payload))
  }

  ghost predicate IsEnvelope(ciphertext: Text, nonce: Nonce, payload: Text) {
    |payload| >= AEAD_TAG_BYTES && ciphertext == Envelope(nonce, payload)
  }

  ghost predicate IsSomeEnvelope(ciphertext: Text) {
    exists nonce: Nonce, payload: Text :: IsEnvelope(ciphertext, nonce, payload)
  }

  lemma EnvelopeNeedsMagic(ciphertext: Text, magic: Text, s1: Text)
    requires ciphertext == magic + s1 && |magic| == |ENVELOPE_MAGIC|
    ensures IsSomeEnvelope(ciphertext) ==> magic == ENVELOPE_MAGIC
  {
    if IsSomeEnvelope(ciphertext) {
      var nonce: Nonce, payload: Text :| IsEnvelope(ciphertext, nonce, payload);
      SplitEqual(magic, s1, ENVELOPE_MAGIC, Be16(FORMAT_VERSION) + (nonce + payload));
    }
  }

  lemma EnvelopeNeedsVersion(ciphertext: Text, s1: Text, version: u16, s2: Text)
    requires ciphertext == ENVELOPE_MAGIC + s1 && s1 == Be16(version) + s2
    ensures IsSomeEnvelope(ciphertext) ==> version == FORMAT_VERSION
  {
    if IsSomeEnvelope(ciphertext) {
      var nonce: Nonce, payload: Text :| IsEnvelope(ciphertext, nonce, payload);
      SplitEqual(ENVELOPE_MAGIC, s1, ENVELOPE_MAGIC, Be16(FORMAT_VERSION) + (nonce + payload));
      SplitEqual(Be16(version), s2, Be16(FORMAT_VERSION), nonce + payload);
      BeInjective();
    }
  }

  lemma EnvelopeUnique(nonce: Nonce, payload: Text, n: Nonce, p: Text)
    requires Envelope(nonce, payload) == Envelope(n, p)
    ensures nonce == n && payload == p
  {
    SplitEqual(ENVELOPE_MAGIC, Be16(FORMAT_VERSION) + (nonce + payload), ENVELOPE_MAGIC,
               Be16(FORMAT_VERSION) + (n + p));
    SplitEqual(Be16(FORMAT_VERSION), nonce + payload, Be16(FORMAT_VERSION), n + p);
    SplitEqual(nonce, payload, n, p);
  }

  ghost function OpenedEnvelope(ciphertext: Text): Result<(Nonce, Text), ExportErrorCode> {
    if IsSomeEnvelope(ciphertext) then
      var nonce: Nonce, payload: Text :| IsEnvelope(ciphertext, nonce, payload);
      Ok((nonce, payload))
    else Err(AuthenticationFailed)
  }

  lemma OpenedEnvelopeIs(ciphertext: Text, nonce: Nonce, payload: Text)
    requires IsEnvelope(ciphertext, nonce, payload)
    ensures OpenedEnvelope(ciphertext) == Ok((nonce, payload))
  {
    var found := OpenedEnvelope(ciphertext).value;
    EnvelopeUnique(nonce, payload, found.0, found.1);
  }

  method ParseEnvelope(ciphertext: Text) returns (r: Result<(Nonce, Text), ExportErrorCode>)
    ensures r == OpenedEnvelope(ciphertext)
  {
    if |ciphertext| < ENVELOPE_PREFIX_BYTES + AEAD_TAG_BYTES {
      return Err(AuthenticationFailed);
    }
    r := ParseLongEnvelope(ciphertext);
  }

  method ParseLongEnvelope(ciphertext: Text) returns (r: Result<(Nonce, Text), ExportErrorCode>)
    requires |ciphertext| >= ENVELOPE_PREFIX_BYTES + AEAD_TAG_BYTES
    ensures r == OpenedEnvelope(ciphertext)
  {
    var reader := new CanonicalReader(ciphertext);
    var magic := reader.ReadExact(|ENVELOPE_MAGIC|);
    ghost var s1 := reader.Remaining();
    EnvelopeNeedsMagic(ciphertext, magic.value, s1);
    if magic.value != ENVELOPE_MAGIC {
      return Err(AuthenticationFailed);
    }
    var version := reader.ReadU16();
    ghost var s2 := reader.Remaining();
    EnvelopeNeedsVersion(ciphertext, s1, version.value, s2);
    if version.value != FORMAT_VERSION {
      return Err(AuthenticationFailed);
    }
    var nonce := reader.ReadExact(NONCE_BYTES);
    var payload := reader.input[reader.offset..];
    assert payload == reader.Remaining();
    OpenedEnvelopeIs(ciphertext, nonce.value, payload);
    r := Ok((nonce.value, payload));
  }

  // ---------- Sealing ----------

  ghost function Sealed(p: Primitives, encryptionKey: Text, signingKey: Text, plan: AccountExportPlan, nonce: Nonce,
                        now: u64): Result<SealedExport, ExportErrorCode>
  {
    if now >= plan.manifest.expiresAt then Err(AuthorizationExpired)
    else match Serialized(plan.records)
         case Err(e) => Err(e)
         case Ok(payload) =>
           match p.encrypt(encryptionKey, nonce, AssociatedData(plan.manifest), payload)
           case None => Err(AuthenticationFailed)
           case Some(encrypted) =>
             var envelope := Envelope(nonce, encrypted);
             if |envelope| > MAX_CIPHERTEXT_BYTES then Err(ArtifactTooLarge)
             else Ok(SealedExport(plan.manifest, envelope,
                                  p.sign(signingKey, p.sha512(SignaturePreimage(plan.manifest, envelope)))))
  }

  method BuildEnvelope(nonce: Nonce, payload: Text) returns (r: Result<Text, ExportErrorCode>)
    ensures r ==
              if |Envelope(nonce, payload)| > MAX_CIPHERTEXT_BYTES then Err(ArtifactTooLarge)
              else Ok(Envelope(nonce, payload))
  {
    var total := ENVELOPE_PREFIX_BYTES + |payload|;
    if total > MAX_CIPHERTEXT_BYTES {
      return Err(ArtifactTooLarge);
    }
    var bytes: Text := [];
    bytes := bytes + ENVELOPE_MAGIC;
    bytes := bytes + Be16(FORMAT_VERSION);
    bytes := bytes + nonce;
    bytes := bytes + payload;
    assert bytes == Envelope(nonce, payload);
    r := Ok(bytes);
  }

  method ArtifactSignatureDigest(p: Primitives, m: ExportManifest, ciphertext: Text) returns (digest: Text)
    requires |ciphertext| <= MAX_CIPHERTEXT_BYTES
    ensures digest == p.sha512(SignaturePreimage(m, ciphertext))
  {
    var manifestBytes := BuildAssociatedData(m);
    AssociatedDataFits(m);
    var absorbed := SignatureDomain();
    absorbed := absorbed + Be64(|manifestBytes.value|);
    absorbed := absorbed + manifestBytes.value;
    absorbed := absorbed + Be64(|ciphertext|);
    absorbed := absorbed + ciphertext;
    SignatureAbsorbed(m, ciphertext);
    digest := p.sha512(absorbed);
  }

  lemma SignatureAbsorbed(m: ExportManifest, ciphertext: Text)
    requires |ciphertext| <= MAX_CIPHERTEXT_BYTES
    ensures |AssociatedData(m)| <= U64_MAX
    ensures SignatureDomain() + Be64(|AssociatedData(m)|) + AssociatedData(m) + Be64(|ciphertext|) + ciphertext ==
              SignaturePreimage(m, ciphertext)
  {
    AssociatedDataFits(m);
    var d, a, b, c := SignatureDomain(), Be64(|AssociatedData(m)|), AssociatedData(m), Be64(|ciphertext|);
    Associative(d, a, b);
    Associative(d + (a + b), c, ciphertext);
    Associative(d, a + b, c + ciphertext);
  }

  method Seal(p: Primitives, encryptionKey: Text, signingKey: Text, plan: AccountExportPlan, nonce: Nonce, now: u64)
      returns (r: Result<SealedExport, ExportErrorCode>)
    ensures r == Sealed(p, encryptionKey, signingKey, plan, nonce, now)
  {
    if now >= plan.manifest.expiresAt {
      return Err(AuthorizationExpired);
    }
    var payload := SerializeRecords(plan.records);
    if payload.Err? {
      return Err(payload.error);
    }
    var aad := BuildAssociatedData(plan.manifest);
    var encrypted := p.encrypt(encryptionKey, nonce, aad.value, payload.value);
    if encrypted.None? {
      return Err(AuthenticationFailed);
    }
    var envelope := BuildEnvelope(nonce, encrypted.value);
    if envelope.Err? {
      return Err(envelope.error);
    }
    var digest := ArtifactSignatureDigest(p, plan.manifest, envelope.value);
    r := Ok(SealedExport(plan.manifest, envelope.value, p.sign(signingKey, digest)));
  }

  // ---------- Opening ----------

  ghost predicate OpenedValid(p: Primitives, m: ExportManifest, records: seq<ExportRecord>) {
    && FirstFault(records, m.tenantId, m.fields).None?
    && p.sha256(ManifestPreimage(m, records)) == m.digest
    && FieldShape(m.fields, records)
  }

  /** Decrypt, parse and revalidate. */
  ghost function OpenedPayload(p: Primitives, encryptionKey: Text, m: ExportManifest, nonce: Nonce,
                               encrypted: Text): Result<VerifiedExport, ExportErrorCode>
  {
    match p.decrypt(encryptionKey, nonce, AssociatedData(m), encrypted)
    case None => Err(AuthenticationFailed)
    case Some(plaintext) =>
      match Parsed(plaintext, m.tenantId, m.recordCount)
      case Err(e) => Err(e)
      case Ok(records) => if OpenedValid(p, m, records) then Ok(VerifiedExport(m, records))
        else Err(AuthenticationFailed)
  }

  ghost function Opened(p: Primitives, encryptionKey: Text, verificationKey: Text, sealed: SealedExport,
                        now: u64): Result<VerifiedExport, ExportErrorCode>
    requires |sealed.ciphertext| <= MAX_CIPHERTEXT_BYTES
  {
    if now >= sealed.manifest.expiresAt then Err(AuthorizationExpired)
    else if !p.verify(verificationKey, p.sha512(SignaturePreimage(sealed.manifest, sealed.ciphertext)),
                      sealed.signature) then Err(SignatureInvalid)
    else match OpenedEnvelope(sealed.ciphertext)
         case Err(e) => Err(e)
         case Ok((nonce, encrypted)) => OpenedPayload(p, encryptionKey, sealed.manifest, nonce, encrypted)
  }

  method ValidateFieldShape(fields: ExportFields, records: seq<ExportRecord>) returns (r: Result<(), ExportErrorCode>)
    ensures r == if FieldShape(fields, records) then Ok(()) else Err(AuthenticationFailed)
  {
    var valid: bool;
    match fields {
      case MetadataOnly => valid := forall i :: 0 <= i < |records| ==> records[i].secretRef.None?;
      case MetadataAndSecretReferences => valid := forall i :: 0 <= i < |records| ==> records[i].secretRef.Some?;
    }
    r := if valid then Ok(()) else Err(AuthenticationFailed);
  }

  method ValidateOpenedRecords(p: Primitives, m: ExportManifest, records: seq<ExportRecord>)
    returns (r: Result<(), ExportErrorCode>)
    ensures r == if OpenedValid(p, m, records) then Ok(()) else Err(AuthenticationFailed)
  {
    var valid := ValidateRecords(records, m.tenantId, m.fields);
    if valid.Err? {
      return Err(AuthenticationFailed);
    }
    var digest := ManifestDigestFromParts(p.sha256, m, records);
    if digest != m.digest {
      return Err(AuthenticationFailed);
    }
    r := ValidateFieldShape(m.fields, records);
  }

  method VerifyAndOpen(p: Primitives, encryptionKey: Text, verificationKey: Text, sealed: SealedExport, now: u64)
      returns (r: Result<VerifiedExport, ExportErrorCode>)
    requires |sealed.ciphertext| <= MAX_CIPHERTEXT_BYTES
    ensures r == Opened(p, encryptionKey, verificationKey, sealed, now)
  {
    if now >= sealed.manifest.expiresAt {
      return Err(AuthorizationExpired);
    }
    var digest := ArtifactSignatureDigest(p, sealed.manifest, sealed.ciphertext);
    if !p.verify(verificationKey, digest, sealed.signature) {
      return Err(SignatureInvalid);
    }
    var envelope := ParseEnvelope(sealed.ciphertext);
    if envelope.Err? {
      return Err(envelope.error);
    }
    var aad := BuildAssociatedData(sealed.manifest);
    var plaintext := p.decrypt(encryptionKey, envelope.value.0, aad.value, envelope.value.1);
    if plaintext.None? {
      return Err(AuthenticationFailed);
    }
    var records := ParseRecords(plaintext.value, sealed.manifest.tenantId, sealed.manifest.recordCount);
    if records.Err? {
      return Err(records.error);
    }
    var valid := ValidateOpenedRecords(p, sealed.manifest, records.value);
    if valid.Err? {
      return Err(valid.error);
    }
    r := Ok(VerifiedExport(sealed.manifest, records.value));
  }

  // ---------- Theorems ----------

  /** A well-formed plan seals exactly when it has not expired and its serialization fits. */
  lemma SealExact(p: Primitives, encryptionKey: Text, signingKey: Text, plan: AccountExportPlan, nonce: Nonce, now: u64)
    requires Lawful(p)
    ensures Sealed(p, encryptionKey, signingKey, plan, nonce, now).Ok? <==>
              now < plan.manifest.expiresAt && Serialized(plan.records).Ok?
    ensures Sealed(p, encryptionKey, signingKey, plan, nonce, now).Ok? ==>
              |Sealed(p, encryptionKey, signingKey, plan, nonce, now).value.ciphertext| <= MAX_CIPHERTEXT_BYTES
  {
    if Serialized(plan.records).Ok? {
      var payload := Serialized(plan.records).value;
      var encrypted := p.encrypt(encryptionKey, nonce, AssociatedData(plan.manifest), payload);
      assert encrypted.Some? && |encrypted.value| == |payload| + AEAD_TAG_BYTES;
    }
  }

  /** Every prepared metadata-only plan can be sealed before it expires. */
  lemma MetadataPlansSeal(p: Primitives, encryptionKey: Text, signingKey: Text, a: ExportAuthorization,
                          records: seq<ExportRecord>,
                          prepared: u64, watermark: Watermark, nonce: Nonce, now: u64)
    requires Lawful(p) && a.fields == MetadataOnly && now < a.expiresAt
    requires Prepared(p.sha256, a, records, prepared, watermark).Ok?
    ensures Sealed(p, encryptionKey, signingKey, Prepared(p.sha256, a, records, prepared, watermark).value, nonce,
                   now).Ok?
  {
    var plan := Prepared(p.sha256, a, records, prepared, watermark).value;
    PreparedWellFormed(p.sha256, a, records, prepared, watermark);
    SortContents(plan.records);
    forall i | 0 <= i < |plan.records| ensures SortByAccount(plan.records)[i].secretRef.None? {
      SortMember(plan.records, SortByAccount(plan.records)[i]);
    }
    MetadataFits(SortByAccount(plan.records));
    SealExact(p, encryptionKey, signingKey, plan, nonce, now);
  }

  /** The records of a well-formed plan, sorted, pass every check made on opening. */
  lemma SortedPlanValid(p: Primitives, plan: AccountExportPlan)
    requires WellFormedPlan(p.sha256, plan)
    ensures OpenedValid(p, plan.manifest, SortByAccount(plan.records))
  {
    var sorted := SortByAccount(plan.records);
    SortContents(plan.records);
    SortCanonical(plan.records);
    CanonicalDistinct(sorted);
    SortOfTenant(plan.records, plan.manifest.tenantId);
    forall i | 0 <= i < |sorted| ensures sorted[i] in plan.records {
      SortMember(plan.records, sorted[i]);
    }
    FaultlessExact(sorted, plan.manifest.tenantId, plan.manifest.fields);
    PreimageIgnoresOrder(plan.manifest, sorted, plan.records);
  }

  /**
   * Opening what was sealed from a prepared plan, before it expires, returns its manifest and its records in canonical
   * order.
   */
  lemma RoundTrip(p: Primitives, encryptionKey: Text, signingKey: Text, a: ExportAuthorization,
                  records: seq<ExportRecord>,
                  prepared: u64, watermark: Watermark, nonce: Nonce, sealedAt: u64, openedAt: u64)
    requires Lawful(p)
    requires Prepared(p.sha256, a, records, prepared, watermark).Ok?
    requires sealedAt < a.expiresAt && openedAt < a.expiresAt
    requires Serialized(ProjectRecords(a.fields, records)).Ok?
    ensures
      var plan := Prepared(p.sha256, a, records, prepared, watermark).value;
      var sealed := Sealed(p, encryptionKey, signingKey, plan, nonce, sealedAt);
      && sealed.Ok? && |sealed.value.ciphertext| <= MAX_CIPHERTEXT_BYTES
      && Opened(p, encryptionKey, p.publicKey(signingKey), sealed.value, openedAt)
         == Ok(VerifiedExport(plan.manifest, SortByAccount(plan.records)))
  {
    var plan := Prepared(p.sha256, a, records, prepared, watermark).value;
    PreparedWellFormed(p.sha256, a, records, prepared, watermark);
    SealExact(p, encryptionKey, signingKey, plan, nonce, sealedAt);
    var payload := Serialized(plan.records).value;
    var encrypted := p.encrypt(encryptionKey, nonce, AssociatedData(plan.manifest), payload).value;
    OpenedEnvelopeIs(Envelope(nonce, encrypted), nonce, encrypted);
    ParseAfterSerialize(plan.records, plan.manifest.tenantId);
    SortedPlanValid(p, plan);
  }

  /** Whatever opens carries canonical records of the manifest's tenant, count, shape and digest. */
  lemma OpenedIsConsistent(p: Primitives, encryptionKey: Text, verificationKey: Text, sealed: SealedExport, now: u64)
    requires |sealed.ciphertext| <= MAX_CIPHERTEXT_BYTES
    requires Opened(p, encryptionKey, verificationKey, sealed, now).Ok?
    ensures
      var v := Opened(p, encryptionKey, verificationKey, sealed, now).value;
      && v.manifest == sealed.manifest
      && Canonical(v.records) && |v.records| == v.manifest.recordCount
      && OfTenant(v.records, v.manifest.tenantId)
      && FieldShape(v.manifest.fields, v.records)
      && v.manifest.digest == p.sha256(ManifestPreimage(v.manifest, v.records))
  {
  }

  /** Two artifacts with one manifest open to the same records, unless SHA-256 collides on their preimages. */
  lemma ManifestFixesRecords(p: Primitives, k1: Text, v1: Text, s1: SealedExport, t1: u64, k2: Text, v2: Text,
                             s2: SealedExport, t2: u64)
    requires |s1.ciphertext| <= MAX_CIPHERTEXT_BYTES && |s2.ciphertext| <= MAX_CIPHERTEXT_BYTES
    requires s1.manifest == s2.manifest
    requires Opened(p, k1, v1, s1, t1).Ok? && Opened(p, k2, v2, s2, t2).Ok?
    requires
      var a := ManifestPreimage(s1.manifest, Opened(p, k1, v1, s1, t1).value.records);
      var b := ManifestPreimage(s2.manifest, Opened(p, k2, v2, s2, t2).value.records);
      p.sha256(a) == p.sha256(b) ==> a == b
    ensures Opened(p, k1, v1, s1, t1).value == Opened(p, k2, v2, s2, t2).value
  {
    OpenedIsConsistent(p, k1, v1, s1, t1);
    OpenedIsConsistent(p, k2, v2, s2, t2);
    var a := Opened(p, k1, v1, s1, t1).value.records;
    var b := Opened(p, k2, v2, s2, t2).value.records;
    PreimageDeterminesRecords(s1.manifest, a, b);
    CanonicalDistinct(a);
    CanonicalDistinct(b);
    SortIgnoresOrder(a, a);
    SortIgnoresOrder(b, b);
  }
}
