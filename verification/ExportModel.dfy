/** The values of an account export and their canonical byte encodings. */
module ExportModel {
  import opened Words
  import opened BigEndian

  const MAX_EXPORT_RECORDS: nat := 131072
  const LARGE_EXPORT_THRESHOLD: nat := 1000
  const MAX_CIPHERTEXT_BYTES: nat := 67_108_864
  const NONCE_BYTES: nat := 24
  const AEAD_TAG_BYTES: nat := 16
  const ENVELOPE_PREFIX_BYTES: nat := 34
  const MAX_PLAINTEXT_BYTES: nat := 67_108_814
  const MAX_MANIFEST_BYTES: nat := 1024
  const FORMAT_VERSION: u16 := 1

  datatype ExportErrorCode =
    | InvalidArgument
    | EmptyBatch
    | TooManyRecords
    | DuplicateAccount
    | AuthorizationExpired
    | SecondaryApprovalRequired
    | ScopeMismatch
    | ArtifactTooLarge
    | MissingSecretReference
    | SignatureInvalid
    | AuthenticationFailed

  // ---------- Validated values ----------

  predicate IsIdByte(b: u8) {
    0x30 <= b <= 0x39 || 0x41 <= b <= 0x5A || 0x61 <= b <= 0x7A || b == 0x2E || b == 0x2D || b == 0x5F || b == 0x3A
  }

  predicate ValidId(t: Text) {
    0 < |t| <= 128 && forall i :: 0 <= i < |t| ==> IsIdByte(t[i])
  }

  predicate ValidPath(t: Text) {
    0 < |t| <= 512 && forall i :: 0 <= i < |t| ==> 0x20 <= t[i] <= 0x7E
  }

  predicate ValidVisible(t: Text, limit: nat) {
    0 < |t| <= limit && forall i :: 0 <= i < |t| ==> 0x21 <= t[i] <= 0x7E
  }

  type Id = t: Text | ValidId(t) witness [0x61]
  type SecretPath = t: Text | ValidPath(t) witness [0x61]
  type BatchId = t: Text | ValidVisible(t, 128) witness [0x61]
  type Watermark = t: Text | ValidVisible(t, 160) witness [0x61]
  type Digest = t: Text | |t| == 32 witness seq(32, _ => 0)
  type Nonce = t: Text | |t| == NONCE_BYTES witness seq(NONCE_BYTES, _ => 0)

  datatype SecretRef = SecretRef(provider: Id, path: SecretPath, version: NonZeroU64, purpose: Id)

  datatype ExportRecord = ExportRecord(
    tenantId: Id, accountId: Id, accountVersion: NonZeroU64, configVersion: NonZeroU64, secretRef: Option<SecretRef>)

  datatype ExportFields = MetadataOnly | MetadataAndSecretReferences

  function Tag(fields: ExportFields): u8 {
    match fields
    case MetadataOnly => 1
    case MetadataAndSecretReferences => 2
  }

  datatype ExportApproval = ExportApproval(primary: Id, secondary: Option<Id>)

  datatype ExportAuthorization = ExportAuthorization(
    tenantId: Id, batchId: BatchId, approval: ExportApproval, fields: ExportFields, issuedAt: u64, expiresAt: u64)

  datatype ExportManifest = ExportManifest(
    batchId: BatchId, tenantId: Id, fields: ExportFields, watermark: Watermark,
    recordCount: u32, expiresAt: u64, digest: Digest)

  datatype AccountExportPlan = AccountExportPlan(
    authorization: ExportAuthorization, records: seq<ExportRecord>, manifest: ExportManifest)

  // ---------- Canonical encodings ----------

  const PAYLOAD_MAGIC: Text := Ascii("ARDPAY01")
  const ENVELOPE_MAGIC: Text := Ascii("ARDEXP01")

  /** A text field: its length in two bytes, then its bytes. */
  function Field(t: Text): Text
    requires |t| <= U16_MAX
  {
    Be16(|t|) + t
  }

  function EncodeSecret(s: SecretRef): Text {
    Field(s.provider) + (Field(s.path) + (Be64(s.version) + Field(s.purpose)))
  }

  /** The discriminator byte and what it announces. */
  function EncodeOptionalSecret(s: Option<SecretRef>): Text {
    match s
    case None => [0]
    case Some(secret) => [1] + EncodeSecret(secret)
  }

  function EncodeRecord(r: ExportRecord): Text {
    Field(r.accountId) + (Be64(r.accountVersion) + (Be64(r.configVersion) + EncodeOptionalSecret(r.secretRef)))
  }

  function EncodeAll(rs: seq<ExportRecord>): Text {
    if rs == [] then [] else EncodeRecord(rs[0]) + EncodeAll(rs[1..])
  }

  function EncodeHeader(count: u32): Text {
    PAYLOAD_MAGIC + (Be16(FORMAT_VERSION) + Be32(count))
  }

  function EncodePayload(rs: seq<ExportRecord>): Text
    requires |rs| <= U32_MAX
  {
    EncodeHeader(|rs|) + EncodeAll(rs)
  }

  lemma {:induction false} EncodeAllAppend(a: seq<ExportRecord>, b: seq<ExportRecord>)
    ensures EncodeAll(a + b) == EncodeAll(a) + EncodeAll(b)
  {
    if a == [] {
      assert a + b == b;
    } else {
      assert (a + b)[1..] == a[1..] + b;
      EncodeAllAppend(a[1..], b);
    }
  }

  lemma EncodeAllOne(r: ExportRecord)
    ensures EncodeAll([r]) == EncodeRecord(r)
  {
    assert EncodeAll([r]) == EncodeRecord(r) + EncodeAll([]);
  }

  lemma EncodeAllLast(rs: seq<ExportRecord>, n: nat)
    requires n < |rs|
    ensures EncodeAll(rs[..n + 1]) == EncodeAll(rs[..n]) + EncodeRecord(rs[n])
  {
    assert rs[..n + 1] == rs[..n] + [rs[n]];
    EncodeAllAppend(rs[..n], [rs[n]]);
    EncodeAllOne(rs[n]);
  }

  // ---------- Every encoding is a prefix code ----------

  lemma FieldPrefix(a: Text, x: Text, b: Text, y: Text)
    requires |a| <= U16_MAX && |b| <= U16_MAX && Field(a) + x == Field(b) + y
    ensures a == b && x == y
  {
    assert Field(a) + x == Be16(|a|) + (a + x);
    assert Field(b) + y == Be16(|b|) + (b + y);
    SplitEqual(Be16(|a|), a + x, Be16(|b|), b + y);
    BeInjective();
    SplitEqual(a, x, b, y);
  }

  lemma Be64Prefix(a: u64, x: Text, b: u64, y: Text)
    requires Be64(a) + x == Be64(b) + y
    ensures a == b && x == y
  {
    SplitEqual(Be64(a), x, Be64(b), y);
    BeInjective();
  }

  lemma SecretPrefix(a: SecretRef, x: Text, b: SecretRef, y: Text)
    requires EncodeSecret(a) + x == EncodeSecret(b) + y
    ensures a == b && x == y
  {
    SecretFront(a, x);
    SecretFront(b, y);
    FieldPrefix(a.provider, Field(a.path) + (Be64(a.version) + (Field(a.purpose) + x)),
                b.provider, Field(b.path) + (Be64(b.version) + (Field(b.purpose) + y)));
    FieldPrefix(a.path, Be64(a.version) + (Field(a.purpose) + x), b.path, Be64(b.version) + (Field(b.purpose) + y));
    Be64Prefix(a.version, Field(a.purpose) + x, b.version, Field(b.purpose) + y);
    FieldPrefix(a.purpose, x, b.purpose, y);
  }

  /** An encoded secret reference read field by field. */
  lemma SecretFront(s: SecretRef, rest: Text)
    ensures EncodeSecret(s) + rest ==
              Field(s.provider) + (Field(s.path) + (Be64(s.version) + (Field(s.purpose) + rest)))
  {
    assert EncodeSecret(s) + rest
        == Field(s.provider) + ((Field(s.path) + (Be64(s.version) + Field(s.purpose))) + rest)
        == Field(s.provider) + (Field(s.path) + ((Be64(s.version) + Field(s.purpose)) + rest));
    assert (Be64(s.version) + Field(s.purpose)) + rest == Be64(s.version) + (Field(s.purpose) + rest);
  }

  lemma OptionalSecretPrefix(a: Option<SecretRef>, x: Text, b: Option<SecretRef>, y: Text)
    requires EncodeOptionalSecret(a) + x == EncodeOptionalSecret(b) + y
    ensures a == b && x == y
  {
    OptionalSecretFront(a, x);
    OptionalSecretFront(b, y);
    var ta := [EncodeOptionalSecret(a)[0]];
    var tb := [EncodeOptionalSecret(b)[0]];
    SplitEqual(ta, if a.Some? then EncodeSecret(a.value) + x else x,
               tb, if b.Some? then EncodeSecret(b.value) + y else y);
    assert ta[0] == tb[0];
    if a.Some? && b.Some? {
      SecretPrefix(a.value, x, b.value, y);
    }
  }

  lemma OptionalSecretFront(s: Option<SecretRef>, rest: Text)
    ensures EncodeOptionalSecret(s) + rest == [EncodeOptionalSecret(s)[0]] + if s.Some?
            then EncodeSecret(s.value) + rest else rest
  {
    if s.Some? {
      Associative([1], EncodeSecret(s.value), rest);
    }
  }

  /** An encoded record read field by field. */
  lemma RecordFront(r: ExportRecord, rest: Text)
    ensures EncodeRecord(r) + rest ==
            Field(r.accountId) + (Be64(r.accountVersion) +
                                  (Be64(r.configVersion) + (EncodeOptionalSecret(r.secretRef) + rest)))
  {
    var tail := EncodeOptionalSecret(r.secretRef);
    assert EncodeRecord(r) + rest ==
             Field(r.accountId) + ((Be64(r.accountVersion) + (Be64(r.configVersion) + tail)) + rest);
    assert (Be64(r.accountVersion) + (Be64(r.configVersion) + tail)) + rest
        == Be64(r.accountVersion) + ((Be64(r.configVersion) + tail) + rest);
    assert (Be64(r.configVersion) + tail) + rest == Be64(r.configVersion) + (tail + rest);
  }

  /** No encoded record is the beginning of another: what follows a record is determined with it. */
  lemma RecordPrefix(a: ExportRecord, x: Text, b: ExportRecord, y: Text)
    requires a.tenantId == b.tenantId && EncodeRecord(a) + x == EncodeRecord(b) + y
    ensures a == b && x == y
  {
    RecordFront(a, x);
    RecordFront(b, y);
    var sa := EncodeOptionalSecret(a.secretRef) + x;
    var sb := EncodeOptionalSecret(b.secretRef) + y;
    FieldPrefix(a.accountId, Be64(a.accountVersion) + (Be64(a.configVersion) + sa),
                b.accountId, Be64(b.accountVersion) + (Be64(b.configVersion) + sb));
    Be64Prefix(a.accountVersion, Be64(a.configVersion) + sa, b.accountVersion, Be64(b.configVersion) + sb);
    Be64Prefix(a.configVersion, sa, b.configVersion, sb);
    OptionalSecretPrefix(a.secretRef, x, b.secretRef, y);
  }

  ghost predicate OfTenant(rs: seq<ExportRecord>, tenantId: Id) {
    forall i :: 0 <= i < |rs| ==> rs[i].tenantId == tenantId
  }

  lemma AllFront(rs: seq<ExportRecord>, rest: Text)
    requires rs != []
    ensures EncodeAll(rs) + rest == EncodeRecord(rs[0]) + (EncodeAll(rs[1..]) + rest)
  {
  }

  lemma {:induction false} AllPrefix(a: seq<ExportRecord>, x: Text, b: seq<ExportRecord>, y: Text, tenantId: Id)
    requires |a| == |b| && OfTenant(a, tenantId) && OfTenant(b, tenantId)
    requires EncodeAll(a) + x == EncodeAll(b) + y
    ensures a == b && x == y
  {
    if a == [] {
      assert EncodeAll(a) + x == x && EncodeAll(b) + y == y;
    } else {
      AllFront(a, x);
      AllFront(b, y);
      RecordPrefix(a[0], EncodeAll(a[1..]) + x, b[0], EncodeAll(b[1..]) + y);
      AllPrefix(a[1..], x, b[1..], y, tenantId);
      assert a == [a[0]] + a[1..] && b == [b[0]] + b[1..];
    }
  }

  lemma HeaderLength(count: u32)
    ensures |EncodeHeader(count)| == 14
  {
  }

  /** A payload determines its records. */
  lemma PayloadInjective(a: seq<ExportRecord>, b: seq<ExportRecord>, tenantId: Id)
    requires |a| <= U32_MAX && |b| <= U32_MAX && OfTenant(a, tenantId) && OfTenant(b, tenantId)
    requires EncodePayload(a) == EncodePayload(b)
    ensures a == b
  {
    SplitEqual(EncodeHeader(|a|), EncodeAll(a), EncodeHeader(|b|), EncodeAll(b));
    SplitEqual(PAYLOAD_MAGIC, Be16(FORMAT_VERSION) + Be32(|a|), PAYLOAD_MAGIC, Be16(FORMAT_VERSION) + Be32(|b|));
    SplitEqual(Be16(FORMAT_VERSION), Be32(|a|), Be16(FORMAT_VERSION), Be32(|b|));
    BeInjective();
    assert EncodeAll(a) + [] == EncodeAll(a) && EncodeAll(b) + [] == EncodeAll(b);
    AllPrefix(a, [], b, [], tenantId);
  }

  // ---------- Sizes ----------

  lemma MetadataRecordSize(r: ExportRecord)
    requires r.secretRef.None?
    ensures |EncodeRecord(r)| <= 147
  {
  }

  lemma {:induction false} MetadataSize(rs: seq<ExportRecord>)
    requires forall i :: 0 <= i < |rs| ==> rs[i].secretRef.None?
    ensures |EncodeAll(rs)| <= 147 * |rs|
  {
    if rs != [] {
      MetadataRecordSize(rs[0]);
      MetadataSize(rs[1..]);
    }
  }

  /** Every metadata-only batch within the record bound fits the plaintext bound. */
  lemma MetadataFits(rs: seq<ExportRecord>)
    requires |rs| <= MAX_EXPORT_RECORDS
    requires forall i :: 0 <= i < |rs| ==> rs[i].secretRef.None?
    ensures |EncodePayload(rs)| <= MAX_PLAINTEXT_BYTES
  {
    MetadataSize(rs);
    HeaderLength(|rs|);
  }
}
