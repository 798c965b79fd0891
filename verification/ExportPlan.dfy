/** Validation of an export request and construction of the immutable plan. */
module ExportPlan {
  import opened Words
  import opened ExportModel
  import opened ExportSort
  import opened ExportDigest

  /** What is wrong with record `i`, given the ones before it. */
  ghost function RecordFault(records: seq<ExportRecord>, i: nat, tenantId: Id,
                             fields: ExportFields): Option<ExportErrorCode>
    requires i < |records|
  {
    if records[i].tenantId != tenantId then Some(ScopeMismatch)
    else if fields == MetadataAndSecretReferences && records[i].secretRef.None? then Some(MissingSecretReference)
    else if exists j :: 0 <= j < i && records[j].accountId == records[i].accountId then Some(DuplicateAccount)
    else None
  }

  /** The fault of the first faulty record. */
  ghost function FirstFault(records: seq<ExportRecord>, tenantId: Id, fields: ExportFields): Option<ExportErrorCode> {
    if records == [] then None else
      var earlier := FirstFault(records[..|records| - 1], tenantId, fields);
      if earlier.Some? then earlier else RecordFault(records, |records| - 1, tenantId, fields)
  }

  ghost predicate SecretsPresent(records: seq<ExportRecord>) {
    forall i :: 0 <= i < |records| ==> records[i].secretRef.Some?
  }

  ghost predicate SecretsAbsent(records: seq<ExportRecord>) {
    forall i :: 0 <= i < |records| ==> records[i].secretRef.None?
  }

  /** Records are faultless exactly when they belong to the tenant, carry required references and repeat no account. */
  lemma {:induction false} FaultlessExact(records: seq<ExportRecord>, tenantId: Id, fields: ExportFields)
    ensures FirstFault(records, tenantId, fields).None? <==>
            && OfTenant(records, tenantId) && DistinctAccounts(records)
            && (fields == MetadataAndSecretReferences ==> SecretsPresent(records))
  {
    if records != [] {
      var n := |records| - 1;
      FaultlessExact(records[..n], tenantId, fields);
      FaultlessLast(records, tenantId, fields);
    }
  }

  lemma FaultlessLast(records: seq<ExportRecord>, tenantId: Id, fields: ExportFields)
    requires records != []
    ensures
      var init := records[..|records| - 1];
      && (OfTenant(records, tenantId) && DistinctAccounts(records)
          && (fields == MetadataAndSecretReferences ==> SecretsPresent(records)))
         <==>
         (&& OfTenant(init, tenantId) && DistinctAccounts(init)
          && (fields == MetadataAndSecretReferences ==> SecretsPresent(init))
          && RecordFault(records, |records| - 1, tenantId, fields).None?)
  {
    var n := |records| - 1;
    var init := records[..n];
    assert forall i :: 0 <= i < n ==> init[i] == records[i];
  }

  method ValidateRecords(records: seq<ExportRecord>, tenantId: Id, fields: ExportFields)
    returns (r: Result<(), ExportErrorCode>)
    ensures r == match FirstFault(records, tenantId, fields) case None => Ok(()) case Some(e) => Err(e)
  {
    var seen: set<Text> := {};
    for i := 0 to |records|
      invariant FirstFault(records[..i], tenantId, fields).None?
      invariant seen == set j | 0 <= j < i :: records[j].accountId
    {
      FirstFaultAt(records, i, tenantId, fields);
      if records[i].tenantId != tenantId {
        return Err(ScopeMismatch);
      }
      if fields == MetadataAndSecretReferences && records[i].secretRef.None? {
        return Err(MissingSecretReference);
      }
      if records[i].accountId in seen {
        return Err(DuplicateAccount);
      }
      seen := seen + {records[i].accountId};
    }
    assert records[..|records|] == records;
    r := Ok(());
  }

  lemma FirstFaultAt(records: seq<ExportRecord>, i: nat, tenantId: Id, fields: ExportFields)
    requires i < |records| && FirstFault(records[..i], tenantId, fields).None?
    ensures FirstFault(records[..i + 1], tenantId, fields) == RecordFault(records, i, tenantId, fields)
    ensures RecordFault(records, i, tenantId, fields).Some? ==>
              FirstFault(records, tenantId, fields) == RecordFault(records, i, tenantId, fields)
  {
    var prefix := records[..i + 1];
    assert prefix[..i] == records[..i];
    assert forall j :: 0 <= j < i ==> prefix[j] == records[j];
    if RecordFault(records, i, tenantId, fields).Some? {
      FaultStays(records, i + 1, tenantId, fields);
    }
  }

  lemma {:induction false} FaultStays(records: seq<ExportRecord>, n: nat, tenantId: Id, fields: ExportFields)
    requires n <= |records| && FirstFault(records[..n], tenantId, fields).Some?
    ensures FirstFault(records, tenantId, fields) == FirstFault(records[..n], tenantId, fields)
    decreases |records|
  {
    if n == |records| {
      assert records[..n] == records;
    } else {
      var init := records[..|records| - 1];
      assert init[..n] == records[..n];
      FaultStays(init, n, tenantId, fields);
    }
  }

  // ---------- Projection ----------

  function MetadataProjection(r: ExportRecord): ExportRecord {
    r.(secretRef := None)
  }

  /** A metadata-only export carries no secret reference at all. */
  function ProjectRecords(fields: ExportFields, records: seq<ExportRecord>): (r: seq<ExportRecord>)
    ensures |r| == |records|
  {
    match fields
    case MetadataOnly => seq(|records|, i requires 0 <= i < |records| => MetadataProjection(records[i]))
    case MetadataAndSecretReferences => records
  }

  // ---------- Preparing a plan ----------

  function RequirementsError(a: ExportAuthorization, count: nat, now: u64): Option<ExportErrorCode> {
    if now < a.issuedAt || now >= a.expiresAt then Some(AuthorizationExpired)
    else if count == 0 then Some(EmptyBatch)
    else if count > MAX_EXPORT_RECORDS then Some(TooManyRecords)
    else if (a.fields == MetadataAndSecretReferences || count > LARGE_EXPORT_THRESHOLD)
      && a.approval.secondary.None? then
      Some(SecondaryApprovalRequired)
    else None
  }

  /** The manifest of the projected records. */
  ghost function NewManifest(sha256: Text -> Digest, a: ExportAuthorization, records: seq<ExportRecord>,
                             watermark: Watermark): ExportManifest
    requires |records| <= U32_MAX
  {
    var projected := ProjectRecords(a.fields, records);
    ExportManifest(a.batchId, a.tenantId, a.fields, watermark, |records|, a.expiresAt,
                   sha256(DigestPreimage(a.tenantId, a.batchId, a.fields, a.expiresAt, watermark, |records|,
                                         projected)))
  }

  ghost function Prepared(sha256: Text -> Digest, a: ExportAuthorization, records: seq<ExportRecord>, now: u64,
                          watermark: Watermark): Result<AccountExportPlan, ExportErrorCode>
  {
    if RequirementsError(a, |records|, now).Some? then Err(RequirementsError(a, |records|, now).value)
    else if FirstFault(records, a.tenantId, a.fields).Some? then Err(FirstFault(records, a.tenantId, a.fields).value)
    else Ok(AccountExportPlan(a, ProjectRecords(a.fields, records), NewManifest(sha256, a, records, watermark)))
  }

  method Prepare(sha256: Text -> Digest, authorization: ExportAuthorization, records: seq<ExportRecord>, now: u64,
                 watermark: Watermark)
      returns (r: Result<AccountExportPlan, ExportErrorCode>)
    ensures r == Prepared(sha256, authorization, records, now, watermark)
  {
    var refused := RequirementsError(authorization, |records|, now);
    if refused.Some? {
      return Err(refused.value);
    }
    var valid := ValidateRecords(records, authorization.tenantId, authorization.fields);
    if valid.Err? {
      return Err(valid.error);
    }
    var projected := ProjectRecords(authorization.fields, records);
    var digest := ManifestDigest(sha256, authorization, projected, watermark, |records|);
    var manifest := ExportManifest(authorization.batchId, authorization.tenantId, authorization.fields, watermark,
                                   |records|, authorization.expiresAt, digest);
    r := Ok(AccountExportPlan(authorization, projected, manifest));
  }

  /** What every prepared plan satisfies. */
  ghost predicate WellFormedPlan(sha256: Text -> Digest, plan: AccountExportPlan) {
    && 0 < |plan.records| <= MAX_EXPORT_RECORDS
    && plan.manifest.recordCount == |plan.records|
    && OfTenant(plan.records, plan.manifest.tenantId)
    && DistinctAccounts(plan.records)
    && FieldShape(plan.manifest.fields, plan.records)
    && plan.manifest.digest == sha256(ManifestPreimage(plan.manifest, plan.records))
  }

  /** Secret references everywhere or nowhere, as the field selection says. */
  ghost predicate FieldShape(fields: ExportFields, records: seq<ExportRecord>) {
    match fields
    case MetadataOnly => SecretsAbsent(records)
    case MetadataAndSecretReferences => SecretsPresent(records)
  }

  lemma PreparedWellFormed(sha256: Text -> Digest, a: ExportAuthorization, records: seq<ExportRecord>, now: u64,
                           watermark: Watermark)
    requires Prepared(sha256, a, records, now, watermark).Ok?
    ensures WellFormedPlan(sha256, Prepared(sha256, a, records, now, watermark).value)
    ensures a.issuedAt <= now < Prepared(sha256, a, records, now, watermark).value.manifest.expiresAt
  {
    FaultlessExact(records, a.tenantId, a.fields);
    var projected := ProjectRecords(a.fields, records);
    assert forall i :: 0 <= i < |records| ==>
             projected[i].accountId == records[i].accountId && projected[i].tenantId == records[i].tenantId;
  }

  /** Preparation succeeds exactly inside the window, within bounds, with the approvals and for faultless records. */
  lemma PreparedExact(sha256: Text -> Digest, a: ExportAuthorization, records: seq<ExportRecord>, now: u64,
                      watermark: Watermark)
    ensures Prepared(sha256, a, records, now, watermark).Ok? <==>
            && a.issuedAt <= now < a.expiresAt
            && 0 < |records| <= MAX_EXPORT_RECORDS
            && (a.fields == MetadataAndSecretReferences || |records| > LARGE_EXPORT_THRESHOLD ==>
                a.approval.secondary.Some?)
            && OfTenant(records, a.tenantId) && DistinctAccounts(records)
            && (a.fields == MetadataAndSecretReferences ==> SecretsPresent(records))
  {
    FaultlessExact(records, a.tenantId, a.fields);
  }

  // ---------- An export at the threshold with one approval ----------

  /** The three decimal digits of `i`. */
  function Digits(i: nat): (r: Id)
    requires i < 1000
  {
    [0x30 + i / 100, 0x30 + i % 100 / 10, 0x30 + i % 100 % 10]
  }

  lemma DigitsInjective(i: nat, j: nat)
    requires i < 1000 && j < 1000 && Digits(i) == Digits(j)
    ensures i == j
  {
    var a, b := Digits(i), Digits(j);
    assert i / 100 == a[0] - 0x30 == j / 100;
    assert i % 100 / 10 == a[1] - 0x30 == j % 100 / 10;
    assert i % 100 % 10 == a[2] - 0x30 == j % 100 % 10;
  }

  const TENANT: Id := [0x74]

  /** Exactly as many metadata records as the threshold names, one account each. */
  function RecordsAtThreshold(): (r: seq<ExportRecord>)
    ensures |r| == LARGE_EXPORT_THRESHOLD
  {
    seq(LARGE_EXPORT_THRESHOLD, i requires 0 <= i < LARGE_EXPORT_THRESHOLD =>
        ExportRecord(TENANT, Digits(i), 1, 1, None))
  }

  /** An export of exactly the threshold is prepared with the first approval alone. */
  lemma ThresholdNeedsNoSecondApproval(sha256: Text -> Digest, a: ExportAuthorization, now: u64, watermark: Watermark)
    requires a.tenantId == TENANT && a.fields == MetadataOnly && a.approval.secondary.None?
    requires a.issuedAt <= now < a.expiresAt
    ensures |RecordsAtThreshold()| == LARGE_EXPORT_THRESHOLD
    ensures Prepared(sha256, a, RecordsAtThreshold(), now, watermark).Ok?
  {
    var records := RecordsAtThreshold();
    forall i, j | 0 <= i < j < |records| ensures records[i].accountId != records[j].accountId {
      if records[i].accountId == records[j].accountId {
        DigitsInjective(i, j);
      }
    }
    PreparedExact(sha256, a, records, now, watermark);
  }
}
