/** The bytes hashed into a manifest digest, and the two routines that hash them. */
module ExportDigest {
  import opened Words
  import opened BigEndian
  import opened ExportModel
  import opened ExportSort

  /** A hashed text: its length in eight bytes, then its bytes. */
  function LongField(t: Text): Text
    requires |t| <= U64_MAX
  {
    Be64(|t|) + t
  }

  function DigestHeader(tenantId: Id, batchId: BatchId, fields: ExportFields, expiresAt: u64, watermark: Watermark,
                        count: u32): Text
  {
    Ascii("ariadnion-account-export-v1") + [0] + LongField(tenantId) + LongField(batchId) + [Tag(fields)]
    + Be64(expiresAt) + LongField(watermark) + Be32(count)
  }

  function DigestSecret(s: Option<SecretRef>): Text {
    match s
    case None => [0]
    case Some(v) => [1] + (LongField(v.provider) + (LongField(v.path) + (Be64(v.version) + LongField(v.purpose))))
  }

  function DigestRecord(r: ExportRecord): Text {
    LongField(r.tenantId) +
      (LongField(r.accountId) + (Be64(r.accountVersion) + (Be64(r.configVersion) + DigestSecret(r.secretRef))))
  }

  function DigestAll(rs: seq<ExportRecord>): Text {
    if rs == [] then [] else DigestAll(rs[..|rs| - 1]) + DigestRecord(rs[|rs| - 1])
  }

  function DigestPreimage(tenantId: Id, batchId: BatchId, fields: ExportFields, expiresAt: u64, watermark: Watermark,
                          count: u32,
                          records: seq<ExportRecord>): Text {
    DigestHeader(tenantId, batchId, fields, expiresAt, watermark, count) + DigestAll(SortByAccount(records))
  }

  function ManifestPreimage(m: ExportManifest, records: seq<ExportRecord>): Text {
    DigestPreimage(m.tenantId, m.batchId, m.fields, m.expiresAt, m.watermark, m.recordCount, records)
  }

  // ---------- Hashing ----------

  class Hasher {
    const sha256: Text -> Digest
    var absorbed: Text

    constructor (sha256: Text -> Digest)
      ensures this.sha256 == sha256 && absorbed == []
    {
      this.sha256 := sha256;
      absorbed := [];
    }

    method Update(value: Text)
      modifies this
      ensures absorbed == old(absorbed) + value
    {
      absorbed := absorbed + value;
    }

    method HashText(value: Text)
      requires |value| <= U64_MAX
      modifies this
      ensures absorbed == old(absorbed) + LongField(value)
    {
      Update(Be64(|value|));
      Update(value);
      Associative(old(absorbed), Be64(|value|), value);
    }

    method Finalize() returns (d: Digest)
      ensures d == sha256(absorbed)
    {
      d := sha256(absorbed);
    }
  }

  /** A record hashed field by field behind `was`. */
  lemma RecordAbsorbed(was: Text, r: ExportRecord)
    ensures
      var front := was + LongField(r.tenantId) + LongField(r.accountId) + Be64(r.accountVersion) +
        Be64(r.configVersion);
      match r.secretRef
      case None => front + [0] == was + DigestRecord(r)
      case Some(v) => front + [1] + LongField(v.provider) + LongField(v.path) + Be64(v.version) + LongField(v.purpose)
                      == was + DigestRecord(r)
  {
    var a, b, c, d, e := LongField(r.tenantId), LongField(r.accountId), Be64(r.accountVersion), Be64(r.configVersion),
      DigestSecret(r.secretRef);
    Associative(was, a, b + (c + (d + e)));
    Associative(was + a, b, c + (d + e));
    Associative(was + a + b, c, d + e);
    Associative(was + a + b + c, d, e);
    if r.secretRef.Some? {
      SecretAbsorbed(was + a + b + c + d, r.secretRef.value);
    }
  }

  lemma SecretAbsorbed(was: Text, v: SecretRef)
    ensures was + [1] + LongField(v.provider) + LongField(v.path) + Be64(v.version) + LongField(v.purpose)
            == was + DigestSecret(Some(v))
  {
    var a, b, c, d := LongField(v.provider), LongField(v.path), Be64(v.version), LongField(v.purpose);
    Associative(was, [1], a + (b + (c + d)));
    Associative(was + [1], a, b + (c + d));
    Associative(was + [1] + a, b, c + d);
    Associative(was + [1] + a + b, c, d);
  }

  lemma AllAbsorbed(was: Text, rs: seq<ExportRecord>, n: nat)
    requires n < |rs|
    ensures was + DigestAll(rs[..n]) + DigestRecord(rs[n]) == was + DigestAll(rs[..n + 1])
  {
    assert rs[..n + 1][..n] == rs[..n];
    Associative(was, DigestAll(rs[..n]), DigestRecord(rs[n]));
  }

  method HashRecord(hasher: Hasher, record: ExportRecord)
    modifies hasher
    ensures hasher.absorbed == old(hasher.absorbed) + DigestRecord(record)
  {
    RecordAbsorbed(hasher.absorbed, record);
    hasher.HashText(record.tenantId);
    hasher.HashText(record.accountId);
    hasher.Update(Be64(record.accountVersion));
    hasher.Update(Be64(record.configVersion));
    match record.secretRef {
      case Some(secret) =>
        hasher.Update([1]);
        hasher.HashText(secret.provider);
        hasher.HashText(secret.path);
        hasher.Update(Be64(secret.version));
        hasher.HashText(secret.purpose);
      case None =>
        hasher.Update([0]);
    }
  }

  method HashOrderedRecords(hasher: Hasher, records: seq<ExportRecord>)
    modifies hasher
    ensures hasher.absorbed == old(hasher.absorbed) + DigestAll(SortByAccount(records))
  {
    var ordered := SortByAccount(records);
    ghost var was := hasher.absorbed;
    for i := 0 to |ordered|
      invariant hasher.absorbed == was + DigestAll(ordered[..i])
    {
      AllAbsorbed(was, ordered, i);
      HashRecord(hasher, ordered[i]);
    }
    assert ordered[..|ordered|] == ordered;
  }

  /** The digest put into a new manifest. */
  method ManifestDigest(sha256: Text -> Digest, authorization: ExportAuthorization, records: seq<ExportRecord>,
                        watermark: Watermark, recordCount: u32) returns (d: Digest)
    ensures d == sha256(DigestPreimage(authorization.tenantId, authorization.batchId, authorization.fields,
                                       authorization.expiresAt, watermark, recordCount, records))
  {
    var hasher := new Hasher(sha256);
    hasher.Update(Ascii("ariadnion-account-export-v1") + [0]);
    hasher.HashText(authorization.tenantId);
    hasher.HashText(authorization.batchId);
    hasher.Update([Tag(authorization.fields)]);
    hasher.Update(Be64(authorization.expiresAt));
    hasher.HashText(watermark);
    hasher.Update(Be32(recordCount));
    HeaderAbsorbed(hasher.absorbed, authorization.tenantId, authorization.batchId, authorization.fields,
                   authorization.expiresAt, watermark, recordCount);
    HashPlanRecords(hasher, records);
    d := hasher.Finalize();
  }

  /** The record loop of the first routine, written out field by field. */
  method HashPlanRecords(hasher: Hasher, records: seq<ExportRecord>)
    modifies hasher
    ensures hasher.absorbed == old(hasher.absorbed) + DigestAll(SortByAccount(records))
  {
    var ordered := SortByAccount(records);
    ghost var was := hasher.absorbed;
    for i := 0 to |ordered|
      invariant hasher.absorbed == was + DigestAll(ordered[..i])
    {
      var record := ordered[i];
      AllAbsorbed(was, ordered, i);
      RecordAbsorbed(hasher.absorbed, record);
      hasher.HashText(record.tenantId);
      hasher.HashText(record.accountId);
      hasher.Update(Be64(record.accountVersion));
      hasher.Update(Be64(record.configVersion));
      match record.secretRef {
        case Some(secret) =>
          hasher.Update([1]);
          hasher.HashText(secret.provider);
          hasher.HashText(secret.path);
          hasher.Update(Be64(secret.version));
          hasher.HashText(secret.purpose);
        case None =>
          hasher.Update([0]);
      }
    }
    assert ordered[..|ordered|] == ordered;
  }

  lemma HeaderAbsorbed(absorbed: Text, tenantId: Id, batchId: BatchId, fields: ExportFields, expiresAt: u64,
                       watermark: Watermark, count: u32)
    requires absorbed == [] + (Ascii("ariadnion-account-export-v1") + [0]) + LongField(tenantId) + LongField(batchId) +
               [Tag(fields)]
                         + Be64(expiresAt) + LongField(watermark) + Be32(count)
    ensures absorbed == DigestHeader(tenantId, batchId, fields, expiresAt, watermark, count)
  {
    var domain := Ascii("ariadnion-account-export-v1") + [0];
    assert [] + domain == domain;
  }

  /** The digest recomputed from a manifest and opened records. */
  method ManifestDigestFromParts(sha256: Text -> Digest, manifest: ExportManifest, records: seq<ExportRecord>)
    returns (d: Digest)
    ensures d == sha256(ManifestPreimage(manifest, records))
  {
    var hasher := new Hasher(sha256);
    hasher.Update(Ascii("ariadnion-account-export-v1") + [0]);
    hasher.HashText(manifest.tenantId);
    hasher.HashText(manifest.batchId);
    hasher.Update([Tag(manifest.fields)]);
    hasher.Update(Be64(manifest.expiresAt));
    hasher.HashText(manifest.watermark);
    hasher.Update(Be32(manifest.recordCount));
    HeaderAbsorbed(hasher.absorbed, manifest.tenantId, manifest.batchId, manifest.fields, manifest.expiresAt,
                   manifest.watermark, manifest.recordCount);
    HashOrderedRecords(hasher, records);
    d := hasher.Finalize();
  }

  // ---------- The hashed bytes determine the records ----------

  lemma LongFieldSuffix(x: Text, a: Text, y: Text, b: Text)
    requires |a| <= U64_MAX && |b| <= U64_MAX && LongField(a) + x == LongField(b) + y
    ensures a == b && x == y
  {
    Associative(Be64(|a|), a, x);
    Associative(Be64(|b|), b, y);
    SplitEqual(Be64(|a|), a + x, Be64(|b|), b + y);
    BeInjective();
    SplitEqual(a, x, b, y);
  }

  lemma DigestSecretFront(s: SecretRef, rest: Text)
    ensures DigestSecret(Some(s)) + rest ==
            [1] + (LongField(s.provider) + (LongField(s.path) + (Be64(s.version) + (LongField(s.purpose) + rest))))
  {
    var a, b, c, d := LongField(s.provider), LongField(s.path), Be64(s.version), LongField(s.purpose);
    Associative(c, d, rest);
    Associative(b, c + d, rest);
    Associative(a, b + (c + d), rest);
    Associative([1], a + (b + (c + d)), rest);
  }

  lemma DigestSecretPrefix(a: Option<SecretRef>, x: Text, b: Option<SecretRef>, y: Text)
    requires DigestSecret(a) + x == DigestSecret(b) + y
    ensures a == b && x == y
  {
    assert (DigestSecret(a) + x)[0] == DigestSecret(a)[0] && (DigestSecret(b) + y)[0] == DigestSecret(b)[0];
    if a.Some? && b.Some? {
      DigestSecretFront(a.value, x);
      DigestSecretFront(b.value, y);
      SplitEqual(
        [1],
        LongField(a.value.provider)
        + (LongField(a.value.path) + (Be64(a.value.version) + (LongField(a.value.purpose) + x))),
        [1],
        LongField(b.value.provider)
        + (LongField(b.value.path) + (Be64(b.value.version) + (LongField(b.value.purpose) + y))));
      DigestSecretBody(a.value, x, b.value, y);
    } else {
      SplitEqual(DigestSecret(a), x, DigestSecret(b), y);
    }
  }

  lemma DigestSecretBody(a: SecretRef, x: Text, b: SecretRef, y: Text)
    requires LongField(a.provider) + (LongField(a.path) + (Be64(a.version) + (LongField(a.purpose) + x)))
          == LongField(b.provider) + (LongField(b.path) + (Be64(b.version) + (LongField(b.purpose) + y)))
    ensures a == b && x == y
  {
    LongFieldSuffix(LongField(a.path) + (Be64(a.version) + (LongField(a.purpose) + x)), a.provider,
                    LongField(b.path) + (Be64(b.version) + (LongField(b.purpose) + y)), b.provider);
    LongFieldSuffix(Be64(a.version) + (LongField(a.purpose) + x), a.path, Be64(b.version) + (LongField(b.purpose) + y),
                    b.path);
    Be64Prefix(a.version, LongField(a.purpose) + x, b.version, LongField(b.purpose) + y);
    LongFieldSuffix(x, a.purpose, y, b.purpose);
  }

  lemma DigestRecordFront(r: ExportRecord, rest: Text)
    ensures DigestRecord(r) + rest ==
            LongField(r.tenantId) +
              (LongField(r.accountId) +
               (Be64(r.accountVersion) + (Be64(r.configVersion) + (DigestSecret(r.secretRef) + rest))))
  {
    var a, b, c, d, e := LongField(r.tenantId), LongField(r.accountId), Be64(r.accountVersion), Be64(r.configVersion),
      DigestSecret(r.secretRef);
    Associative(d, e, rest);
    Associative(c, d + e, rest);
    Associative(b, c + (d + e), rest);
    Associative(a, b + (c + (d + e)), rest);
  }

  lemma DigestRecordPrefix(a: ExportRecord, x: Text, b: ExportRecord, y: Text)
    requires DigestRecord(a) + x == DigestRecord(b) + y
    ensures a == b && x == y
  {
    DigestRecordFront(a, x);
    DigestRecordFront(b, y);
    var sa := DigestSecret(a.secretRef) + x;
    var sb := DigestSecret(b.secretRef) + y;
    LongFieldSuffix(LongField(a.accountId) + (Be64(a.accountVersion) + (Be64(a.configVersion) + sa)), a.tenantId,
                    LongField(b.accountId) + (Be64(b.accountVersion) + (Be64(b.configVersion) + sb)), b.tenantId);
    LongFieldSuffix(Be64(a.accountVersion) + (Be64(a.configVersion) + sa), a.accountId,
                    Be64(b.accountVersion) + (Be64(b.configVersion) + sb), b.accountId);
    Be64Prefix(a.accountVersion, Be64(a.configVersion) + sa, b.accountVersion, Be64(b.configVersion) + sb);
    Be64Prefix(a.configVersion, sa, b.configVersion, sb);
    DigestSecretPrefix(a.secretRef, x, b.secretRef, y);
  }

  lemma {:induction false} DigestAllAppend(a: seq<ExportRecord>, b: seq<ExportRecord>)
    ensures DigestAll(a + b) == DigestAll(a) + DigestAll(b)
  {
    if b == [] {
      assert a + b == a;
    } else {
      var n := |b| - 1;
      assert (a + b)[..|a + b| - 1] == a + b[..n];
      DigestAllAppend(a, b[..n]);
      Associative(DigestAll(a), DigestAll(b[..n]), DigestRecord(b[n]));
    }
  }

  lemma DigestAllOne(r: ExportRecord)
    ensures DigestAll([r]) == DigestRecord(r)
  {
    assert DigestAll([r]) == DigestAll([]) + DigestRecord(r);
  }

  lemma DigestAllFront(rs: seq<ExportRecord>)
    requires rs != []
    ensures DigestAll(rs) == DigestRecord(rs[0]) + DigestAll(rs[1..])
  {
    DigestAllAppend([rs[0]], rs[1..]);
    DigestAllOne(rs[0]);
    assert rs == [rs[0]] + rs[1..];
  }

  lemma DigestAllEmpty(rs: seq<ExportRecord>)
    ensures DigestAll(rs) == [] <==> rs == []
  {
  }

  /** One step of the comparison of two hashed sequences. */
  lemma DigestAllHeads(a: seq<ExportRecord>, b: seq<ExportRecord>)
    requires a != [] && b != [] && DigestAll(a) == DigestAll(b)
    ensures a[0] == b[0] && DigestAll(a[1..]) == DigestAll(b[1..])
  {
    DigestAllFront(a);
    DigestAllFront(b);
    DigestRecordPrefix(a[0], DigestAll(a[1..]), b[0], DigestAll(b[1..]));
  }

  lemma {:induction false} DigestAllInjective(a: seq<ExportRecord>, b: seq<ExportRecord>)
    requires DigestAll(a) == DigestAll(b)
    ensures a == b
    decreases |a|
  {
    hide DigestAll;
    DigestAllEmpty(a);
    DigestAllEmpty(b);
    if a != [] {
      DigestAllHeads(a, b);
      DigestAllInjective(a[1..], b[1..]);
      assert a == [a[0]] + a[1..] && b == [b[0]] + b[1..];
    }
  }

  /** For one manifest, equal preimages mean equal records up to order. */
  lemma PreimageDeterminesRecords(m: ExportManifest, a: seq<ExportRecord>, b: seq<ExportRecord>)
    requires ManifestPreimage(m, a) == ManifestPreimage(m, b)
    ensures SortByAccount(a) == SortByAccount(b)
  {
    var header := DigestHeader(m.tenantId, m.batchId, m.fields, m.expiresAt, m.watermark, m.recordCount);
    SplitEqual(header, DigestAll(SortByAccount(a)), header, DigestAll(SortByAccount(b)));
    DigestAllInjective(SortByAccount(a), SortByAccount(b));
  }

  /** The preimage does not depend on the order in which records of distinct accounts are given. */
  lemma PreimageIgnoresOrder(m: ExportManifest, a: seq<ExportRecord>, b: seq<ExportRecord>)
    requires DistinctAccounts(a) && DistinctAccounts(b) && multiset(a) == multiset(b)
    ensures ManifestPreimage(m, a) == ManifestPreimage(m, b)
  {
    SortIgnoresOrder(a, b);
  }
}
