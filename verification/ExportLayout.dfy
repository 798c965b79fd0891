/** Where everything stands in the export's byte formats, counted in bytes. */
module ExportLayout {
  import opened Words
  import opened BigEndian
  import opened ExportModel
  import opened ExportDigest
  import opened ExportSeal

  /** `t` stands in `s` from `from` on. */
  predicate StandsAt(s: Text, from: nat, t: Text) {
    from + |t| <= |s| && s[from..from + |t|] == t
  }

  /** A text with its length before it, in two bytes. */
  predicate TextAt(s: Text, from: nat, t: Text) {
    |t| <= U16_MAX && StandsAt(s, from, Be16(|t|) + t)
  }

  /** The same with eight bytes. */
  predicate LongTextAt(s: Text, from: nat, t: Text) {
    |t| <= U64_MAX && StandsAt(s, from, Be64(|t|) + t)
  }

  lemma First(s: Text, t: Text)
    ensures StandsAt(s + t, 0, s) && StandsAt(s + t, |s|, t)
  {
  }

  lemma Kept(s: Text, t: Text, from: nat, x: Text)
    requires StandsAt(s, from, x)
    ensures StandsAt(s + t, from, x)
  {
    assert (s + t)[from..from + |x|] == s[from..from + |x|];
  }

  lemma Moved(s: Text, t: Text, from: nat, x: Text)
    requires StandsAt(t, from, x)
    ensures StandsAt(s + t, |s| + from, x)
  {
    assert (s + t)[|s| + from..|s| + from + |x|] == t[from..from + |x|];
  }

  /** Magic, version 1 in two bytes, nonce and encrypted payload. */
  lemma EnvelopeLayout(nonce: Nonce, payload: Text)
    ensures
      var e := Envelope(nonce, payload);
      && |e| == 34 + |payload|
      && StandsAt(e, 0, Ascii("ARDEXP01")) && StandsAt(e, 8, [0, 1])
      && StandsAt(e, 10, nonce) && StandsAt(e, 34, payload)
  {
    Be16Bytes(1);
  }

  /** Magic, version 1 in two bytes and the number of records in four. */
  lemma HeaderLayout(count: u32)
    ensures
      var h := EncodeHeader(count);
      |h| == 14 && StandsAt(h, 0, Ascii("ARDPAY01")) && StandsAt(h, 8, [0, 1]) && StandsAt(h, 10, Be32(count))
  {
    Be16Bytes(1);
  }

  /** The header, then the records one after the other. */
  lemma PayloadLayout(rs: seq<ExportRecord>, k: nat)
    requires k < |rs| <= U32_MAX
    ensures
      var p := EncodePayload(rs);
      StandsAt(p, 0, EncodeHeader(|rs|)) && StandsAt(p, 14 + |EncodeAll(rs[..k])|, EncodeRecord(rs[k]))
    ensures EncodeAll(rs[..0]) == [] && |EncodePayload(rs)| == 14 + |EncodeAll(rs)|
  {
    HeaderLayout(|rs|);
    NothingEncoded(rs);
    RecordStands(rs, k);
    hide StandsAt, EncodeHeader, EncodeRecord, EncodeAll;
    Moved(EncodeHeader(|rs|), EncodeAll(rs), |EncodeAll(rs[..k])|, EncodeRecord(rs[k]));
    First(EncodeHeader(|rs|), EncodeAll(rs));
  }

  lemma RecordStands(rs: seq<ExportRecord>, k: nat)
    requires k < |rs|
    ensures StandsAt(EncodeAll(rs), |EncodeAll(rs[..k])|, EncodeRecord(rs[k]))
  {
    hide StandsAt, EncodeRecord, EncodeAll;
    EncodeAllLast(rs, k);
    assert rs == rs[..k + 1] + rs[k + 1..];
    EncodeAllAppend(rs[..k + 1], rs[k + 1..]);
    First(EncodeAll(rs[..k]), EncodeRecord(rs[k]));
    Kept(EncodeAll(rs[..k + 1]), EncodeAll(rs[k + 1..]), |EncodeAll(rs[..k])|, EncodeRecord(rs[k]));
  }

  lemma NothingEncoded(rs: seq<ExportRecord>)
    ensures EncodeAll(rs[..0]) == []
  {
  }

  /** Account, account version, configuration version, and whether a secret follows. */
  lemma RecordLayout(r: ExportRecord)
    ensures
      var s := EncodeRecord(r);
      var n := |r.accountId|;
      && TextAt(s, 0, r.accountId) && StandsAt(s, 2 + n, Be64(r.accountVersion))
      && StandsAt(s, 10 + n, Be64(r.configVersion)) && StandsAt(s, 18 + n, [if r.secretRef.Some? then 1 else 0])
      && (r.secretRef.None? ==> |s| == 19 + n)
      && (r.secretRef.Some? ==> StandsAt(s, 19 + n, EncodeSecret(r.secretRef.value)))
  {
    var secret := EncodeOptionalSecret(r.secretRef);
    var flag: Text := [if r.secretRef.Some? then 1 else 0];
    var config := Be64(r.configVersion) + secret;
    var account := Be64(r.accountVersion) + config;
    assert EncodeRecord(r) == Field(r.accountId) + account;
    OptionalLayout(r.secretRef, flag);
    FieldIs(r.accountId);
    hide StandsAt, EncodeOptionalSecret, EncodeSecret, EncodeRecord, Field;
    First(Field(r.accountId), account);
    Follows(r, Field(r.accountId), account, config, secret, flag);
  }

  lemma FieldIs(t: Text)
    requires |t| <= U16_MAX
    ensures |Field(t)| == 2 + |t| && Field(t) == Be16(|t|) + t
  {
  }

  lemma OptionalLayout(x: Option<SecretRef>, flag: Text)
    requires flag == [if x.Some? then 1 else 0]
    ensures StandsAt(EncodeOptionalSecret(x), 0, flag)
    ensures x.None? ==> |EncodeOptionalSecret(x)| == 1
    ensures x.Some? ==> StandsAt(EncodeOptionalSecret(x), 1, EncodeSecret(x.value))
  {
  }

  lemma Follows(r: ExportRecord, field: Text, account: Text, config: Text, secret: Text, flag: Text)
    requires config == Be64(r.configVersion) + secret && account == Be64(r.accountVersion) + config
    requires StandsAt(secret, 0, flag)
    requires r.secretRef.Some? ==> StandsAt(secret, 1, EncodeSecret(r.secretRef.value))
    ensures
      var s, n := field + account, |field|;
      && StandsAt(s, n, Be64(r.accountVersion)) && StandsAt(s, n + 8, Be64(r.configVersion))
      && StandsAt(s, n + 16, flag)
      && (r.secretRef.Some? ==> StandsAt(s, n + 17, EncodeSecret(r.secretRef.value)))
  {
    hide StandsAt, EncodeSecret;
    First(Be64(r.configVersion), secret);
    First(Be64(r.accountVersion), config);
    Moved(field, account, 0, Be64(r.accountVersion));
    Moved(Be64(r.accountVersion), config, 0, Be64(r.configVersion));
    Moved(field, account, 8, Be64(r.configVersion));
    Moved(Be64(r.configVersion), secret, 0, flag);
    Moved(Be64(r.accountVersion), config, 8, flag);
    Moved(field, account, 16, flag);
    if r.secretRef.Some? {
      var rest := EncodeSecret(r.secretRef.value);
      Moved(Be64(r.configVersion), secret, 1, rest);
      Moved(Be64(r.accountVersion), config, 9, rest);
      Moved(field, account, 17, rest);
    }
  }

  /** Provider, path, version and purpose. */
  lemma SecretLayout(x: SecretRef)
    ensures
      var s := EncodeSecret(x);
      var m := |x.provider| + |x.path|;
      && TextAt(s, 0, x.provider) && TextAt(s, 2 + |x.provider|, x.path)
      && StandsAt(s, 4 + m, Be64(x.version)) && TextAt(s, 12 + m, x.purpose)
      && |s| == 14 + m + |x.purpose|
  {
  }

  function TagOf(fields: ExportFields): Text {
    match fields
    case MetadataOnly => [1]
    case MetadataAndSecretReferences => [2]
  }

  /** Batch, tenant, fields, watermark, count, expiry and digest. */
  lemma ManifestLayout(m: ExportManifest)
    ensures
      var s := ManifestBytes(m);
      var b, t, w := |m.batchId|, |m.tenantId|, |m.watermark|;
      && TextAt(s, 0, m.batchId) && TextAt(s, 2 + b, m.tenantId) && StandsAt(s, 4 + b + t, TagOf(m.fields))
      && TextAt(s, 5 + b + t, m.watermark) && StandsAt(s, 7 + b + t + w, Be32(m.recordCount))
      && StandsAt(s, 11 + b + t + w, Be64(m.expiresAt)) && StandsAt(s, 19 + b + t + w, m.digest)
      && |s| == 51 + b + t + w
  {
  }

  /** Domain, envelope magic and version, then the manifest. */
  lemma AssociatedDataLayout(m: ExportManifest)
    ensures
      var s := AssociatedData(m);
      && StandsAt(s, 0, Ascii("ariadnion-account-export-aad-v1") + [0]) && StandsAt(s, 32, Ascii("ARDEXP01") + [0, 1])
      && |AssociatedData(m)| == 42 + |ManifestBytes(m)| && StandsAt(s, 42, ManifestBytes(m))
  {
    Be16Bytes(1);
    hide ManifestBytes;
  }

  /** What is signed: domain, associated data and ciphertext, each with its length in eight bytes. */
  lemma SignatureLayout(m: ExportManifest, ciphertext: Text)
    requires |ciphertext| <= MAX_CIPHERTEXT_BYTES
    ensures
      var s := SignaturePreimage(m, ciphertext);
      var n := |AssociatedData(m)|;
      && StandsAt(s, 0, Ascii("ariadnion-account-export-signature-v1") + [0])
      && LongTextAt(s, 38, AssociatedData(m)) && LongTextAt(s, 46 + n, ciphertext)
      && |s| == 54 + n + |ciphertext|
  {
    AssociatedDataFits(m);
  }

  /** What is hashed before the records: domain, tenant, batch, fields, expiry, watermark and count. */
  lemma DigestHeaderLayout(m: ExportManifest)
    ensures
      var s := DigestHeader(m.tenantId, m.batchId, m.fields, m.expiresAt, m.watermark, m.recordCount);
      var t, b, w := |m.tenantId|, |m.batchId|, |m.watermark|;
      && |s| == 65 + t + b + w
      && StandsAt(s, 0, HASH_DOMAIN)
      && LongTextAt(s, 28, m.tenantId) && LongTextAt(s, 36 + t, m.batchId)
      && StandsAt(s, 44 + t + b, TagOf(m.fields)) && StandsAt(s, 45 + t + b, Be64(m.expiresAt))
      && LongTextAt(s, 53 + t + b, m.watermark) && StandsAt(s, 61 + t + b + w, Be32(m.recordCount))
  {
    var front := HeaderFront(m);
    var rest := HeaderRest(m);
    HeaderSplits(m);
    FrontLayout(HASH_DOMAIN, m.tenantId, m.batchId);
    RestLayout(m, rest);
    hide DigestHeader, StandsAt, LongField, TagOf, HeaderFront, HeaderRest;
    Kept(front, rest, 0, HASH_DOMAIN);
    Kept(front, rest, 28, LongField(m.tenantId));
    Kept(front, rest, 36 + |m.tenantId|, LongField(m.batchId));
    Moved(front, rest, 0, TagOf(m.fields));
    Moved(front, rest, 1, Be64(m.expiresAt));
    Moved(front, rest, 9, LongField(m.watermark));
    Moved(front, rest, 17 + |m.watermark|, Be32(m.recordCount));
    LongFieldIs(m.tenantId);
    LongFieldIs(m.batchId);
    LongFieldIs(m.watermark);
  }

  const HASH_DOMAIN: Text := Ascii("ariadnion-account-export-v1") + [0]

  function HeaderFront(m: ExportManifest): Text {
    HASH_DOMAIN + LongField(m.tenantId) + LongField(m.batchId)
  }

  function HeaderRest(m: ExportManifest): Text {
    [Tag(m.fields)] + Be64(m.expiresAt) + LongField(m.watermark) + Be32(m.recordCount)
  }

  lemma HeaderSplits(m: ExportManifest)
    ensures DigestHeader(m.tenantId, m.batchId, m.fields, m.expiresAt, m.watermark, m.recordCount) ==
              HeaderFront(m) + HeaderRest(m)
  {
    Regroup(HeaderFront(m), [Tag(m.fields)], Be64(m.expiresAt), LongField(m.watermark), Be32(m.recordCount));
  }

  lemma LongFieldIs(t: Text)
    requires |t| <= U64_MAX
    ensures LongField(t) == Be64(|t|) + t
  {
  }

  lemma Regroup(s: Text, a: Text, b: Text, c: Text, d: Text)
    ensures s + a + b + c + d == s + (a + b + c + d)
  {
    Associative(s, a, b);
    Associative(s, a + b, c);
    Associative(s, a + b + c, d);
  }

  lemma FrontLayout(s: Text, t: Text, b: Text)
    requires |t| <= U64_MAX && |b| <= U64_MAX
    ensures
      var f := s + LongField(t) + LongField(b);
      && |f| == |s| + 16 + |t| + |b| && StandsAt(f, 0, s)
      && StandsAt(f, |s|, LongField(t)) && StandsAt(f, |s| + 8 + |t|, LongField(b))
  {
  }

  lemma RestLayout(m: ExportManifest, rest: Text)
    requires rest == [Tag(m.fields)] + Be64(m.expiresAt) + LongField(m.watermark) + Be32(m.recordCount)
    ensures |rest| == 21 + |m.watermark|
    ensures StandsAt(rest, 0, TagOf(m.fields)) && StandsAt(rest, 1, Be64(m.expiresAt))
    ensures StandsAt(rest, 9, LongField(m.watermark)) && StandsAt(rest, 17 + |m.watermark|, Be32(m.recordCount))
  {
  }
}
