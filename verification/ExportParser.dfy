/** The canonical parser: it accepts exactly the canonical encodings. */
module ExportParser {
  import opened Words
  import opened ByteOrder
  import opened BigEndian
  import opened ExportModel
  import opened ExportSort
  import opened ExportCodec

  /** `rs` are canonically ordered records of the tenant, as many as announced, and `plaintext` is their encoding. */
  ghost predicate IsPayloadOf(plaintext: Text, tenantId: Id, count: u32, rs: seq<ExportRecord>) {
    && |rs| == count && 0 < count <= MAX_EXPORT_RECORDS
    && OfTenant(rs, tenantId) && Canonical(rs)
    && plaintext == EncodePayload(rs)
  }

  /** The inverse of the encoding, where it has one. */
  ghost function Parsed(plaintext: Text, tenantId: Id, count: u32): Result<seq<ExportRecord>, ExportErrorCode> {
    if IsSomePayload(plaintext, tenantId, count) then
      var rs :| IsPayloadOf(plaintext, tenantId, count, rs);
      Ok(rs)
    else Err(AuthenticationFailed)
  }

  lemma PayloadOfUnique(plaintext: Text, tenantId: Id, count: u32, a: seq<ExportRecord>, b: seq<ExportRecord>)
    requires IsPayloadOf(plaintext, tenantId, count, a) && IsPayloadOf(plaintext, tenantId, count, b)
    ensures a == b
  {
    PayloadInjective(a, b, tenantId);
  }

  lemma ParsedIs(plaintext: Text, tenantId: Id, count: u32, rs: seq<ExportRecord>)
    requires IsPayloadOf(plaintext, tenantId, count, rs)
    ensures Parsed(plaintext, tenantId, count) == Ok(rs)
  {
    PayloadOfUnique(plaintext, tenantId, count, rs, Parsed(plaintext, tenantId, count).value);
  }

  // ---------- One record ----------

  // What must follow the fields already read for a whole value to be encoded at the front.

  lemma SecretNeedsProvider(s: Text)
    ensures FrontSecret(s) ==> FrontId(s)
  {
    if FrontSecret(s) {
      var v: SecretRef, rest: Text :| s == EncodeSecret(v) + rest;
      SecretFront(v, rest);
    }
  }

  lemma SecretNeedsPath(s: Text, provider: Id, s1: Text)
    requires s == Field(provider) + s1
    ensures FrontSecret(s) ==> FrontPath(s1)
  {
    if FrontSecret(s) {
      var v: SecretRef, rest: Text :| s == EncodeSecret(v) + rest;
      SecretFront(v, rest);
      FieldPrefix(provider, s1, v.provider, Field(v.path) + (Be64(v.version) + (Field(v.purpose) + rest)));
    }
  }

  lemma SecretNeedsVersion(s: Text, provider: Id, s1: Text, path: SecretPath, s2: Text)
    requires s == Field(provider) + s1 && s1 == Field(path) + s2
    ensures FrontSecret(s) ==> FrontNonZero(s2)
  {
    if FrontSecret(s) {
      var v: SecretRef, rest: Text :| s == EncodeSecret(v) + rest;
      SecretFront(v, rest);
      FieldPrefix(provider, s1, v.provider, Field(v.path) + (Be64(v.version) + (Field(v.purpose) + rest)));
      FieldPrefix(path, s2, v.path, Be64(v.version) + (Field(v.purpose) + rest));
    }
  }

  lemma SecretNeedsPurpose(s: Text, provider: Id, s1: Text, path: SecretPath, s2: Text, version: NonZeroU64, s3: Text)
    requires s == Field(provider) + s1 && s1 == Field(path) + s2 && s2 == Be64(version) + s3
    ensures FrontSecret(s) ==> FrontId(s3)
  {
    if FrontSecret(s) {
      var v: SecretRef, rest: Text :| s == EncodeSecret(v) + rest;
      SecretFront(v, rest);
      FieldPrefix(provider, s1, v.provider, Field(v.path) + (Be64(v.version) + (Field(v.purpose) + rest)));
      FieldPrefix(path, s2, v.path, Be64(v.version) + (Field(v.purpose) + rest));
      Be64Prefix(version, s3, v.version, Field(v.purpose) + rest);
    }
  }

  method ParseSecretRef(reader: CanonicalReader) returns (r: Result<SecretRef, ExportErrorCode>)
    requires reader.Valid()
    modifies reader
    ensures reader.Valid()
    ensures r.Ok? ==> old(reader.Remaining()) == EncodeSecret(r.value) + reader.Remaining()
    ensures r.Err? ==> r.error == AuthenticationFailed && !FrontSecret(old(reader.Remaining()))
  {
    ghost var s := reader.Remaining();
    SecretNeedsProvider(s);
    var provider :- reader.ReadId();
    ghost var s1 := reader.Remaining();
    SecretNeedsPath(s, provider, s1);
    var path :- reader.ReadPath();
    ghost var s2 := reader.Remaining();
    SecretNeedsVersion(s, provider, s1, path, s2);
    var version :- reader.ReadNonZero();
    ghost var s3 := reader.Remaining();
    SecretNeedsPurpose(s, provider, s1, path, s2, version, s3);
    var purpose :- reader.ReadId();
    var secret := SecretRef(provider, path, version, purpose);
    SecretFront(secret, reader.Remaining());
    r := Ok(secret);
  }

  /** Some discriminator and secret reference are encoded at the front of `s`. */
  ghost predicate FrontOptionalSecret(s: Text) {
    exists v: Option<SecretRef>, rest: Text :: s == EncodeOptionalSecret(v) + rest
  }

  lemma OptionalSecretNeedsTag(s: Text)
    ensures FrontOptionalSecret(s) ==> s != [] && (s[0] == 0 || s[0] == 1)
  {
    if FrontOptionalSecret(s) {
      var v: Option<SecretRef>, rest: Text :| s == EncodeOptionalSecret(v) + rest;
      OptionalSecretFront(v, rest);
    }
  }

  lemma OptionalSecretNeedsSecret(s: Text, s1: Text)
    requires s == [1] + s1
    ensures FrontOptionalSecret(s) ==> FrontSecret(s1)
  {
    if FrontOptionalSecret(s) {
      var v: Option<SecretRef>, rest: Text :| s == EncodeOptionalSecret(v) + rest;
      OptionalSecretFront(v, rest);
      assert s[0] == 1 && s[1..] == s1;
      assert s1 == EncodeSecret(v.value) + rest;
    }
  }

  /** The discriminator and what follows it. */
  method ParseRecordFields(reader: CanonicalReader) returns (r: Result<Option<SecretRef>, ExportErrorCode>)
    requires reader.Valid()
    modifies reader
    ensures reader.Valid()
    ensures r.Ok? ==> old(reader.Remaining()) == EncodeOptionalSecret(r.value) + reader.Remaining()
    ensures r.Err? ==> r.error == AuthenticationFailed && !FrontOptionalSecret(old(reader.Remaining()))
  {
    ghost var s := reader.Remaining();
    OptionalSecretNeedsTag(s);
    var tag :- reader.ReadU8();
    ghost var s1 := reader.Remaining();
    assert s[0] == tag && s[1..] == s1;
    match tag {
      case 0 =>
        r := Ok(None);
      case 1 =>
        OptionalSecretNeedsSecret(s, s1);
        var secret :- ParseSecretRef(reader);
        OptionalSecretFront(Some(secret), reader.Remaining());
        r := Ok(Some(secret));
      case _ =>
        r := Err(AuthenticationFailed);
    }
  }

  lemma RecordNeedsAccount(s: Text, tenantId: Id)
    ensures FrontRecord(s, tenantId) ==> FrontId(s)
  {
    if FrontRecord(s, tenantId) {
      var v: ExportRecord, rest: Text :| v.tenantId == tenantId && s == EncodeRecord(v) + rest;
      RecordFront(v, rest);
    }
  }

  lemma RecordNeedsVersion(s: Text, tenantId: Id, id: Id, s1: Text)
    requires s == Field(id) + s1
    ensures FrontRecord(s, tenantId) ==> FrontNonZero(s1)
  {
    if FrontRecord(s, tenantId) {
      var v: ExportRecord, rest: Text :| v.tenantId == tenantId && s == EncodeRecord(v) + rest;
      RecordFront(v, rest);
      FieldPrefix(id, s1, v.accountId,
                  Be64(v.accountVersion) + (Be64(v.configVersion) + (EncodeOptionalSecret(v.secretRef) + rest)));
    }
  }

  lemma RecordNeedsConfig(s: Text, tenantId: Id, id: Id, s1: Text, version: NonZeroU64, s2: Text)
    requires s == Field(id) + s1 && s1 == Be64(version) + s2
    ensures FrontRecord(s, tenantId) ==> FrontNonZero(s2)
  {
    if FrontRecord(s, tenantId) {
      var v: ExportRecord, rest: Text :| v.tenantId == tenantId && s == EncodeRecord(v) + rest;
      var tail := EncodeOptionalSecret(v.secretRef) + rest;
      RecordFront(v, rest);
      FieldPrefix(id, s1, v.accountId, Be64(v.accountVersion) + (Be64(v.configVersion) + tail));
      Be64Prefix(version, s2, v.accountVersion, Be64(v.configVersion) + tail);
    }
  }

  lemma RecordNeedsFields(s: Text, tenantId: Id, id: Id, s1: Text, version: NonZeroU64, s2: Text, config: NonZeroU64,
                          s3: Text)
    requires s == Field(id) + s1 && s1 == Be64(version) + s2 && s2 == Be64(config) + s3
    ensures FrontRecord(s, tenantId) ==> FrontOptionalSecret(s3)
  {
    if FrontRecord(s, tenantId) {
      var v: ExportRecord, rest: Text :| v.tenantId == tenantId && s == EncodeRecord(v) + rest;
      var tail := EncodeOptionalSecret(v.secretRef) + rest;
      RecordFront(v, rest);
      FieldPrefix(id, s1, v.accountId, Be64(v.accountVersion) + (Be64(v.configVersion) + tail));
      Be64Prefix(version, s2, v.accountVersion, Be64(v.configVersion) + tail);
      Be64Prefix(config, s3, v.configVersion, tail);
    }
  }

  method ParseRecord(reader: CanonicalReader, tenantId: Id) returns (r: Result<ExportRecord, ExportErrorCode>)
    requires reader.Valid()
    modifies reader
    ensures reader.Valid()
    ensures r.Ok? ==>
              && r.value.tenantId == tenantId
              && old(reader.Remaining()) == EncodeRecord(r.value) + reader.Remaining()
    ensures r.Err? ==> r.error == AuthenticationFailed && !FrontRecord(old(reader.Remaining()), tenantId)
  {
    ghost var s := reader.Remaining();
    RecordNeedsAccount(s, tenantId);
    var id :- reader.ReadId();
    ghost var s1 := reader.Remaining();
    RecordNeedsVersion(s, tenantId, id, s1);
    var version :- reader.ReadNonZero();
    ghost var s2 := reader.Remaining();
    RecordNeedsConfig(s, tenantId, id, s1, version, s2);
    var config :- reader.ReadNonZero();
    ghost var s3 := reader.Remaining();
    RecordNeedsFields(s, tenantId, id, s1, version, s2, config, s3);
    var secret :- ParseRecordFields(reader);
    var record := ExportRecord(tenantId, id, version, config, secret);
    RecordFront(record, reader.Remaining());
    r := Ok(record);
  }

  // ---------- The record sequence ----------

  /** If `count` records are at the front and the first ones were read, the next one is at the front of the rest. */
  lemma NextAtFront(s: Text, read: seq<ExportRecord>, s1: Text, tenantId: Id, count: nat)
    requires OfTenant(read, tenantId) && s == EncodeAll(read) + s1
    requires |read| < count
    ensures FrontRecords(s, tenantId, count) ==> FrontRecord(s1, tenantId)
  {
    if FrontRecords(s, tenantId, count) {
      HeadOfRest(s, read, s1, tenantId, count);
    }
  }

  lemma OfTenantSplit(rs: seq<ExportRecord>, n: nat, tenantId: Id)
    requires n <= |rs| && OfTenant(rs, tenantId)
    ensures OfTenant(rs[..n], tenantId) && OfTenant(rs[n..], tenantId)
  {
  }

  lemma HeadOfRest(s: Text, read: seq<ExportRecord>, s1: Text, tenantId: Id, count: nat)
    requires OfTenant(read, tenantId) && s == EncodeAll(read) + s1
    requires |read| < count && FrontRecords(s, tenantId, count)
    ensures FrontRecord(s1, tenantId)
  {
    var rs: seq<ExportRecord>, rest: Text :| |rs| == count && OfTenant(rs, tenantId) && s == EncodeAll(rs) + rest;
    hide FrontRecord, FrontRecords, EncodeAll, OfTenant;
    OfTenantSplit(rs, |read|, tenantId);
    SplitAt(rs, |read|, rest);
    HeadAfter(read, s1, rs[..|read|], rs[|read|..], rest, tenantId);
  }

  lemma HeadAfter(read: seq<ExportRecord>, s1: Text, before: seq<ExportRecord>, tail: seq<ExportRecord>, rest: Text,
                  tenantId: Id)
    requires |read| == |before| && OfTenant(read, tenantId) && OfTenant(before, tenantId) && OfTenant(tail, tenantId)
    requires tail != [] && EncodeAll(read) + s1 == EncodeAll(before) + (EncodeAll(tail) + rest)
    ensures FrontRecord(s1, tenantId)
  {
    AllPrefix(read, s1, before, EncodeAll(tail) + rest, tenantId);
    AllFront(tail, rest);
    assert s1 == EncodeRecord(tail[0]) + (EncodeAll(tail[1..]) + rest);
  }

  lemma SplitAt(rs: seq<ExportRecord>, n: nat, rest: Text)
    requires n <= |rs|
    ensures EncodeAll(rs) + rest == EncodeAll(rs[..n]) + (EncodeAll(rs[n..]) + rest)
  {
    assert rs == rs[..n] + rs[n..];
    EncodeAllAppend(rs[..n], rs[n..]);
    Associative(EncodeAll(rs[..n]), EncodeAll(rs[n..]), rest);
  }

  method ParseRecordSequence(reader: CanonicalReader, tenantId: Id, count: nat)
    returns (r: Result<seq<ExportRecord>, ExportErrorCode>)
    requires reader.Valid()
    modifies reader
    ensures reader.Valid()
    ensures r.Ok? ==> |r.value| == count && OfTenant(r.value, tenantId)
                      && old(reader.Remaining()) == EncodeAll(r.value) + reader.Remaining()
    ensures r.Err? ==> r.error == AuthenticationFailed && !FrontRecords(old(reader.Remaining()), tenantId, count)
  {
    ghost var s := reader.Remaining();
    var records: seq<ExportRecord> := [];
    for i := 0 to count
      invariant reader.Valid()
      invariant |records| == i && OfTenant(records, tenantId)
      invariant s == EncodeAll(records) + reader.Remaining()
    {
      ghost var s1 := reader.Remaining();
      NextAtFront(s, records, s1, tenantId, count);
      var record :- ParseRecord(reader, tenantId);
      RecordRead(s, records, s1, record, reader.Remaining());
      records := records + [record];
    }
    r := Ok(records);
  }

  lemma RecordRead(s: Text, read: seq<ExportRecord>, s1: Text, record: ExportRecord, s2: Text)
    requires s == EncodeAll(read) + s1 && s1 == EncodeRecord(record) + s2
    ensures s == EncodeAll(read + [record]) + s2
  {
    EncodeAllAppend(read, [record]);
    EncodeAllOne(record);
    Associative(EncodeAll(read), EncodeRecord(record), s2);
  }

  // ---------- The payload ----------

  method ParsePayloadHeader(reader: CanonicalReader, expectedCount: u32) returns (r: Result<nat, ExportErrorCode>)
    requires reader.Valid()
    modifies reader
    ensures reader.Valid()
    ensures r.Ok? ==> r.value == expectedCount && 0 < expectedCount <= MAX_EXPORT_RECORDS
                      && old(reader.Remaining()) == EncodeHeader(expectedCount) + reader.Remaining()
    ensures r.Err? ==> r.error == AuthenticationFailed
                       && !(0 < expectedCount <= MAX_EXPORT_RECORDS
                            && EncodeHeader(expectedCount) <= old(reader.Remaining()))
  {
    ghost var s := reader.Remaining();
    HeaderLength(expectedCount);
    var magic :- reader.ReadExact(|PAYLOAD_MAGIC|);
    ghost var s1 := reader.Remaining();
    HeaderNeedsMagic(s, expectedCount, magic, s1);
    if magic != PAYLOAD_MAGIC {
      return Err(AuthenticationFailed);
    }
    var version :- reader.ReadU16();
    ghost var s2 := reader.Remaining();
    HeaderNeedsVersion(s, expectedCount, s1, version, s2);
    if version != FORMAT_VERSION {
      return Err(AuthenticationFailed);
    }
    var count :- reader.ReadU32();
    ghost var s3 := reader.Remaining();
    assert s == EncodeHeader(count) + s3 by {
      Associative(Be16(FORMAT_VERSION), Be32(count), s3);
      Associative(PAYLOAD_MAGIC, Be16(FORMAT_VERSION) + Be32(count), s3);
    }
    HeaderNeedsCount(s, count, s3, expectedCount);
    if count != expectedCount || count == 0 || count > MAX_EXPORT_RECORDS {
      return Err(AuthenticationFailed);
    }
    r := Ok(count);
  }

  lemma HeaderNeedsMagic(s: Text, count: u32, magic: Text, s1: Text)
    requires s == magic + s1 && |magic| == |PAYLOAD_MAGIC|
    ensures EncodeHeader(count) <= s ==> magic == PAYLOAD_MAGIC
  {
    if EncodeHeader(count) <= s {
      HeaderFront(s, count);
      SplitEqual(magic, s1, PAYLOAD_MAGIC, Be16(FORMAT_VERSION) + (Be32(count) + s[14..]));
    }
  }

  lemma HeaderNeedsVersion(s: Text, count: u32, s1: Text, version: u16, s2: Text)
    requires s == PAYLOAD_MAGIC + s1 && s1 == Be16(version) + s2
    ensures EncodeHeader(count) <= s ==> version == FORMAT_VERSION
  {
    if EncodeHeader(count) <= s {
      HeaderFront(s, count);
      SplitEqual(PAYLOAD_MAGIC, s1, PAYLOAD_MAGIC, Be16(FORMAT_VERSION) + (Be32(count) + s[14..]));
      SplitEqual(Be16(version), s2, Be16(FORMAT_VERSION), Be32(count) + s[14..]);
      BeInjective();
    }
  }

  lemma HeaderNeedsCount(s: Text, a: u32, rest: Text, b: u32)
    requires s == EncodeHeader(a) + rest
    ensures EncodeHeader(b) <= s ==> a == b
  {
    if EncodeHeader(b) <= s {
      HeaderUnique(s, a, rest, b);
    }
  }

  lemma HeaderFront(s: Text, count: u32)
    requires EncodeHeader(count) <= s
    ensures s == PAYLOAD_MAGIC + (Be16(FORMAT_VERSION) + (Be32(count) + s[14..]))
  {
    HeaderLength(count);
    assert s == EncodeHeader(count) + s[14..];
    assert (PAYLOAD_MAGIC + (Be16(FORMAT_VERSION) + Be32(count))) + s[14..]
        == PAYLOAD_MAGIC + (Be16(FORMAT_VERSION) + (Be32(count) + s[14..]));
  }

  lemma HeaderUnique(s: Text, a: u32, rest: Text, b: u32)
    requires s == EncodeHeader(a) + rest && EncodeHeader(b) <= s
    ensures a == b
  {
    HeaderLength(a);
    HeaderLength(b);
    assert s == EncodeHeader(b) + s[14..];
    SplitEqual(EncodeHeader(a), rest, EncodeHeader(b), s[14..]);
    SplitEqual(PAYLOAD_MAGIC, Be16(FORMAT_VERSION) + Be32(a), PAYLOAD_MAGIC, Be16(FORMAT_VERSION) + Be32(b));
    SplitEqual(Be16(FORMAT_VERSION), Be32(a), Be16(FORMAT_VERSION), Be32(b));
    BeInjective();
  }

  method ValidateCanonicalOrder(records: seq<ExportRecord>) returns (r: Result<(), ExportErrorCode>)
    ensures r == if Canonical(records) then Ok(()) else Err(AuthenticationFailed)
  {
    var i := 1;
    while i < |records|
      invariant 1 <= i
      invariant i <= |records| ==> Canonical(records[..i])
      invariant i > |records| ==> records == []
    {
      if !Less(records[i - 1].accountId, records[i].accountId) {
        return Err(AuthenticationFailed);
      }
      CanonicalExtend(records, i);
      i := i + 1;
    }
    assert records != [] ==> records[..|records|] == records;
    r := Ok(());
  }

  lemma CanonicalExtend(records: seq<ExportRecord>, i: nat)
    requires 1 <= i < |records| && Canonical(records[..i])
    requires Less(records[i - 1].accountId, records[i].accountId)
    ensures Canonical(records[..i + 1])
  {
    forall a | 0 <= a < i ensures Less(records[a].accountId, records[i].accountId) {
      if a < i - 1 {
        assert Less(records[..i][a].accountId, records[..i][i - 1].accountId);
        LessTransitive(records[a].accountId, records[i - 1].accountId, records[i].accountId);
      }
    }
    var more := records[..i + 1];
    forall a, b | 0 <= a < b < |more| ensures Less(more[a].accountId, more[b].accountId) {
      if b < i {
        assert Less(records[..i][a].accountId, records[..i][b].accountId);
      }
    }
  }

  ghost predicate IsSomePayload(plaintext: Text, tenantId: Id, count: u32) {
    exists rs :: IsPayloadOf(plaintext, tenantId, count, rs)
  }

  /** Every payload starts with its header, and its records follow. */
  lemma PayloadNeedsHeader(plaintext: Text, tenantId: Id, count: u32)
    ensures IsSomePayload(plaintext, tenantId, count) ==>
              0 < count <= MAX_EXPORT_RECORDS && EncodeHeader(count) <= plaintext
  {
    if IsSomePayload(plaintext, tenantId, count) {
      var rs :| IsPayloadOf(plaintext, tenantId, count, rs);
    }
  }

  lemma PayloadNeedsRecords(plaintext: Text, s1: Text, tenantId: Id, count: u32)
    requires plaintext == EncodeHeader(count) + s1
    ensures IsSomePayload(plaintext, tenantId, count) ==> FrontRecords(s1, tenantId, count)
  {
    if IsSomePayload(plaintext, tenantId, count) {
      var rs :| IsPayloadOf(plaintext, tenantId, count, rs);
      PayloadRest(plaintext, s1, tenantId, count, rs);
    }
  }

  lemma PayloadRest(plaintext: Text, s1: Text, tenantId: Id, count: u32, rs: seq<ExportRecord>)
    requires IsPayloadOf(plaintext, tenantId, count, rs) && plaintext == EncodeHeader(count) + s1
    ensures s1 == EncodeAll(rs) + []
    ensures FrontRecords(s1, tenantId, count)
  {
    SplitEqual(EncodeHeader(count), s1, EncodeHeader(count), EncodeAll(rs));
    assert s1 == EncodeAll(rs) + [];
  }

  /** A payload read completely: header, records, nothing left. */
  lemma WholePayload(plaintext: Text, s1: Text, tenantId: Id, count: u32, rs: seq<ExportRecord>, rest: Text)
    requires plaintext == EncodeHeader(count) + s1 && s1 == EncodeAll(rs) + rest
    requires |rs| == count && OfTenant(rs, tenantId)
    ensures forall other :: IsPayloadOf(plaintext, tenantId, count, other) ==> other == rs && rest == []
  {
    forall other | IsPayloadOf(plaintext, tenantId, count, other) ensures other == rs && rest == [] {
      PayloadRest(plaintext, s1, tenantId, count, other);
      AllPrefix(rs, rest, other, [], tenantId);
    }
  }

  lemma PayloadComplete(plaintext: Text, s1: Text, tenantId: Id, count: u32, rs: seq<ExportRecord>)
    requires plaintext == EncodeHeader(count) + s1 && s1 == EncodeAll(rs) + []
    requires |rs| == count && 0 < count <= MAX_EXPORT_RECORDS && OfTenant(rs, tenantId) && Canonical(rs)
    ensures IsPayloadOf(plaintext, tenantId, count, rs)
  {
    assert EncodeAll(rs) + [] == EncodeAll(rs);
  }

  /** The parser computes the inverse of the encoding on every byte string. */
  method ParseRecords(plaintext: Text, tenantId: Id, expectedCount: u32)
    returns (r: Result<seq<ExportRecord>, ExportErrorCode>)
    ensures r == Parsed(plaintext, tenantId, expectedCount)
    ensures r.Ok? <==> IsSomePayload(plaintext, tenantId, expectedCount)
    ensures r.Ok? ==> IsPayloadOf(plaintext, tenantId, expectedCount, r.value)
  {
    var reader := new CanonicalReader(plaintext);
    PayloadNeedsHeader(plaintext, tenantId, expectedCount);
    var count := ParsePayloadHeader(reader, expectedCount);
    if count.Err? {
      return Err(count.error);
    }
    ghost var s1 := reader.Remaining();
    PayloadNeedsRecords(plaintext, s1, tenantId, expectedCount);
    var records := ParseRecordSequence(reader, tenantId, count.value);
    if records.Err? {
      return Err(records.error);
    }
    ghost var rest := reader.Remaining();
    WholePayload(plaintext, s1, tenantId, expectedCount, records.value, rest);
    if reader.offset != |reader.input| {
      assert rest != [];
      return Err(AuthenticationFailed);
    }
    assert rest == [];
    var ordered := ValidateCanonicalOrder(records.value);
    if ordered.Err? {
      return Err(ordered.error);
    }
    PayloadComplete(plaintext, s1, tenantId, expectedCount, records.value);
    ParsedIs(plaintext, tenantId, expectedCount, records.value);
    r := records;
  }

  // ---------- Round trip and canonicity ----------

  /** Parsing what was serialized returns the records in canonical order. */
  lemma ParseAfterSerialize(records: seq<ExportRecord>, tenantId: Id)
    requires 0 < |records| <= MAX_EXPORT_RECORDS && DistinctAccounts(records) && OfTenant(records, tenantId)
    requires Serialized(records).Ok?
    ensures Parsed(Serialized(records).value, tenantId, |records|) == Ok(SortByAccount(records))
  {
    var plaintext := Serialized(records).value;
    SortedIsPayload(records, tenantId);
    ParsedIs(plaintext, tenantId, |records|, SortByAccount(records));
  }

  lemma SortedIsPayload(records: seq<ExportRecord>, tenantId: Id)
    requires 0 < |records| <= MAX_EXPORT_RECORDS && DistinctAccounts(records) && OfTenant(records, tenantId)
    requires Serialized(records).Ok?
    ensures IsPayloadOf(Serialized(records).value, tenantId, |records|, SortByAccount(records))
  {
    SortContents(records);
    SortCanonical(records);
    SortOfTenant(records, tenantId);
  }

  lemma SortOfTenant(records: seq<ExportRecord>, tenantId: Id)
    requires OfTenant(records, tenantId)
    ensures OfTenant(SortByAccount(records), tenantId)
  {
    var sorted := SortByAccount(records);
    forall i | 0 <= i < |sorted| ensures sorted[i].tenantId == tenantId {
      SortMember(records, sorted[i]);
    }
  }

  /** Serializing what was parsed returns the very same bytes: no record list has two accepted encodings. */
  lemma SerializeAfterParse(plaintext: Text, tenantId: Id, count: u32)
    requires |plaintext| <= MAX_PLAINTEXT_BYTES && Parsed(plaintext, tenantId, count).Ok?
    ensures Serialized(Parsed(plaintext, tenantId, count).value) == Ok(plaintext)
  {
    var rs := Parsed(plaintext, tenantId, count).value;
    CanonicalDistinct(rs);
    SortIgnoresOrder(rs, rs);
  }
}
