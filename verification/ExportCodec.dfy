/** The bounded writer and the canonical reader, and the record codec built on them. */
module ExportCodec {
  import opened Words
  import opened BigEndian
  import opened ExportModel
  import opened ExportSort

  // ---------- UTF-8 well-formedness ----------

  predicate Continuation(b: u8) {
    0x80 <= b <= 0xBF
  }

  predicate TwoByte(s: Text) {
    |s| >= 2 && 0xC2 <= s[0] <= 0xDF && Continuation(s[1])
  }

  predicate ThreeByte(s: Text) {
    && |s| >= 3 && Continuation(s[1]) && Continuation(s[2])
    && (|| (s[0] == 0xE0 && s[1] >= 0xA0)
        || 0xE1 <= s[0] <= 0xEC
        || (s[0] == 0xED && s[1] <= 0x9F)
        || 0xEE <= s[0] <= 0xEF)
  }

  predicate FourByte(s: Text) {
    && |s| >= 4 && Continuation(s[1]) && Continuation(s[2]) && Continuation(s[3])
    && (|| (s[0] == 0xF0 && s[1] >= 0x90)
        || 0xF1 <= s[0] <= 0xF3
        || (s[0] == 0xF4 && s[1] <= 0x8F))
  }

  predicate ValidUtf8(s: Text) {
    if s == [] then true
    else if s[0] < 0x80 then ValidUtf8(s[1..])
    else if TwoByte(s) then ValidUtf8(s[2..])
    else if ThreeByte(s) then ValidUtf8(s[3..])
    else if FourByte(s) then ValidUtf8(s[4..])
    else false
  }

  lemma {:induction false} AsciiIsUtf8(s: Text)
    requires forall i :: 0 <= i < |s| ==> s[i] < 0x80
    ensures ValidUtf8(s)
  {
    if s != [] {
      AsciiIsUtf8(s[1..]);
    }
  }

  // ---------- Writing ----------

  /** A secret reference written field by field behind `bytes`. */
  lemma SecretWritten(bytes: Text, s: SecretRef)
    ensures bytes + [1] + Field(s.provider) + Field(s.path) + Be64(s.version) + Field(s.purpose)
            == bytes + EncodeOptionalSecret(Some(s))
    ensures |EncodeOptionalSecret(Some(s))| == 15 + |s.provider| + |s.path| + |s.purpose|
  {
    var a, b, c, d := Field(s.provider), Field(s.path), Be64(s.version), Field(s.purpose);
    Associative(bytes, [1], a + (b + (c + d)));
    Associative(bytes + [1], a, b + (c + d));
    Associative(bytes + [1] + a, b, c + d);
    Associative(bytes + [1] + a + b, c, d);
  }

  /** A record written field by field behind `bytes`. */
  lemma RecordWritten(bytes: Text, r: ExportRecord)
    ensures bytes + Field(r.accountId) + Be64(r.accountVersion) + Be64(r.configVersion) +
              EncodeOptionalSecret(r.secretRef)
            == bytes + EncodeRecord(r)
    ensures |EncodeRecord(r)| == 18 + |r.accountId| + |EncodeOptionalSecret(r.secretRef)|
  {
    var a, b, c, d := Field(r.accountId), Be64(r.accountVersion), Be64(r.configVersion),
      EncodeOptionalSecret(r.secretRef);
    Associative(bytes, a, b + (c + d));
    Associative(bytes + a, b, c + d);
    Associative(bytes + a + b, c, d);
  }

  class BoundedWriter {
    var bytes: Text
    const limit: nat

    ghost predicate Valid()
      reads this
    {
      |bytes| <= limit
    }

    constructor (limit: nat)
      ensures Valid() && bytes == [] && this.limit == limit
    {
      bytes := [];
      this.limit := limit;
    }

    method Write(value: Text) returns (r: Result<(), ExportErrorCode>)
      requires Valid()
      modifies this
      ensures Valid()
      ensures r == if |old(bytes)| + |value| <= limit then Ok(()) else Err(ArtifactTooLarge)
      ensures bytes == if r.Ok? then old(bytes) + value else old(bytes)
    {
      var next := |bytes| + |value|;
      if next > limit {
        return Err(ArtifactTooLarge);
      }
      bytes := bytes + value;
      r := Ok(());
    }

    method WriteText(value: Text) returns (r: Result<(), ExportErrorCode>)
      requires Valid()
      modifies this
      ensures Valid()
      ensures r == if |value| <= U16_MAX && |old(bytes)| + 2 + |value| <= limit then Ok(()) else Err(ArtifactTooLarge)
      ensures r.Ok? ==> bytes == old(bytes) + Field(value)
    {
      if |value| > U16_MAX {
        return Err(ArtifactTooLarge);
      }
      var _ :- Write(Be16(|value|));
      var _ :- Write(value);
      assert bytes == old(bytes) + Field(value);
      r := Ok(());
    }

    method WriteSecretRef(s: SecretRef) returns (r: Result<(), ExportErrorCode>)
      requires Valid()
      modifies this
      ensures Valid()
      ensures r == if |old(bytes)| + |EncodeOptionalSecret(Some(s))| <= limit then Ok(()) else Err(ArtifactTooLarge)
      ensures r.Ok? ==> bytes == old(bytes) + EncodeOptionalSecret(Some(s))
    {
      SecretWritten(bytes, s);
      var _ :- Write([1]);
      var _ :- WriteText(s.provider);
      var _ :- WriteText(s.path);
      var _ :- Write(Be64(s.version));
      var _ :- WriteText(s.purpose);
      r := Ok(());
    }

    method WriteRecord(record: ExportRecord) returns (r: Result<(), ExportErrorCode>)
      requires Valid()
      modifies this
      ensures Valid()
      ensures r == if |old(bytes)| + |EncodeRecord(record)| <= limit then Ok(()) else Err(ArtifactTooLarge)
      ensures r.Ok? ==> bytes == old(bytes) + EncodeRecord(record)
    {
      hide EncodeRecord, EncodeSecret;
      RecordWritten(bytes, record);
      var _ :- WriteText(record.accountId);
      var _ :- Write(Be64(record.accountVersion));
      var _ :- Write(Be64(record.configVersion));
      match record.secretRef {
        case Some(s) =>
          var _ :- WriteSecretRef(s);
        case None =>
          var _ :- Write([0]);
      }
      r := Ok(());
    }
  }

  lemma EncodeAllGrows(rs: seq<ExportRecord>, n: nat)
    requires n <= |rs|
    ensures |EncodeAll(rs[..n])| <= |EncodeAll(rs)|
  {
    assert rs == rs[..n] + rs[n..];
    EncodeAllAppend(rs[..n], rs[n..]);
  }

  /** Appending the next record to the records already written. */
  lemma NextRecord(was: Text, rs: seq<ExportRecord>, n: nat)
    requires n < |rs|
    ensures was + EncodeAll(rs[..n]) + EncodeRecord(rs[n]) == was + EncodeAll(rs[..n + 1])
    ensures |EncodeAll(rs[..n])| + |EncodeRecord(rs[n])| <= |EncodeAll(rs)|
  {
    EncodeAllLast(rs, n);
    EncodeAllGrows(rs, n + 1);
  }

  method WriteHeader(writer: BoundedWriter, count: nat) returns (r: Result<(), ExportErrorCode>)
    requires writer.Valid()
    modifies writer
    ensures writer.Valid()
    ensures r == if count <= U32_MAX && |old(writer.bytes)| + 14 <= writer.limit then Ok(()) else Err(ArtifactTooLarge)
    ensures r.Ok? ==> writer.bytes == old(writer.bytes) + EncodeHeader(count)
  {
    var _ :- writer.Write(PAYLOAD_MAGIC);
    var _ :- writer.Write(Be16(FORMAT_VERSION));
    if count > U32_MAX {
      return Err(ArtifactTooLarge);
    }
    var _ :- writer.Write(Be32(count));
    r := Ok(());
  }

  method WriteRecords(writer: BoundedWriter, ordered: seq<ExportRecord>) returns (r: Result<(), ExportErrorCode>)
    requires writer.Valid()
    modifies writer
    ensures writer.Valid()
    ensures r == if |old(writer.bytes)| + |EncodeAll(ordered)| <= writer.limit then Ok(()) else Err(ArtifactTooLarge)
    ensures r.Ok? ==> writer.bytes == old(writer.bytes) + EncodeAll(ordered)
  {
    ghost var was := writer.bytes;
    for i := 0 to |ordered|
      invariant writer.Valid()
      invariant writer.bytes == was + EncodeAll(ordered[..i])
    {
      NextRecord(was, ordered, i);
      var _ :- writer.WriteRecord(ordered[i]);
    }
    assert ordered[..|ordered|] == ordered;
    r := Ok(());
  }

  ghost function Serialized(records: seq<ExportRecord>): Result<Text, ExportErrorCode> {
    SortContents(records);
    if |records| <= U32_MAX && |EncodePayload(SortByAccount(records))| <= MAX_PLAINTEXT_BYTES
    then Ok(EncodePayload(SortByAccount(records))) else Err(ArtifactTooLarge)
  }

  /** Serializes in canonical order, and fails exactly when the encoding is too large. */
  method SerializeRecords(records: seq<ExportRecord>) returns (r: Result<Text, ExportErrorCode>)
    ensures r == Serialized(records)
  {
    var ordered := SortByAccount(records);
    SortContents(records);
    var writer := new BoundedWriter(MAX_PLAINTEXT_BYTES);
    var h := WriteHeader(writer, |ordered|);
    if h.Err? {
      assert |records| > U32_MAX;
      return Err(h.error);
    }
    HeaderLength(|ordered|);
    assert writer.bytes == EncodeHeader(|ordered|);
    assert |EncodePayload(ordered)| == 14 + |EncodeAll(ordered)|;
    var w := WriteRecords(writer, ordered);
    if w.Err? {
      assert |EncodePayload(ordered)| > MAX_PLAINTEXT_BYTES;
      assert Serialized(records) == Err(ArtifactTooLarge);
      return Err(w.error);
    }
    assert writer.bytes == EncodePayload(ordered);
    r := Ok(writer.bytes);
  }

  // ---------- Reading ----------

  ghost predicate FrontText(s: Text) {
    exists t: Text, rest: Text :: |t| <= U16_MAX && ValidUtf8(t) && s == Field(t) + rest
  }

  ghost predicate FrontId(s: Text) {
    exists t: Id, rest: Text :: s == Field(t) + rest
  }

  ghost predicate FrontPath(s: Text) {
    exists t: SecretPath, rest: Text :: s == Field(t) + rest
  }

  ghost predicate FrontNonZero(s: Text) {
    exists n: NonZeroU64, rest: Text :: s == Be64(n) + rest
  }

  ghost predicate FrontSecret(s: Text) {
    exists v: SecretRef, rest: Text :: s == EncodeSecret(v) + rest
  }

  /** Some record of the tenant is encoded at the front of `s`. */
  ghost predicate FrontRecord(s: Text, tenantId: Id) {
    exists v: ExportRecord, rest: Text :: v.tenantId == tenantId && s == EncodeRecord(v) + rest
  }

  ghost predicate FrontRecords(s: Text, tenantId: Id, count: nat) {
    exists rs: seq<ExportRecord>, rest: Text :: |rs| == count && OfTenant(rs, tenantId) && s == EncodeAll(rs) + rest
  }

  class CanonicalReader {
    const input: Text
    var offset: nat

    ghost predicate Valid()
      reads this
    {
      offset <= |input|
    }

    ghost function Remaining(): Text
      reads this
      requires Valid()
    {
      input[offset..]
    }

    constructor (input: Text)
      ensures Valid() && Remaining() == input
    {
      this.input := input;
      offset := 0;
    }

    method ReadExact(length: nat) returns (r: Result<Text, ExportErrorCode>)
      requires Valid()
      modifies this
      ensures Valid()
      ensures r.Ok? <==> length <= |old(Remaining())|
      ensures r.Ok? ==> |r.value| == length && old(Remaining()) == r.value + Remaining()
      ensures r.Err? ==> r.error == AuthenticationFailed && Remaining() == old(Remaining())
    {
      var end := offset + length;
      if end > |input| {
        return Err(AuthenticationFailed);
      }
      var value := input[offset..end];
      assert input[offset..] == value + input[end..];
      offset := end;
      r := Ok(value);
    }

    method ReadU8() returns (r: Result<u8, ExportErrorCode>)
      requires Valid()
      modifies this
      ensures Valid()
      ensures r.Ok? <==> 1 <= |old(Remaining())|
      ensures r.Ok? ==> old(Remaining()) == [r.value] + Remaining()
      ensures r.Err? ==> r.error == AuthenticationFailed
    {
      var b :- ReadExact(1);
      assert b == [b[0]];
      r := Ok(b[0]);
    }

    method ReadU16() returns (r: Result<u16, ExportErrorCode>)
      requires Valid()
      modifies this
      ensures Valid()
      ensures r.Ok? <==> 2 <= |old(Remaining())|
      ensures r.Ok? ==> old(Remaining()) == Be16(r.value) + Remaining()
      ensures r.Err? ==> r.error == AuthenticationFailed
    {
      var b :- ReadExact(2);
      Pow256Values();
      DecodeBound(b);
      EncodeDecode(b);
      r := Ok(Decode(b));
    }

    method ReadU32() returns (r: Result<u32, ExportErrorCode>)
      requires Valid()
      modifies this
      ensures Valid()
      ensures r.Ok? <==> 4 <= |old(Remaining())|
      ensures r.Ok? ==> old(Remaining()) == Be32(r.value) + Remaining()
      ensures r.Err? ==> r.error == AuthenticationFailed
    {
      var b :- ReadExact(4);
      Pow256Values();
      DecodeBound(b);
      EncodeDecode(b);
      r := Ok(Decode(b));
    }

    method ReadU64() returns (r: Result<u64, ExportErrorCode>)
      requires Valid()
      modifies this
      ensures Valid()
      ensures r.Ok? <==> 8 <= |old(Remaining())|
      ensures r.Ok? ==> old(Remaining()) == Be64(r.value) + Remaining()
      ensures r.Err? ==> r.error == AuthenticationFailed
    {
      var b :- ReadExact(8);
      Pow256Values();
      DecodeBound(b);
      EncodeDecode(b);
      r := Ok(Decode(b));
    }

    method ReadText() returns (r: Result<Text, ExportErrorCode>)
      requires Valid()
      modifies this
      ensures Valid()
      ensures r.Ok? ==> |r.value| <= U16_MAX && ValidUtf8(r.value) && old(Remaining()) == Field(r.value) + Remaining()
      ensures r.Err? ==> r.error == AuthenticationFailed && !FrontText(old(Remaining()))
    {
      ghost var s := Remaining();
      var length := ReadU16();
      if length.Err? {
        return Err(length.error);
      }
      ghost var s1 := Remaining();
      var b := ReadExact(length.value);
      if b.Err? {
        TextNeedsLength(s, length.value, s1);
        return Err(b.error);
      }
      assert s == Field(b.value) + Remaining() by {
        Associative(Be16(length.value), b.value, Remaining());
      }
      if !ValidUtf8(b.value) {
        TextNeedsUtf8(s, b.value, Remaining());
        return Err(AuthenticationFailed);
      }
      r := Ok(b.value);
    }

    // ---------- Validated fields ----------

    method ReadId() returns (r: Result<Id, ExportErrorCode>)
      requires Valid()
      modifies this
      ensures Valid()
      ensures r.Ok? ==> old(Remaining()) == Field(r.value) + Remaining()
      ensures r.Err? ==> r.error == AuthenticationFailed && !FrontId(old(Remaining()))
    {
      ghost var s := Remaining();
      var text := ReadText();
      if text.Err? {
        IdIsText(s);
        return Err(text.error);
      }
      if !ValidId(text.value) {
        IdNeedsAlphabet(s, text.value, Remaining());
        return Err(AuthenticationFailed);
      }
      r := Ok(text.value);
    }

    method ReadPath() returns (r: Result<SecretPath, ExportErrorCode>)
      requires Valid()
      modifies this
      ensures Valid()
      ensures r.Ok? ==> old(Remaining()) == Field(r.value) + Remaining()
      ensures r.Err? ==> r.error == AuthenticationFailed && !FrontPath(old(Remaining()))
    {
      ghost var s := Remaining();
      var text := ReadText();
      if text.Err? {
        PathIsText(s);
        return Err(text.error);
      }
      if !ValidPath(text.value) {
        PathNeedsAlphabet(s, text.value, Remaining());
        return Err(AuthenticationFailed);
      }
      r := Ok(text.value);
    }

    method ReadNonZero() returns (r: Result<NonZeroU64, ExportErrorCode>)
      requires Valid()
      modifies this
      ensures Valid()
      ensures r.Ok? ==> old(Remaining()) == Be64(r.value) + Remaining()
      ensures r.Err? ==> r.error == AuthenticationFailed && !FrontNonZero(old(Remaining()))
    {
      ghost var s := Remaining();
      var n := ReadU64();
      if n.Err? {
        return Err(n.error);
      }
      if n.value == 0 {
        NonZeroNeedsValue(s, n.value, Remaining());
        return Err(AuthenticationFailed);
      }
      r := Ok(n.value);
    }
  }

  // What the front of the input must satisfy for a field of each kind to be encoded there.

  lemma TextNeedsLength(s: Text, length: u16, s1: Text)
    requires s == Be16(length) + s1
    ensures FrontText(s) ==> length <= |s1|
  {
    if FrontText(s) {
      var t: Text, rest: Text :| |t| <= U16_MAX && ValidUtf8(t) && s == Field(t) + rest;
      Associative(Be16(|t|), t, rest);
      SplitEqual(Be16(length), s1, Be16(|t|), t + rest);
      BeInjective();
    }
  }

  lemma TextNeedsUtf8(s: Text, value: Text, s1: Text)
    requires |value| <= U16_MAX && s == Field(value) + s1
    ensures FrontText(s) ==> ValidUtf8(value)
  {
    if FrontText(s) {
      var t: Text, rest: Text :| |t| <= U16_MAX && ValidUtf8(t) && s == Field(t) + rest;
      FieldPrefix(value, s1, t, rest);
    }
  }

  lemma IdNeedsAlphabet(s: Text, value: Text, s1: Text)
    requires |value| <= U16_MAX && s == Field(value) + s1
    ensures FrontId(s) ==> ValidId(value)
  {
    if FrontId(s) {
      var t: Id, rest: Text :| s == Field(t) + rest;
      FieldPrefix(value, s1, t, rest);
    }
  }

  lemma PathNeedsAlphabet(s: Text, value: Text, s1: Text)
    requires |value| <= U16_MAX && s == Field(value) + s1
    ensures FrontPath(s) ==> ValidPath(value)
  {
    if FrontPath(s) {
      var t: SecretPath, rest: Text :| s == Field(t) + rest;
      FieldPrefix(value, s1, t, rest);
    }
  }

  lemma NonZeroNeedsValue(s: Text, value: u64, s1: Text)
    requires s == Be64(value) + s1
    ensures FrontNonZero(s) ==> value != 0
  {
    if FrontNonZero(s) {
      var n: NonZeroU64, rest: Text :| s == Be64(n) + rest;
      Be64Prefix(value, s1, n, rest);
    }
  }

  lemma IdIsText(s: Text)
    ensures FrontId(s) ==> FrontText(s)
  {
    if FrontId(s) {
      var t: Id, rest: Text :| s == Field(t) + rest;
      AsciiIsUtf8(t);
    }
  }

  lemma PathIsText(s: Text)
    ensures FrontPath(s) ==> FrontText(s)
  {
    if FrontPath(s) {
      var t: SecretPath, rest: Text :| s == Field(t) + rest;
      AsciiIsUtf8(t);
    }
  }
}
