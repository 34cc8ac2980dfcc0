/** JSON envelopes of wrapped organization keys and encrypted fields
    (src/security/organization-encryption.ts). */
module JsonEnvelopes {
  import opened Text
  import opened Json
  import opened JsonRoundTrip
  import opened Utf8
  import opened Base64
  import opened Contexts
  import opened Sealing

  /** A wrapped organization key names its provider, an encrypted field its algorithm. */
  datatype Kind = WrappedKey | EncryptedField

  datatype Record = Record(name: Str, keyVersion: int, iv: Str, ciphertext: Str, authTag: Str)

  datatype Parsing = Refused | Parsed(record: Record)

  const FORMAT: Str := Ascii("format")
  const KEY_VERSION: Str := Ascii("keyVersion")
  const IV: Str := Ascii("iv")
  const CIPHERTEXT: Str := Ascii("ciphertext")
  const AUTH_TAG: Str := Ascii("authTag")
  const AES: Str := Ascii("AES-256-GCM")
  const LOCAL_ROOT: Str := Ascii("local-root-v1")

  function Format(kind: Kind): Str {
    match kind
    case WrappedKey => Ascii("business-finlynq-wrapped-key-v1")
    case EncryptedField => Ascii("business-finlynq-encrypted-field-v1")
  }

  function NameKey(kind: Kind): Str {
    match kind
    case WrappedKey => Ascii("provider")
    case EncryptedField => Ascii("algorithm")
  }

  function Fields(kind: Kind, r: Record): seq<Entry<Json>> {
    [Entry(FORMAT, JStr(Format(kind))), Entry(NameKey(kind), JStr(r.name)), Entry(KEY_VERSION, JNum(r.keyVersion)),
     Entry(IV, JStr(r.iv)), Entry(CIPHERTEXT, JStr(r.ciphertext)), Entry(AUTH_TAG, JStr(r.authTag))]
  }

  /** `serializeWrappedKey` and `serializeEncryptedField`. */
  function Serialize(kind: Kind, r: Record): Str {
    Print(JObj(Fields(kind, r)))
  }

  const MAX_SAFE: int := 9_007_199_254_740_991

  predicate SafeInteger(n: int) {
    -MAX_SAFE <= n <= MAX_SAFE
  }

  /** The checks of `parseWrappedKey` and `parseEncryptedField` on a parsed object. */
  function Check(kind: Kind, fields: seq<Entry<Json>>): Parsing {
    var name, version := Get(fields, NameKey(kind)), Get(fields, KEY_VERSION);
    var iv, ciphertext, tag := Get(fields, IV), Get(fields, CIPHERTEXT), Get(fields, AUTH_TAG);
    if || Get(fields, FORMAT) != JStr(Format(kind))
       || !name.JStr? || (kind.EncryptedField? && name.s != AES)
       || !version.JNum? || !SafeInteger(version.n)
       || !iv.JStr? || !ciphertext.JStr? || !tag.JStr? then Refused
    else Parsed(Record(name.s, version.n, iv.s, ciphertext.s, tag.s))
  }

  /** Only an object has the properties; every other value, and text that is not JSON, is refused. */
  function ParseRecord(kind: Kind, text: Str): Parsing {
    match Parse(text)
    case Fail => Refused
    case Done(j, rest) => if j.JObj? then Check(kind, j.fields) else Refused
  }

  lemma KeysDiffer(kind: Kind)
    ensures |FORMAT| == 6 && |KEY_VERSION| == 10 && |IV| == 2 && |CIPHERTEXT| == 10 && |AUTH_TAG| == 7
    ensures 8 <= |NameKey(kind)| <= 9 && KEY_VERSION != CIPHERTEXT
    ensures Format(WrappedKey) != Format(EncryptedField)
  {
    assert KEY_VERSION[0] == 107 && CIPHERTEXT[0] == 99;
    assert |Format(WrappedKey)| == 31 && |Format(EncryptedField)| == 35;
  }

  lemma GetFields(kind: Kind, r: Record, key: Str)
    ensures key == FORMAT ==> Get(Fields(kind, r), key) == JStr(Format(kind))
    ensures key == NameKey(kind) ==> Get(Fields(kind, r), key) == JStr(r.name)
    ensures key == KEY_VERSION ==> Get(Fields(kind, r), key) == JNum(r.keyVersion)
    ensures key == IV ==> Get(Fields(kind, r), key) == JStr(r.iv)
    ensures key == CIPHERTEXT ==> Get(Fields(kind, r), key) == JStr(r.ciphertext)
    ensures key == AUTH_TAG ==> Get(Fields(kind, r), key) == JStr(r.authTag)
  {
    hide Get, NameKey, Format;
    KeysDiffer(kind);
    var f := Fields(kind, r);
    forall i: nat | i < 6 && f[i].key == key ensures Get(f, key) == f[i].val {
      GetAt(f, key, i);
    }
    assert f[0].key == FORMAT && f[1].key == NameKey(kind) && f[2].key == KEY_VERSION;
    assert f[3].key == IV && f[4].key == CIPHERTEXT && f[5].key == AUTH_TAG;
  }

  /** The object a reader finds in the text, with every property under its own name. */
  predicate Lays(text: Str, kind: Kind, r: Record) {
    var p := Parse(text);
    p.Done? && p.value.JObj? && LaysKind(p.value.fields, kind, r) && LaysBox(p.value.fields, r)
  }

  predicate LaysKind(fields: seq<Entry<Json>>, kind: Kind, r: Record) {
    match kind
    case WrappedKey =>
      && Get(fields, Ascii("format")) == JStr(Ascii("business-finlynq-wrapped-key-v1"))
      && Get(fields, Ascii("provider")) == JStr(r.name)
    case EncryptedField =>
      && Get(fields, Ascii("format")) == JStr(Ascii("business-finlynq-encrypted-field-v1"))
      && Get(fields, Ascii("algorithm")) == JStr(r.name)
  }

  predicate LaysBox(fields: seq<Entry<Json>>, r: Record) {
    && Get(fields, Ascii("keyVersion")) == JNum(r.keyVersion) && Get(fields, Ascii("iv")) == JStr(r.iv)
    && Get(fields, Ascii("ciphertext")) == JStr(r.ciphertext) && Get(fields, Ascii("authTag")) == JStr(r.authTag)
  }

  /** The stored text of a record has the layout of its kind. */
  lemma RecordLaidOut(kind: Kind, r: Record)
    ensures Lays(Serialize(kind, r), kind, r)
  {
    hide Get, Fields, Parse, Print, Ascii;
    PrintReadsBack(JObj(Fields(kind, r)));
    GetFields(kind, r, FORMAT);
    GetFields(kind, r, NameKey(kind));
    GetFields(kind, r, KEY_VERSION);
    GetFields(kind, r, IV);
    GetFields(kind, r, CIPHERTEXT);
    GetFields(kind, r, AUTH_TAG);
  }

  /** A record comes back from its text exactly when its version is a safe integer and a
      field names the one algorithm; otherwise, and as the other kind, it is refused. */
  lemma RecordReadsBack(kind: Kind, other: Kind, r: Record)
    ensures ParseRecord(other, Serialize(kind, r)) ==
            if other == kind && -0x20_0000_0000_0000 < r.keyVersion < 0x20_0000_0000_0000
               && (kind.EncryptedField? ==> r.name == AES) then Parsed(r)
            else Refused
  {
    hide Get, Fields, Parse, NameKey, Format;
    PrintReadsBack(JObj(Fields(kind, r)));
    KeysDiffer(kind);
    GetFields(kind, r, FORMAT);
    GetFields(kind, r, NameKey(kind));
    GetFields(kind, r, KEY_VERSION);
    GetFields(kind, r, IV);
    GetFields(kind, r, CIPHERTEXT);
    GetFields(kind, r, AUTH_TAG);
  }

  // ------------------------------------------------ fields and wrapped keys

  /** What `encryptField` and `wrapOrganizationKey` return for a sealed box. */
  function Sealed(kind: Kind, version: int, iv: Bytes, box: Box): Record {
    Record(if kind.WrappedKey? then LOCAL_ROOT else AES, version,
           Encode64(iv), Encode64(box.ciphertext), Encode64(box.tag))
  }

  function BoxOf(r: Record): Box {
    Box(Decode64(r.ciphertext), Decode64(r.authTag))
  }

  /** `decryptField` */
  function DecryptField(open: Opener, r: Record, dek: Bytes, c: Context): Read
    requires c.Field?
  {
    if |dek| != 32 then BadKey
    else if r.name != AES || r.keyVersion != c.version then BadMetadata
    else Reading(open(dek, Decode64(r.iv), Aad(c), BoxOf(r)))
  }

  datatype Unwrapped = Unsupported | Unauthentic | WrongSize | Key(dek: Bytes)

  /** `unwrapOrganizationKey`: the version bound is the record's own. */
  function UnwrapKey(open: Opener, r: Record, root: Bytes, organization: Str): Unwrapped {
    if r.name != LOCAL_ROOT then Unsupported
    else match open(root, Decode64(r.iv), Aad(OrganizationKey(organization, r.keyVersion)), BoxOf(r))
      case Rejected => Unauthentic
      case Plain(dek) => if |dek| == 32 then Key(dek) else WrongSize
  }

  lemma SealedBytes(kind: Kind, version: int, iv: Bytes, box: Box)
    ensures Decode64(Sealed(kind, version, iv, box).iv) == iv && BoxOf(Sealed(kind, version, iv, box)) == box
  {
    EncodingsReadBack(iv);
    EncodingsReadBack(box.ciphertext);
    EncodingsReadBack(box.tag);
  }

  /** Encrypt a field, store it as JSON, read it for a context: the text comes back exactly
      for the context and key it was sealed for. */
  lemma FieldRoundTrip(open: Opener, dek: Bytes, dek1: Bytes, iv: Bytes, c: Context, d: Context, t: Str, box: Box)
    requires c.Field? && d.Field? && WellFormed(c) && WellFormed(d) && NoBar(c)
    requires |dek| == 32 && SafeInteger(c.version)
    requires Authentic(open, dek, iv, Aad(c), Utf8.Encode(t), box)
    ensures var stored :=
              ParseRecord(EncryptedField, Serialize(EncryptedField, Sealed(EncryptedField, c.version, iv, box)));
            && stored.Parsed?
            && DecryptField(open, stored.record, dek1, d) ==
               (if |dek1| != 32 then BadKey
                else if d.version != c.version then BadMetadata
                else if d != c || dek1 != dek then NotAuthentic
                else Text(Utf8.Decode(Utf8.Encode(t))))
    ensures Text(Utf8.Decode(Utf8.Encode(t))) == Text(t) <==> Paired(t)
  {
    hide Aad, WellFormed, NoBar, ParseRecord, Serialize, BoxOf, Decode64, Encode64;
    RecordReadsBack(EncryptedField, EncryptedField, Sealed(EncryptedField, c.version, iv, box));
    SealedBytes(EncryptedField, c.version, iv, box);
    RoundTripExactlyPaired(t);
    if Aad(c) == Aad(d) {
      AadDeterminesContext(c, d);
    }
  }

  /** Wrap an organization key, store it as JSON, unwrap it: the key comes back for its own
      organization under its own root key, and for no other, if it has 32 bytes. */
  lemma WrappedKeyRoundTrip(open: Opener, root: Bytes, root1: Bytes, iv: Bytes,
                            organization: Str, organization1: Str, version: int, dek: Bytes, box: Box)
    requires SafeInteger(version) && Paired(organization) && Paired(organization1)
    requires Authentic(open, root, iv, Aad(OrganizationKey(organization, version)), dek, box)
    ensures var stored := ParseRecord(WrappedKey, Serialize(WrappedKey, Sealed(WrappedKey, version, iv, box)));
            && stored.Parsed?
            && UnwrapKey(open, stored.record, root1, organization1) ==
               (if organization1 != organization || root1 != root then Unauthentic
                else if |dek| != 32 then WrongSize
                else Key(dek))
  {
    hide Aad, ParseRecord, Serialize, BoxOf, Decode64, Encode64;
    var c, d := OrganizationKey(organization, version), OrganizationKey(organization1, version);
    RecordReadsBack(WrappedKey, WrappedKey, Sealed(WrappedKey, version, iv, box));
    SealedBytes(WrappedKey, version, iv, box);
    if Aad(c) == Aad(d) {
      AadDeterminesContext(c, d);
    }
  }
}
