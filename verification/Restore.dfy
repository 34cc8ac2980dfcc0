/** The restore check: wrapped organization keys into a map, then every stored field
    opened under the key of its own organization and version
    (scripts/operations/verify-restored-secrets.ts, restored-banking-secrets.ts,
    restored-master-data-secrets.ts). */
module Restore {
  import opened Text
  import opened Utf8
  import opened Contexts
  import opened JsonEnvelopes
  import opened Sealing
  import opened Paging

  // ----------------------------------------------------------------- key map

  datatype KeyRow = KeyRow(organization: Str, version: int, provider: Str, wrapped: Str)
  datatype KeyFault = InvalidVersion | InvalidEnvelope | MetadataMismatch | Duplicate | NotUnwrapped
  datatype Loaded = Keys(deks: map<Str, Bytes>) | Stopped(at: nat, fault: KeyFault)

  /** `restoredOrganizationKeyMapKey` */
  function MapKey(organization: Str, version: int): Str {
    organization + [58] + Decimal(version)
  }

  /** One text per pair, whatever the organization id holds. */
  lemma MapKeyInjective(o: Str, v: int, p: Str, w: int)
    requires MapKey(o, v) == MapKey(p, w)
    ensures o == p && v == w
  {
    DecimalUnits(v);
    DecimalUnits(w);
    LastSeparatorCut(o, Decimal(v), p, Decimal(w), 58);
    DecimalInjective(v, w);
  }

  predicate ValidVersion(v: int) {
    SafeInteger(v) && v > 0
  }

  predicate SamePair(a: KeyRow, b: KeyRow) {
    a.organization == b.organization && a.version == b.version
  }

  predicate Repeats(rows: seq<KeyRow>, i: nat)
    requires i < |rows|
  {
    exists j | 0 <= j < i :: SamePair(rows[j], rows[i])
  }

  /** What is wrong with row `i`, if anything, in the order the loop looks. */
  function FaultOf(open: Opener, root: Bytes, rows: seq<KeyRow>, i: nat): Maybe<KeyFault>
    requires i < |rows|
  {
    var row := rows[i];
    var parsed := ParseRecord(WrappedKey, row.wrapped);
    if !ValidVersion(row.version) then Some(InvalidVersion)
    else if parsed.Refused? then Some(InvalidEnvelope)
    else if parsed.record.name != row.provider || parsed.record.keyVersion != row.version then Some(MetadataMismatch)
    else if Repeats(rows, i) then Some(Duplicate)
    else if !Unwrapping(open, root, row).Key? then Some(NotUnwrapped)
    else None
  }

  /** The key inside a row, read for the row's own organization. */
  function Unwrapping(open: Opener, root: Bytes, row: KeyRow): Unwrapped {
    match ParseRecord(WrappedKey, row.wrapped)
    case Refused => Unsupported
    case Parsed(record) => UnwrapKey(open, record, root, row.organization)
  }

  /** The map holds exactly the pairs of the first `n` rows, each with its own key. */
  ghost predicate Holds(deks: map<Str, Bytes>, open: Opener, root: Bytes, rows: seq<KeyRow>, n: nat)
    requires n <= |rows|
  {
    && (forall i | 0 <= i < n :: Filed(deks, open, root, rows[i]))
    && (forall k <- deks :: exists i | 0 <= i < n :: k == MapKey(rows[i].organization, rows[i].version))
  }

  predicate Filed(deks: map<Str, Bytes>, open: Opener, root: Bytes, row: KeyRow) {
    && MapKey(row.organization, row.version) in deks
    && Unwrapping(open, root, row) == Key(deks[MapKey(row.organization, row.version)])
  }

  lemma HoldsNothing(open: Opener, root: Bytes, rows: seq<KeyRow>)
    ensures Holds(map[], open, root, rows, 0)
  {
  }

  /** The key loop stops at the first faulty row, and otherwise files every key. */
  method LoadKeys(open: Opener, root: Bytes, rows: seq<KeyRow>) returns (r: Loaded)
    ensures r.Keys? <==> forall i | 0 <= i < |rows| :: FaultOf(open, root, rows, i) == None
    ensures r.Keys? ==> Holds(r.deks, open, root, rows, |rows|) && |r.deks| == |rows|
    ensures r.Stopped? ==>
      && r.at < |rows| && FaultOf(open, root, rows, r.at) == Some(r.fault)
      && forall i | 0 <= i < r.at :: FaultOf(open, root, rows, i) == None
  {
    hide MapKey, ParseRecord, UnwrapKey, Repeats, Holds;
    var organizationDeks: map<Str, Bytes> := map[];
    HoldsNothing(open, root, rows);
    for i := 0 to |rows|
      invariant forall j | 0 <= j < i :: FaultOf(open, root, rows, j) == None
      invariant Holds(organizationDeks, open, root, rows, i) && |organizationDeks| == i
    {
      var row := rows[i];
      if !ValidVersion(row.version) {
        assert FaultOf(open, root, rows, i) == Some(InvalidVersion);
        return Stopped(i, InvalidVersion);
      }
      var parsed := ParseRecord(WrappedKey, row.wrapped);
      if parsed.Refused? {
        assert FaultOf(open, root, rows, i) == Some(InvalidEnvelope);
        return Stopped(i, InvalidEnvelope);
      }
      if parsed.record.name != row.provider || parsed.record.keyVersion != row.version {
        assert FaultOf(open, root, rows, i) == Some(MetadataMismatch);
        return Stopped(i, MetadataMismatch);
      }
      var mapKey := MapKey(row.organization, row.version);
      KnownKeyRepeats(organizationDeks, open, root, rows, i);
      if mapKey in organizationDeks {
        assert FaultOf(open, root, rows, i) == Some(Duplicate);
        return Stopped(i, Duplicate);
      }
      var unwrapped := UnwrapKey(open, parsed.record, root, row.organization);
      if !unwrapped.Key? {
        assert FaultOf(open, root, rows, i) == Some(NotUnwrapped);
        return Stopped(i, NotUnwrapped);
      }
      FileNext(organizationDeks, open, root, rows, i, mapKey, unwrapped.dek);
      organizationDeks := organizationDeks[mapKey := unwrapped.dek];
    }
    r := Keys(organizationDeks);
  }

  /** The map knows a key exactly when an earlier row had the pair. */
  lemma KnownKeyRepeats(deks: map<Str, Bytes>, open: Opener, root: Bytes, rows: seq<KeyRow>, i: nat)
    requires i < |rows| && Holds(deks, open, root, rows, i)
    ensures MapKey(rows[i].organization, rows[i].version) in deks <==> Repeats(rows, i)
  {
    var k := MapKey(rows[i].organization, rows[i].version);
    hide MapKey, Unwrapping;
    if k in deks {
      var j :| 0 <= j < i && k == MapKey(rows[j].organization, rows[j].version);
      MapKeyInjective(rows[i].organization, rows[i].version, rows[j].organization, rows[j].version);
      assert SamePair(rows[j], rows[i]);
    }
    if Repeats(rows, i) {
      var j :| 0 <= j < i && SamePair(rows[j], rows[i]);
      assert Filed(deks, open, root, rows[j]);
    }
  }

  lemma FileNext(deks: map<Str, Bytes>, open: Opener, root: Bytes, rows: seq<KeyRow>, i: nat, k: Str, dek: Bytes)
    requires i < |rows| && Holds(deks, open, root, rows, i)
    requires k == MapKey(rows[i].organization, rows[i].version) && k !in deks
    requires Unwrapping(open, root, rows[i]) == Key(dek)
    ensures Holds(deks[k := dek], open, root, rows, i + 1) && |deks[k := dek]| == |deks| + 1
  {
    hide MapKey, Unwrapping;
    var more := deks[k := dek];
    forall j | 0 <= j < i + 1 ensures Filed(more, open, root, rows[j]) {
      if j < i {
        assert Filed(deks, open, root, rows[j]);
      }
    }
    forall m <- more ensures exists j | 0 <= j < i + 1 :: m == MapKey(rows[j].organization, rows[j].version) {
      if m != k {
        var j :| 0 <= j < i && m == MapKey(rows[j].organization, rows[j].version);
      }
    }
  }

  /** With every row sound in itself, the loop refuses exactly the tables that repeat a pair. */
  lemma OnlyRepeatsRefused(open: Opener, root: Bytes, rows: seq<KeyRow>)
    requires forall i | 0 <= i < |rows| ::
      FaultOf(open, root, rows, i) == None || FaultOf(open, root, rows, i) == Some(Duplicate)
    ensures (forall i | 0 <= i < |rows| :: FaultOf(open, root, rows, i) == None) <==>
            (forall i, j | 0 <= j < i < |rows| :: !SamePair(rows[j], rows[i]))
  {
    hide ParseRecord, Unwrapping;
    forall i | 0 <= i < |rows| ensures FaultOf(open, root, rows, i) == None <==> !Repeats(rows, i) {
    }
    if forall i | 0 <= i < |rows| :: FaultOf(open, root, rows, i) == None {
      forall i, j | 0 <= j < i < |rows| ensures !SamePair(rows[j], rows[i]) {
        assert FaultOf(open, root, rows, i) == None;
        assert !Repeats(rows, i);
      }
    }
  }

  // ------------------------------------------------------------ stored fields

  datatype PlaintextKind = DisplayName | OpaqueId | JsonObject | BankCredential
  datatype Specification = Specification(table: Str, column: Str, kind: PlaintextKind, skipNull: bool)

  /** `JSON.parse` to an object, an https URL with credentials, the synthetic marker. */
  datatype Formats = Formats(isObject: Str -> bool, isAccessUrl: Str -> bool, isSynthetic: Str -> bool)

  const FILE_IMPORT: Str := Ascii("FILE_IMPORT")
  const SIMPLEFIN: Str := Ascii("SIMPLEFIN")
  const LOCAL_MARKER: Str := Ascii("document-inbox-local-v1")

  /** `[\u0000-\u0008\u000b\u000c\u000e-\u001f\u007f]`: tab, line feed and return are let through. */
  predicate IsControl(c: Unit) {
    c <= 8 || c == 11 || c == 12 || 14 <= c <= 31 || c == 127
  }

  /** Control characters but tab, line feed and carriage return. */
  lemma ControlExactly(c: Unit)
    ensures IsControl(c) <==> (c < 32 && c != 9 && c != 10 && c != 13) || c == 127
  {
  }

  /** A text is refused when it is empty or holds one of these. */
  lemma PlainTextExactly(t: Str)
    ensures !PlainText(t) <==>
      |t| == 0 || exists i | 0 <= i < |t| :: (t[i] < 32 && t[i] != 9 && t[i] != 10 && t[i] != 13) || t[i] == 127
  {
    hide IsControl;
    forall i | 0 <= i < |t|
      ensures IsControl(t[i]) <==> (t[i] < 32 && t[i] != 9 && t[i] != 10 && t[i] != 13) || t[i] == 127
    {
      ControlExactly(t[i]);
    }
  }

  predicate PlainText(t: Str) {
    t != [] && forall i | 0 <= i < |t| :: !IsControl(t[i])
  }

  /** `assertPlaintext` and `assertMasterDataPlaintext`. */
  predicate MeetsKind(f: Formats, kind: PlaintextKind, t: Str, provider: Maybe<Str>) {
    && PlainText(t)
    && match kind
       case DisplayName => true
       case OpaqueId => true
       case JsonObject => f.isObject(t)
       case BankCredential =>
         || (provider == Some(FILE_IMPORT) && t == LOCAL_MARKER)
         || (provider == Some(SIMPLEFIN) && (f.isAccessUrl(t) || f.isSynthetic(t)))
  }

  /** What each kind demands, kind by kind. */
  lemma KindsExactly(f: Formats, t: Str, provider: Maybe<Str>)
    ensures MeetsKind(f, DisplayName, t, provider) <==> PlainText(t)
    ensures MeetsKind(f, OpaqueId, t, provider) <==> PlainText(t)
    ensures MeetsKind(f, JsonObject, t, provider) <==> PlainText(t) && f.isObject(t)
    ensures MeetsKind(f, BankCredential, t, provider) <==>
      && PlainText(t) && provider.Some?
      && (provider.value == Ascii("FILE_IMPORT") ==> t == Ascii("document-inbox-local-v1"))
      && (provider.value != Ascii("FILE_IMPORT") ==>
            provider.value == Ascii("SIMPLEFIN") && (f.isAccessUrl(t) || f.isSynthetic(t)))
  {
    assert |FILE_IMPORT| == 11 && |SIMPLEFIN| == 9;
  }

  datatype FieldFault = BadVersion | NoKey | BadField | Unreadable | BadPlaintext

  function ContextOf(spec: Specification, row: Row): Context {
    Field(row.organization, spec.table, spec.column, row.id, row.keyVersion)
  }

  /** What reading a stored field gives under a key. */
  function ReadField(open: Opener, spec: Specification, row: Row, dek: Bytes): Read {
    if row.ciphertext.None? then BadEnvelope
    else match ParseRecord(EncryptedField, row.ciphertext.value)
      case Refused => BadEnvelope
      case Parsed(record) => DecryptField(open, record, dek, ContextOf(spec, row))
  }

  /** The loop body of both verifiers for one row. */
  function CheckRow(open: Opener, f: Formats, deks: map<Str, Bytes>, spec: Specification,
                    row: Row): Verdict<FieldFault> {
    var k := MapKey(row.organization, row.keyVersion);
    if !ValidVersion(row.keyVersion) then Bad(BadVersion)
    else if k !in deks then Bad(NoKey)
    else match ReadField(open, spec, row, deks[k])
      case BadEnvelope => Bad(BadField)
      case BadMetadata => Bad(Unreadable)
      case BadKey => Bad(Unreadable)
      case NotAuthentic => Bad(Unreadable)
      case Text(t) => if MeetsKind(f, spec.kind, t, row.provider) then Fine else Bad(BadPlaintext)
  }

  /** A row is recoverable when some wrapped key of its own organization and version opens
      it, bound to its own table, column and record, to a text of its kind. */
  ghost predicate Recoverable(open: Opener, f: Formats, root: Bytes, keyRows: seq<KeyRow>, spec: Specification,
                              row: Row) {
    exists i | 0 <= i < |keyRows| :: RecoveredBy(open, f, root, keyRows[i], spec, row)
  }

  predicate RecoveredBy(open: Opener, f: Formats, root: Bytes, keyRow: KeyRow, spec: Specification, row: Row) {
    && keyRow.organization == row.organization && keyRow.version == row.keyVersion && ValidVersion(row.keyVersion)
    && Unwrapping(open, root, keyRow).Key?
    && var read := ReadField(open, spec, row, Unwrapping(open, root, keyRow).dek);
       read.Text? && MeetsKind(f, spec.kind, read.t, row.provider)
  }

  /** One row passes exactly when it is recoverable. */
  lemma PassesExactlyRecoverable(open: Opener, f: Formats, root: Bytes, keyRows: seq<KeyRow>, deks: map<Str, Bytes>,
                                 spec: Specification, row: Row)
    requires Holds(deks, open, root, keyRows, |keyRows|)
    ensures CheckRow(open, f, deks, spec, row).Fine? <==> Recoverable(open, f, root, keyRows, spec, row)
  {
    hide MapKey, Unwrapping, ReadField, MeetsKind, ValidVersion;
    var k := MapKey(row.organization, row.keyVersion);
    if CheckRow(open, f, deks, spec, row).Fine? {
      var i :| 0 <= i < |keyRows| && k == MapKey(keyRows[i].organization, keyRows[i].version);
      MapKeyInjective(row.organization, row.keyVersion, keyRows[i].organization, keyRows[i].version);
      assert Filed(deks, open, root, keyRows[i]);
      assert RecoveredBy(open, f, root, keyRows[i], spec, row);
    }
    if Recoverable(open, f, root, keyRows, spec, row) {
      var i :| 0 <= i < |keyRows| && RecoveredBy(open, f, root, keyRows[i], spec, row);
      assert Filed(deks, open, root, keyRows[i]);
    }
  }

  /** A field that was encrypted for one place passes exactly in the row of that place, under
      the key it was encrypted with, if its text is of the column's kind. */
  lemma WrittenPassesExactly(open: Opener, f: Formats, deks: map<Str, Bytes>, spec: Specification, row: Row, c: Context,
                             dek: Bytes, iv: Bytes, t: Str, box: Box)
    requires c.Field? && WellFormed(c) && NoBar(c) && |dek| == 32 && SafeInteger(c.version)
    requires Authentic(open, dek, iv, Aad(c), Utf8.Encode(t), box)
    requires row.ciphertext == Some(Serialize(EncryptedField, Sealed(EncryptedField, c.version, iv, box)))
    requires Paired(row.organization) && Paired(spec.table) && Paired(spec.column) && Paired(row.id)
    ensures CheckRow(open, f, deks, spec, row).Fine? <==>
      && row.organization == c.organization && spec.table == c.table && spec.column == c.column && row.id == c.record
      && row.keyVersion == c.version && c.version > 0
      && MapKey(c.organization, c.version) in deks && deks[MapKey(c.organization, c.version)] == dek
      && MeetsKind(f, spec.kind, Utf8.Decode(Utf8.Encode(t)), row.provider)
  {
    hide MapKey, MeetsKind, Aad, Authentic, NoBar, Serialize, Sealed, ParseRecord, DecryptField, Utf8.Encode,
         Utf8.Decode;
    var k := MapKey(row.organization, row.keyVersion);
    if k in deks {
      FieldRoundTrip(open, dek, deks[k], iv, c, ContextOf(spec, row), t, box);
    }
  }

  /** Why a row fails: its version, no key for it, no envelope, an envelope that does not open,
      or a text that is not of its kind, whichever comes first. */
  lemma FaultsExactly(open: Opener, f: Formats, deks: map<Str, Bytes>, spec: Specification, row: Row)
    ensures var v := CheckRow(open, f, deks, spec, row);
      var k := MapKey(row.organization, row.keyVersion);
      var envelope := row.ciphertext.Some? && ParseRecord(EncryptedField, row.ciphertext.value).Parsed?;
      && (v == Bad(BadVersion) <==> !(0 < row.keyVersion <= MAX_SAFE))
      && (v == Bad(NoKey) <==> 0 < row.keyVersion <= MAX_SAFE && k !in deks)
      && (v == Bad(BadField) <==> 0 < row.keyVersion <= MAX_SAFE && k in deks && !envelope)
      && (v == Bad(BadPlaintext) ==> envelope && ReadField(open, spec, row, deks[k]).Text?)
      && (v == Bad(Unreadable) ==> envelope && !ReadField(open, spec, row, deks[k]).Text?)
  {
    hide MapKey, MeetsKind, ParseRecord, Aad, BoxOf;
  }

  datatype Columns = FieldStopped(row: Row, why: FieldFault) | Passed(counts: seq<nat>)

  /** Every eligible row of a table is recoverable. */
  ghost predicate AllRecoverable(open: Opener, f: Formats, root: Bytes, keyRows: seq<KeyRow>, spec: Specification,
                                 table: seq<Row>) {
    forall row <- table :: Eligible(row, spec.skipNull) ==> Recoverable(open, f, root, keyRows, spec, row)
  }

  /** One column after the other, each in batches. It passes exactly when every eligible
      row of every column is recoverable, and then counts the eligible rows of each. */
  method VerifyColumns(open: Opener, f: Formats, root: Bytes, keyRows: seq<KeyRow>, deks: map<Str, Bytes>,
                       specs: seq<Specification>, queries: seq<Query>, batch: nat, ghost tables: seq<seq<Row>>)
    returns (r: Columns)
    requires batch > 0 && |specs| == |queries| == |tables| && Holds(deks, open, root, keyRows, |keyRows|)
    requires forall i | 0 <= i < |specs| ::
      DistinctKeys(tables[i]) && Faithful(queries[i], tables[i], specs[i].skipNull)
    ensures r.Passed? <==> forall i | 0 <= i < |specs| :: AllRecoverable(open, f, root, keyRows, specs[i], tables[i])
    ensures r.Passed? ==> |r.counts| == |specs|
    ensures r.Passed? ==> forall i | 0 <= i < |specs| :: r.counts[i] == CountEligible(tables[i], specs[i].skipNull)
  {
    hide CheckRow, Recoverable, Listing, Faithful, AllRecoverable, Holds;
    var counts: seq<nat> := [];
    for i := 0 to |specs|
      invariant forall j | 0 <= j < i :: AllRecoverable(open, f, root, keyRows, specs[j], tables[j])
      invariant |counts| == i && forall j | 0 <= j < i :: counts[j] == CountEligible(tables[j], specs[j].skipNull)
    {
      var spec := specs[i];
      var check := row => CheckRow(open, f, deks, spec, row);
      var tally := VerifyTable(queries[i], batch, check, tables[i], spec.skipNull);
      PassesExactlyWhenAllRecoverable(open, f, root, keyRows, deks, spec, tables[i], check);
      if tally.Failed? {
        return FieldStopped(tally.at, tally.fault);
      }
      counts := counts + [tally.n];
    }
    r := Passed(counts);
  }

  lemma PassesExactlyWhenAllRecoverable(open: Opener, f: Formats, root: Bytes, keyRows: seq<KeyRow>, deks: map<Str,
                                        Bytes>,
                                        spec: Specification, table: seq<Row>, check: Row -> Verdict<FieldFault>)
    requires Holds(deks, open, root, keyRows, |keyRows|) && DistinctKeys(table)
    requires forall row :: check(row) == CheckRow(open, f, deks, spec, row)
    ensures var tally := Verified(Listing(table, spec.skipNull), check);
            && (tally.Counted? <==> AllRecoverable(open, f, root, keyRows, spec, table))
            && (tally.Counted? ==> tally.n == CountEligible(table, spec.skipNull))
  {
    hide CheckRow, Recoverable, Holds, Listing;
    var all := Listing(table, spec.skipNull);
    ListingRight(table, spec.skipNull);
    VerifiedExactly(all, check);
    forall row ensures CheckRow(open, f, deks, spec, row).Fine? <==> Recoverable(open, f, root, keyRows, spec, row) {
      PassesExactlyRecoverable(open, f, root, keyRows, deks, spec, row);
    }
    if Verified(all, check).Counted? {
      forall row <- table | Eligible(row, spec.skipNull) ensures Recoverable(open, f, root, keyRows, spec, row) {
        var i :| 0 <= i < |all| && all[i] == row;
        assert check(all[i]).Fine?;
      }
    }
  }
}
