/** The whole restore drill (scripts/operations/verify-restored-secrets.ts): organization
    keys, key coverage, identities (scripts/operations/restored-identity-secrets.ts), the
    encrypted columns, and the demand for one row of each kind. */
module RestoreDrill {
  import opened Text
  import opened Utf8
  import opened Contexts
  import opened Sealing
  import opened ColonEnvelopes
  import opened Paging
  import opened Restore

  // -------------------------------------------------------------- identities

  datatype User = User(id: Str, email: Str, displayName: Maybe<Str>, demo: bool)

  datatype IdentityFault = UnsupportedEnvelope | UnsupportedName | NotOpened | BadText
  datatype Class = Encrypted | Synthetic | Faulty(why: IdentityFault)
  datatype Identities = Identified(encrypted: nat, synthetic: nat) | IdentityStopped(at: nat, fault: IdentityFault)

  const IDENTITY_PREFIX: Str := Ascii("idv1:")
  const PUBLIC_DEMO: Str := Ascii("public-demo")
  const SANDBOX: Str := Ascii("public-demo-sandbox-")

  /** `/^public-demo(?:-sandbox-[1-9][0-9]*)?$/` */
  predicate IsDemoMarker(t: Str) {
    || t == PUBLIC_DEMO
    || (SANDBOX <= t && |t| > |SANDBOX| && t[|SANDBOX|] != 48 && AllDigits(t[|SANDBOX|..]))
  }

  /** `assertIdentityPlaintext`: stricter than for fields, tab and line ends are refused too. */
  predicate IdentityText(t: Str) {
    t != [] && forall i | 0 <= i < |t| :: !(t[i] <= 31 || t[i] == 127)
  }

  /** A text is refused when it is empty or holds any control character. */
  lemma IdentityTextExactly(t: Str)
    ensures !IdentityText(t) <==> |t| == 0 || exists i | 0 <= i < |t| :: t[i] < 32 || t[i] == 127
  {
  }

  lemma SandboxSpelled()
    ensures SANDBOX == Ascii("public-demo-sandbox-") && PUBLIC_DEMO == Ascii("public-demo")
  {
  }

  /** The demo markers: the public one, and one for each sandbox numbered from one. */
  lemma DemoMarkerExactly(t: Str)
    ensures IsDemoMarker(t) <==>
      t == Ascii("public-demo") || exists n: nat :: n > 0 && t == Ascii("public-demo-sandbox-") + Digits(n)
  {
    SandboxSpelled();
    hide Ascii, SANDBOX, PUBLIC_DEMO, Digits;
    if SANDBOX <= t && |t| > |SANDBOX| && t[|SANDBOX|] != 48 && AllDigits(t[|SANDBOX|..]) {
      var w := t[|SANDBOX|..];
      DigitsOfValue(w);
      PositiveValue(w);
      assert t == SANDBOX + w;
    }
    if n: nat :| n > 0 && t == SANDBOX + Digits(n) {
      DigitsDenote(n);
      assert t[|SANDBOX|..] == Digits(n) && t[..|SANDBOX|] == SANDBOX;
    }
  }

  /** The envelope opens as this user's email or display name to a proper text. */
  predicate Readable(open: Opener, key: Bytes, user: Str, email: bool, envelope: Str) {
    var read := OpenColons(open, key, Identity(email, user), envelope);
    read.Text? && IdentityText(read.t)
  }

  /** The body of the identity loop for one row. */
  function Classify(open: Opener, key: Bytes, u: User): Class {
    if !(IDENTITY_PREFIX <= u.email) then
      if u.demo && u.displayName.None? && IsDemoMarker(u.email) then Synthetic else Faulty(UnsupportedEnvelope)
    else
      var email := OpenColons(open, key, Identity(true, u.id), u.email);
      if !email.Text? then Faulty(NotOpened)
      else if !IdentityText(email.t) then Faulty(BadText)
      else if u.displayName.None? then Encrypted
      else if !(IDENTITY_PREFIX <= u.displayName.value) then Faulty(UnsupportedName)
      else
        var name := OpenColons(open, key, Identity(false, u.id), u.displayName.value);
        if !name.Text? then Faulty(NotOpened)
        else if !IdentityText(name.t) then Faulty(BadText)
        else Encrypted
  }

  /** What opens starts with the prefix, so the two tests of the prefix refuse nothing. */
  lemma ReadableStarts(open: Opener, key: Bytes, user: Str, email: bool, envelope: Str)
    requires Readable(open, key, user, email, envelope)
    ensures IDENTITY_PREFIX <= envelope
  {
    hide Aad;
    var p := ParseColons(Prefix(Identity(email, user)), envelope);
    assert Prefix(Identity(email, user)) == Ascii("idv1");
    PrefixesDiffer(Identity(true, user), Identity(true, user));
    ColonsAcceptExactly(Ascii("idv1"), envelope, p.iv, p.ciphertext, p.tag);
    JoinFour(Ascii("idv1"), p.iv, p.ciphertext, p.tag);
    assert IDENTITY_PREFIX == Ascii("idv1") + [58];
  }

  /** A row counts as encrypted exactly when its email and any display name are readable
      as this user's own; a demo marker never is. */
  lemma EncryptedExactlyReadable(open: Opener, key: Bytes, u: User)
    ensures Classify(open, key, u).Encrypted? <==>
      && Readable(open, key, u.id, true, u.email)
      && (u.displayName.Some? ==> Readable(open, key, u.id, false, u.displayName.value))
    ensures Classify(open, key, u).Synthetic? <==> u.demo && u.displayName.None? && IsDemoMarker(u.email)
  {
    hide OpenColons, IdentityText;
    if Readable(open, key, u.id, true, u.email) {
      ReadableStarts(open, key, u.id, true, u.email);
    }
    if u.displayName.Some? && Readable(open, key, u.id, false, u.displayName.value) {
      ReadableStarts(open, key, u.id, false, u.displayName.value);
    }
    MarkersDiffer(u.email);
  }

  lemma MarkersDiffer(t: Str)
    ensures IsDemoMarker(t) ==> !(IDENTITY_PREFIX <= t)
  {
    assert IDENTITY_PREFIX[0] == 105 && PUBLIC_DEMO[0] == 112 && SANDBOX[0] == 112;
  }

  /** What was written for one user's field is readable exactly there: for that user, that
      field and that key, if the text that comes back is not empty and has no control
      characters. */
  lemma WrittenReadableExactly(open: Opener, key: Bytes, key1: Bytes, iv: Bytes, user: Str, user1: Str, email: bool,
                               email1: bool,
                               t: Str, box: Box)
    requires Paired(user) && Paired(user1)
    requires Authentic(open, key, iv, Aad(Identity(email, user)), Utf8.Encode(t), box)
    ensures Readable(open, key1, user1, email1, Colons(Prefix(Identity(email, user)), iv, box)) <==>
      user1 == user && email1 == email && key1 == key && t != [] && IdentityText(Utf8.Decode(Utf8.Encode(t)))
  {
    hide OpenColons, Colons, Aad, Authentic, IdentityText, Prefix;
    ColonRoundTrip(open, key, key1, iv, Identity(email, user), Identity(email1, user1), t, box);
  }

  /** How many of the rows are of a class. */
  function CountClass(open: Opener, key: Bytes, users: seq<User>, wanted: Class): nat {
    if users == [] then 0
    else
      CountClass(open, key, users[..|users| - 1], wanted)
      + if Classify(open, key, users[|users| - 1]) == wanted then 1 else 0
  }

  /** `verifyRestoredIdentityCiphertexts` stops at the first faulty row, and otherwise
      counts every row as encrypted or synthetic. */
  method VerifyIdentities(open: Opener, key: Bytes, users: seq<User>) returns (r: Identities)
    ensures r.Identified? <==> forall i | 0 <= i < |users| :: !Classify(open, key, users[i]).Faulty?
    ensures r.Identified? ==>
      && r.encrypted == CountClass(open, key, users, Encrypted)
      && r.synthetic == CountClass(open, key, users, Synthetic)
      && r.encrypted + r.synthetic == |users|
    ensures r.IdentityStopped? ==>
      && r.at < |users| && Classify(open, key, users[r.at]) == Faulty(r.fault)
      && forall i | 0 <= i < r.at :: !Classify(open, key, users[i]).Faulty?
  {
    hide OpenColons, IdentityText, IsDemoMarker;
    var encrypted, synthetic := 0, 0;
    for i := 0 to |users|
      invariant forall j | 0 <= j < i :: !Classify(open, key, users[j]).Faulty?
      invariant encrypted == CountClass(open, key, users[..i], Encrypted)
      invariant synthetic == CountClass(open, key, users[..i], Synthetic) && encrypted + synthetic == i
    {
      var row := users[i];
      assert users[..i + 1][..i] == users[..i];
      if !(IDENTITY_PREFIX <= row.email) {
        if row.demo && row.displayName.None? && IsDemoMarker(row.email) {
          synthetic := synthetic + 1;
          continue;
        }
        return IdentityStopped(i, UnsupportedEnvelope);
      }
      var email := OpenColons(open, key, Identity(true, row.id), row.email);
      if !email.Text? {
        return IdentityStopped(i, NotOpened);
      }
      if !IdentityText(email.t) {
        return IdentityStopped(i, BadText);
      }
      if row.displayName.Some? {
        if !(IDENTITY_PREFIX <= row.displayName.value) {
          return IdentityStopped(i, UnsupportedName);
        }
        var name := OpenColons(open, key, Identity(false, row.id), row.displayName.value);
        if !name.Text? {
          return IdentityStopped(i, NotOpened);
        }
        if !IdentityText(name.t) {
          return IdentityStopped(i, BadText);
        }
      }
      encrypted := encrypted + 1;
    }
    assert users[..|users|] == users;
    r := Identified(encrypted, synthetic);
  }

  // ------------------------------------------------------------ key coverage

  const ADDRESSES: Str := Ascii("party_addresses")
  const STATEMENT_IMPORTS: Str := Ascii("bank_statement_imports")
  const STATEMENT_ROWS: Str := Ascii("bank_statement_import_rows")

  /** The version the coverage query refers to; an address's is text of at most nine digits. */
  function ReferredVersion(table: Str, version: int): Maybe<int> {
    if table == ADDRESSES && !(1 <= version <= 999_999_999) then None else Some(version)
  }

  predicate HasKey(keyRows: seq<KeyRow>, organization: Str, version: Maybe<int>) {
    exists i | 0 <= i < |keyRows| :: version == Some(keyRows[i].version) && keyRows[i].organization == organization
  }

  /** A row that refers to no wrapped key; the query does not look at the two statement
      tables. */
  predicate Uncovered(keyRows: seq<KeyRow>, spec: Specification, row: Row) {
    && row.ciphertext.Some? && spec.table != STATEMENT_IMPORTS && spec.table != STATEMENT_ROWS
    && !HasKey(keyRows, row.organization, ReferredVersion(spec.table, row.keyVersion))
  }

  /** The two statement tables are never found uncovered. */
  lemma StatementsUnchecked(keyRows: seq<KeyRow>, spec: Specification, row: Row)
    requires spec.table == Ascii("bank_statement_imports") || spec.table == Ascii("bank_statement_import_rows")
    ensures !Uncovered(keyRows, spec, row)
  {
  }

  /** The organizations the query counts. */
  ghost function MissingKeys(keyRows: seq<KeyRow>, specs: seq<Specification>, tables: seq<seq<Row>>): set<Str>
    requires |specs| == |tables|
  {
    set i, k | 0 <= i < |specs| && 0 <= k < |tables[i]| && Uncovered(keyRows, specs[i], tables[i][k]) ::
      tables[i][k].organization
  }

  /** An address whose key version has ten digits or more. */
  predicate LongVersion(spec: Specification, row: Row) {
    spec.table == ADDRESSES && row.ciphertext.Some? && row.keyVersion > 999_999_999
  }

  /** With every row recoverable, coverage still refuses exactly the stores in which an
      address is encrypted under a version of ten digits or more. */
  lemma CoverageRefusesExactly(open: Opener, f: Formats, root: Bytes, keyRows: seq<KeyRow>, specs: seq<Specification>,
                               tables: seq<seq<Row>>)
    requires |specs| == |tables|
    requires forall i | 0 <= i < |specs| :: AllRecoverable(open, f, root, keyRows, specs[i], tables[i])
    ensures MissingKeys(keyRows, specs, tables) != {} <==>
            exists i, k | 0 <= i < |specs| && 0 <= k < |tables[i]| :: LongVersion(specs[i], tables[i][k])
  {
    hide RecoveredBy;
    var missing := MissingKeys(keyRows, specs, tables);
    forall i, k | 0 <= i < |specs| && 0 <= k < |tables[i]|
      ensures Uncovered(keyRows, specs[i], tables[i][k]) <==> LongVersion(specs[i], tables[i][k])
    {
      assert tables[i][k] in tables[i];
      if tables[i][k].ciphertext.Some? {
        UncoveredExactly(open, f, root, keyRows, specs[i], tables[i][k]);
      }
    }
    if missing != {} {
      var o :| o in missing;
    }
    if i, k :| 0 <= i < |specs| && 0 <= k < |tables[i]| && LongVersion(specs[i], tables[i][k]) {
      assert tables[i][k].organization in missing;
    }
  }

  lemma UncoveredExactly(open: Opener, f: Formats, root: Bytes, keyRows: seq<KeyRow>, spec: Specification, row: Row)
    requires Recoverable(open, f, root, keyRows, spec, row) && row.ciphertext.Some?
    ensures Uncovered(keyRows, spec, row) <==> LongVersion(spec, row)
  {
    hide Unwrapping, ReadField, MeetsKind;
    var i :| 0 <= i < |keyRows| && RecoveredBy(open, f, root, keyRows[i], spec, row);
    TablesDiffer();
  }

  lemma TablesDiffer()
    ensures ADDRESSES != STATEMENT_IMPORTS && ADDRESSES != STATEMENT_ROWS
  {
    assert |ADDRESSES| == 15 && |STATEMENT_IMPORTS| == 22 && |STATEMENT_ROWS| == 26;
  }

  // --------------------------------------------------------------- the drill

  const PARTIES: Str := Ascii("parties")
  const CONNECTIONS: Str := Ascii("bank_connections")
  const ACCOUNTS: Str := Ascii("bank_external_accounts")
  const OBSERVATIONS: Str := Ascii("bank_observations")
  const DETAIL_VERSIONS: Str := Ascii("bank_observation_versions")
  const RULES: Str := Ascii("bank_rules")
  const PROPOSALS: Str := Ascii("bank_draft_proposals")
  const CIPHERTEXT: Str := Ascii("ciphertext")
  const DISPLAY_NAME: Str := Ascii("display_name_ciphertext")
  const CREDENTIALS: Str := Ascii("credentials_ciphertext")
  const ACCOUNT_ID: Str := Ascii("provider_account_id_")
  const TRANSACTION_ID: Str := Ascii("provider_transaction_id_")
  const DETAILS: Str := Ascii("details_ciphertext")
  const EXTRACTION: Str := Ascii("extraction_ciphertext")
  const ROW: Str := Ascii("row_ciphertext")
  const CONDITION: Str := Ascii("condition_ciphertext")
  const ACTION: Str := Ascii("action_ciphertext")
  const PAYLOAD: Str := Ascii("payload_ciphertext")

  /** The registered columns: two of master data, then ten of banking. */
  const FIELDS: seq<Specification> := [
    Specification(PARTIES, DISPLAY_NAME, DisplayName, true),
    Specification(ADDRESSES, CIPHERTEXT, JsonObject, true),
    Specification(CONNECTIONS, CREDENTIALS, BankCredential, false),
    Specification(ACCOUNTS, ACCOUNT_ID + CIPHERTEXT, OpaqueId, false),
    Specification(ACCOUNTS, DISPLAY_NAME, DisplayName, false),
    Specification(OBSERVATIONS, TRANSACTION_ID + CIPHERTEXT, OpaqueId, false),
    Specification(DETAIL_VERSIONS, DETAILS, JsonObject, false),
    Specification(STATEMENT_IMPORTS, EXTRACTION, JsonObject, false),
    Specification(STATEMENT_ROWS, ROW, JsonObject, false),
    Specification(RULES, CONDITION, JsonObject, false),
    Specification(RULES, ACTION, JsonObject, false),
    Specification(PROPOSALS, PAYLOAD, JsonObject, false)]

  datatype Kind = IdentityRow | PartyName | PartyAddress

  datatype Report = Report(
    keys: nat, encrypted: nat, synthetic: nat, names: nat, addresses: nat, banking: nat, missing: seq<Kind>)

  datatype Drill =
    | KeysStopped(at: nat, fault: KeyFault)
    | NotCovered
    | UsersStopped(user: nat, why: IdentityFault)
    | ColumnStopped(row: Row, reason: FieldFault)
    | NoKeys
    | NoRepresentative(kinds: seq<Kind>)
    | Verified(report: Report)

  function MissingKinds(encrypted: nat, names: nat, addresses: nat): seq<Kind> {
    (if encrypted == 0 then [IdentityRow] else []) + (if names == 0 then [PartyName] else [])
    + (if addresses == 0 then [PartyAddress] else [])
  }

  function Sum(counts: seq<nat>): nat {
    if counts == [] then 0 else Sum(counts[..|counts| - 1]) + counts[|counts| - 1]
  }

  /** What is in the restored store. */
  datatype Store = Store(keyRows: seq<KeyRow>, users: seq<User>, tables: seq<seq<Row>>)

  /** One table for each registered column. */
  ghost predicate StoreShape(store: Store) {
    && |store.tables| == |FIELDS|
    && forall i | 0 <= i < |store.tables| :: DistinctKeys(store.tables[i])
  }

  ghost function Eligibles(store: Store): seq<nat>
    requires StoreShape(store)
  {
    seq(|FIELDS|, i requires 0 <= i < |FIELDS| => CountEligible(store.tables[i], FIELDS[i].skipNull))
  }

  /** Everything the drill is for: sound keys, covered and readable data, known users. */
  ghost predicate Restorable(open: Opener, f: Formats, root: Bytes, key: Bytes, store: Store)
    requires StoreShape(store)
  {
    && (forall i | 0 <= i < |store.keyRows| :: FaultOf(open, root, store.keyRows, i) == None)
    && MissingKeys(store.keyRows, FIELDS, store.tables) == {}
    && (forall i | 0 <= i < |store.users| :: !Classify(open, key, store.users[i]).Faulty?)
    && forall i | 0 <= i < |FIELDS| :: AllRecoverable(open, f, root, store.keyRows, FIELDS[i], store.tables[i])
  }

  ghost function Expected(open: Opener, key: Bytes, store: Store): Report
    requires StoreShape(store)
  {
    var encrypted := CountClass(open, key, store.users, Encrypted);
    var counts := Eligibles(store);
    Report(|store.keyRows|, encrypted, CountClass(open, key, store.users, Synthetic), counts[0], counts[1],
           Sum(counts[2..]), MissingKinds(encrypted, counts[0], counts[1]))
  }

  function Rows(tables: seq<seq<Row>>): seq<Row> {
    if tables == [] then [] else tables[0] + Rows(tables[1..])
  }

  /** A sum of counts grows by each. */
  lemma {:induction false} SumSplit(a: seq<nat>, b: seq<nat>)
    ensures Sum(a + b) == Sum(a) + Sum(b)
  {
    if b == [] {
      assert a + b == a;
    } else {
      SumSplit(a, b[..|b| - 1]);
      assert (a + b)[..|a + b| - 1] == a + b[..|b| - 1];
    }
  }

  lemma {:induction false} AllCounted(table: seq<Row>)
    ensures CountEligible(table, false) == |table|
  {
    if table != [] {
      AllCounted(table[1..]);
    }
  }

  /** Over columns without a null test, the counts add up to the number of rows. */
  lemma {:induction false} SumIsRows(counts: seq<nat>, tables: seq<seq<Row>>)
    requires |counts| == |tables| && forall i | 0 <= i < |counts| :: counts[i] == |tables[i]|
    ensures Sum(counts) == |Rows(tables)|
  {
    if counts != [] {
      SumIsRows(counts[1..], tables[1..]);
      SumSplit([counts[0]], counts[1..]);
      assert counts == [counts[0]] + counts[1..];
      assert [counts[0]][..0] == [];
      assert Sum([counts[0]]) == Sum([]) + counts[0];
    }
  }

  lemma BankingCounted(open: Opener, key: Bytes, store: Store)
    requires StoreShape(store)
    ensures Expected(open, key, store).banking == |Rows(store.tables[2..])|
  {
    BankingUnskipped();
    hide FIELDS, DistinctKeys, CountClass, Ascii, MissingKinds;
    forall i | 2 <= i < |store.tables| ensures Eligibles(store)[i] == |store.tables[i]| {
      AllCounted(store.tables[i]);
    }
    SumIsRows(Eligibles(store)[2..], store.tables[2..]);
  }

  lemma BankingUnskipped()
    ensures |FIELDS| == 12 && forall i | 2 <= i < |FIELDS| :: !FIELDS[i].skipNull
  {
    hide Ascii;
  }

  /** Some user whose email and any display name are readable as its own. */
  ghost predicate SomeIdentity(open: Opener, key: Bytes, users: seq<User>) {
    exists u <- users ::
      && Readable(open, key, u.id, true, u.email)
      && (u.displayName.Some? ==> Readable(open, key, u.id, false, u.displayName.value))
  }

  /** Some row of the table is encrypted. */
  ghost predicate SomeCiphertext(table: seq<Row>) {
    exists row <- table :: row.ciphertext.Some?
  }

  /** The kinds named are those of which the store holds nothing. */
  ghost predicate NamesMissing(kinds: seq<Kind>, open: Opener, key: Bytes, store: Store)
    requires StoreShape(store)
  {
    && (IdentityRow in kinds <==> !SomeIdentity(open, key, store.users))
    && (PartyName in kinds <==> !SomeCiphertext(store.tables[0]))
    && (PartyAddress in kinds <==> !SomeCiphertext(store.tables[1]))
  }

  lemma {:induction false} EncryptedCounted(open: Opener, key: Bytes, users: seq<User>)
    ensures CountClass(open, key, users, Encrypted) > 0 <==> SomeIdentity(open, key, users)
  {
    hide Classify, Readable;
    if users != [] {
      var front, last := users[..|users| - 1], users[|users| - 1];
      EncryptedCounted(open, key, front);
      EncryptedExactlyReadable(open, key, last);
      assert users == front + [last];
    }
  }

  lemma {:induction false} CiphertextsCounted(table: seq<Row>)
    ensures CountEligible(table, true) > 0 <==> SomeCiphertext(table)
  {
    if table != [] {
      CiphertextsCounted(table[1..]);
      assert table == [table[0]] + table[1..];
    }
  }

  lemma MissingExactly(open: Opener, key: Bytes, store: Store)
    requires StoreShape(store)
    ensures NamesMissing(Expected(open, key, store).missing, open, key, store)
    ensures Expected(open, key, store).missing == [] ==>
      SomeIdentity(open, key, store.users) && SomeCiphertext(store.tables[0]) && SomeCiphertext(store.tables[1])
  {
    hide DistinctKeys, CountClass, SomeIdentity, SomeCiphertext, Sum, Ascii;
    EncryptedCounted(open, key, store.users);
    CiphertextsCounted(store.tables[0]);
    CiphertextsCounted(store.tables[1]);
  }

  /** The two loops over the registered columns: master data, then banking. */
  method VerifyFields(open: Opener, f: Formats, root: Bytes, ghost store: Store, keyRows: seq<KeyRow>,
                      deks: map<Str, Bytes>, queries: seq<Query>, batch: nat)
    returns (r: Columns)
    requires StoreShape(store) && batch > 0 && |queries| == |FIELDS| && keyRows == store.keyRows
    requires Holds(deks, open, root, keyRows, |keyRows|)
    requires forall i | 0 <= i < |FIELDS| :: Faithful(queries[i], store.tables[i], FIELDS[i].skipNull)
    ensures r.Passed? <==>
      forall i | 0 <= i < |FIELDS| :: AllRecoverable(open, f, root, keyRows, FIELDS[i], store.tables[i])
    ensures r.Passed? ==> r.counts == Eligibles(store)
  {
    hide Faithful, AllRecoverable, Holds, DistinctKeys, Ascii;
    r := VerifyColumns(open, f, root, keyRows, deks, FIELDS[..2], queries[..2], batch, store.tables[..2]);
    if r.Passed? {
      var banking := VerifyColumns(open, f, root, keyRows, deks, FIELDS[2..], queries[2..], batch, store.tables[2..]);
      if banking.Passed? {
        assert r.counts + banking.counts == Eligibles(store);
        return Passed(r.counts + banking.counts);
      }
      r := banking;
    }
  }

  /** `main`: verified exactly when the store is restorable and, unless waived, has a key
      and a row of each kind; the report then counts what is there. */
  method VerifyRestore(open: Opener, f: Formats, root: Bytes, key: Bytes, ghost store: Store, keyRows: seq<KeyRow>,
                       missing: int, users: seq<User>, queries: seq<Query>, batch: nat, requireKeys: bool,
                       allowEmpty: bool)
    returns (r: Drill)
    requires StoreShape(store) && batch > 0 && |queries| == |FIELDS|
    requires keyRows == store.keyRows && users == store.users
    requires missing == |MissingKeys(store.keyRows, FIELDS, store.tables)|
    requires forall i | 0 <= i < |FIELDS| :: Faithful(queries[i], store.tables[i], FIELDS[i].skipNull)
    ensures r.Verified? <==>
      && Restorable(open, f, root, key, store) && (requireKeys ==> keyRows != [])
      && (allowEmpty || Expected(open, key, store).missing == [])
    ensures r.Verified? ==>
      && r.report == Expected(open, key, store) && NamesMissing(r.report.missing, open, key, store)
      && r.report.banking == |Rows(store.tables[2..])|
    ensures r.Verified? && !allowEmpty ==>
      SomeIdentity(open, key, store.users) && SomeCiphertext(store.tables[0]) && SomeCiphertext(store.tables[1])
    ensures r.NoRepresentative? ==> NamesMissing(r.kinds, open, key, store)
  {
    hide FaultOf, Faithful, AllRecoverable, Holds, MissingKeys, Classify, CountClass, Sum, DistinctKeys, MissingKinds,
         NamesMissing, SomeIdentity, SomeCiphertext, Ascii;
    MissingExactly(open, key, store);
    BankingCounted(open, key, store);
    var loaded := LoadKeys(open, root, keyRows);
    if loaded.Stopped? {
      return KeysStopped(loaded.at, loaded.fault);
    }
    if missing != 0 {
      return NotCovered;
    }
    var identities := VerifyIdentities(open, key, users);
    if identities.IdentityStopped? {
      return UsersStopped(identities.at, identities.fault);
    }
    var columns := VerifyFields(open, f, root, store, keyRows, loaded.deks, queries, batch);
    if columns.FieldStopped? {
      return ColumnStopped(columns.row, columns.why);
    }
    var counts := columns.counts;
    if requireKeys && |loaded.deks| == 0 {
      return NoKeys;
    }
    var kinds := MissingKinds(identities.encrypted, counts[0], counts[1]);
    if kinds != [] && !allowEmpty {
      return NoRepresentative(kinds);
    }
    r := Verified(Report(|loaded.deks|, identities.encrypted, identities.synthetic, counts[0], counts[1],
                         Sum(counts[2..]), kinds));
  }
}
