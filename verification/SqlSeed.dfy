/** The seed statement for tax filing templates
    (scripts/operations/tax-filing-template-seed-contract.ts), read by the rules for
    character string literals and comments of sections 5.2 and 5.3 of ISO/IEC 9075-2.

    Code units: 39 quote, 45 hyphen, 10 line feed. */
module SqlSeed {
  import opened Text

  /** `'${value.replaceAll("'", "''")}'` */
  function SqlString(s: Str): Str {
    [39] + Doubled(s) + [39]
  }

  function Doubled(s: Str): Str {
    if s == [] then [] else (if s[0] == 39 then [39, 39] else [s[0]]) + Doubled(s[1..])
  }

  // -------------------------------------------------------------- the reader

  datatype Token = Plain(c: Unit) | Literal(s: Str) | Unterminated

  datatype Literally = Open | Closed(s: Str, rest: Str)

  /** A literal after its opening quote: a doubled quote is a quote, a single one ends it. */
  function ReadLiteral(t: Str): (r: Literally)
    ensures r.Closed? ==> |r.rest| < |t|
  {
    if t == [] then Open
    else if t[0] == 39 then
      if |t| > 1 && t[1] == 39 then More(39, ReadLiteral(t[2..])) else Closed([], t[1..])
    else More(t[0], ReadLiteral(t[1..]))
  }

  function More(c: Unit, r: Literally): Literally {
    match r
    case Open => Open
    case Closed(s, rest) => Closed([c] + s, rest)
  }

  /** A comment runs to the end of its line. */
  function AfterComment(t: Str): (r: Str)
    ensures |r| <= |t|
  {
    if t == [] then [] else if t[0] == 10 then t else AfterComment(t[1..])
  }

  function Scan(t: Str): seq<Token>
    decreases |t|
  {
    if t == [] then []
    else if t[0] == 39 then
      match ReadLiteral(t[1..])
      case Open => [Unterminated]
      case Closed(s, rest) => [Literal(s)] + Scan(rest)
    else if |t| > 1 && t[0] == 45 && t[1] == 45 then Scan(AfterComment(t[2..]))
    else [Plain(t[0])] + Scan(t[1..])
  }

  /** A rendered string followed by anything but a quote reads as that string, then that. */
  lemma {:induction false} LiteralReadsBack(s: Str, rest: Str)
    requires rest == [] || rest[0] != 39
    ensures ReadLiteral(Doubled(s) + [39] + rest) == Closed(s, rest)
  {
    hide ReadLiteral;
    if s == [] {
      CloseStep([39] + rest, rest);
      assert Doubled(s) + [39] + rest == [39] + rest;
    } else {
      LiteralReadsBack(s[1..], rest);
      var u := Doubled(s[1..]) + [39] + rest;
      UnitStep(s[0], (if s[0] == 39 then [39, 39] else [s[0]]) + u, u, s[1..], rest);
      assert s == [s[0]] + s[1..];
      assert Doubled(s) + [39] + rest == (if s[0] == 39 then [39, 39] else [s[0]]) + u;
    }
  }

  lemma CloseStep(t: Str, rest: Str)
    requires t == [39] + rest && (rest == [] || rest[0] != 39)
    ensures ReadLiteral(t) == Closed([], rest)
  {
    assert t[1..] == rest;
  }

  lemma UnitStep(c: Unit, t: Str, u: Str, s: Str, rest: Str)
    requires t == (if c == 39 then [39, 39] else [c]) + u && ReadLiteral(u) == Closed(s, rest)
    ensures ReadLiteral(t) == Closed([c] + s, rest)
  {
    if c == 39 {
      assert t[2..] == u;
    } else {
      assert t[1..] == u;
    }
  }

  lemma ScanLiteral(s: Str, rest: Str)
    requires rest == [] || rest[0] != 39
    ensures Scan(SqlString(s) + rest) == [Literal(s)] + Scan(rest)
  {
    hide Scan, Doubled, ReadLiteral;
    LiteralReadsBack(s, rest);
    var u := Doubled(s) + [39] + rest;
    assert SqlString(s) + rest == [39] + u;
    ScanQuoted([39] + u, u, s, rest);
  }

  lemma ScanQuoted(t: Str, u: Str, s: Str, rest: Str)
    requires t == [39] + u && ReadLiteral(u) == Closed(s, rest)
    ensures Scan(t) == [Literal(s)] + Scan(rest)
  {
    assert t[1..] == u;
  }

  // ----------------------------------------------------------- the statement

  /** A value rendered as a literal, and the fixed text behind it. */
  datatype Item = Item(value: Str, after: Str)

  /** Fixed text opens no literal and no comment. */
  predicate Quiet(text: Str) {
    forall i | 0 <= i < |text| :: text[i] != 39 && text[i] != 45
  }

  predicate Sound(items: seq<Item>) {
    forall i | 0 <= i < |items| :: Quiet(items[i].after) && items[i].after != []
  }

  function Render(items: seq<Item>, tail: Str): Str {
    if items == [] then tail else SqlString(items[0].value) + (items[0].after + Render(items[1..], tail))
  }

  function PlainTokens(text: Str): seq<Token> {
    seq(|text|, i requires 0 <= i < |text| => Plain(text[i]))
  }

  /** What the items are meant to say. */
  function Tokens(items: seq<Item>): seq<Token> {
    if items == [] then [] else [Literal(items[0].value)] + PlainTokens(items[0].after) + Tokens(items[1..])
  }

  lemma {:induction false} ScanFixed(text: Str, rest: Str)
    requires Quiet(text)
    ensures Scan(text + rest) == PlainTokens(text) + Scan(rest)
  {
    if text == [] {
      assert text + rest == rest;
    } else {
      ScanFixed(text[1..], rest);
      assert text + rest == [text[0]] + (text[1..] + rest);
      PlainStep(text[0], text[1..] + rest);
      assert PlainTokens(text) == [Plain(text[0])] + PlainTokens(text[1..]);
    }
  }

  lemma PlainStep(c: Unit, rest: Str)
    requires c != 39 && c != 45
    ensures Scan([c] + rest) == [Plain(c)] + Scan(rest)
  {
    assert ([c] + rest)[1..] == rest;
  }

  lemma ItemStep(value: Str, after: Str, rest: Str)
    requires Quiet(after) && after != []
    ensures Scan(SqlString(value) + (after + rest)) == [Literal(value)] + (PlainTokens(after) + Scan(rest))
  {
    hide Scan, SqlString, PlainTokens;
    ScanFixed(after, rest);
    ScanLiteral(value, after + rest);
  }

  /** Sound items, whatever their values hold, are read as they are meant. */
  lemma {:induction false} ItemsReadBack(items: seq<Item>, tail: Str)
    requires Sound(items)
    ensures Scan(Render(items, tail)) == Tokens(items) + Scan(tail)
  {
    hide Scan, SqlString, PlainTokens, Quiet;
    if items != [] {
      ItemsReadBack(items[1..], tail);
      ItemStep(items[0].value, items[0].after, Render(items[1..], tail));
      Regroup([Literal(items[0].value)], PlainTokens(items[0].after), Tokens(items[1..]), Scan(tail));
    }
  }

  lemma Regroup(a: seq<Token>, b: seq<Token>, c: seq<Token>, d: seq<Token>)
    ensures a + (b + (c + d)) == a + b + c + d
  {
  }

  // ------------------------------------------------------------ the template

  datatype Template = Template(
    id: Str, key: Str, version: nat, name: Str, authority: Str, jurisdiction: Str, formCode: Str, currency: Str,
    effectiveFrom: Str, effectiveTo: Maybe<Str>, definition: Str, sourceUri: Str, digest: Str, publishedAt: Str)

  const INSERT: Str := Ascii("INSERT INTO ")
  const TABLE: Str := Ascii("tax_filing_templates")
  const COLUMNS_1: Str := Ascii(" (\n  id, template_key,")
  const COLUMNS_2: Str := Ascii(" version, name,")
  const COLUMNS_3: Str := Ascii(" authority,")
  const COLUMNS_4: Str := Ascii(" jurisdiction,")
  const COLUMNS_5: Str := Ascii(" form_code,\n  ")
  const COLUMNS_6: Str := Ascii("currency_code,")
  const COLUMNS_7: Str := Ascii(" effective_from,")
  const COLUMNS_8: Str := Ascii(" effective_to,")
  const COLUMNS_9: Str := Ascii(" definition,")
  const COLUMNS_10: Str := Ascii(" source_uri,\n  ")
  const COLUMNS_11: Str := Ascii("source_digest,")
  const COLUMNS_12: Str := Ascii(" published_at\n)")
  const VALUES: Str := Ascii(" VALUES (\n  ")
  const AS_UUID: Str := Ascii("::uuid,\n  ")
  const COMMA: Str := Ascii(", ")
  const COMMA_LINE: Str := Ascii(",\n  ")
  const AS_DATE: Str := Ascii("::date, ")
  const NO_END: Str := Ascii("::date, NULL,\n  ")
  const AS_DATE_LINE: Str := Ascii("::date,\n  ")
  const AS_JSONB: Str := Ascii("::jsonb,\n  ")
  const AS_TIMESTAMP: Str := Ascii("::timestamptz\n);\n")
  const BREAKPOINT: Str := Ascii("--> statement-breakpoint")

  const HEADER_PARTS: seq<Str> :=
    [INSERT, TABLE, COLUMNS_1, COLUMNS_2, COLUMNS_3, COLUMNS_4, COLUMNS_5, COLUMNS_6, COLUMNS_7, COLUMNS_8,
     COLUMNS_9, COLUMNS_10, COLUMNS_11, COLUMNS_12, VALUES]

  function Flat(parts: seq<Str>): Str {
    if parts == [] then [] else parts[0] + Flat(parts[1..])
  }

  const HEADER: Str := Flat(HEADER_PARTS)

  /** The values of `renderTaxFilingTemplateSeedSql` with what stands between them. */
  function Items(t: Template): seq<Item> {
    [Item(t.id, AS_UUID), Item(t.key, COMMA + Digits(t.version) + COMMA), Item(t.name, COMMA_LINE),
     Item(t.authority, COMMA), Item(t.jurisdiction, COMMA), Item(t.formCode, COMMA_LINE), Item(t.currency, COMMA)]
    + (if t.effectiveTo.Some? then [Item(t.effectiveFrom, AS_DATE), Item(t.effectiveTo.value, AS_DATE_LINE)]
       else [Item(t.effectiveFrom, NO_END)])
    + [Item(t.definition, AS_JSONB), Item(t.sourceUri, COMMA_LINE), Item(t.digest, COMMA_LINE),
       Item(t.publishedAt, AS_TIMESTAMP)]
  }

  function Sql(t: Template): Str {
    HEADER + Render(Items(t), BREAKPOINT + [10])
  }

  /** The template's strings in column order. */
  function Fields(t: Template): seq<Str> {
    [t.id, t.key, t.name, t.authority, t.jurisdiction, t.formCode, t.currency, t.effectiveFrom]
    + (if t.effectiveTo.Some? then [t.effectiveTo.value] else [])
    + [t.definition, t.sourceUri, t.digest, t.publishedAt]
  }

  lemma FirstPartsQuiet()
    ensures Quiet(INSERT) && Quiet(TABLE) && Quiet(COLUMNS_1)
  {
  }

  lemma SecondPartsQuiet()
    ensures Quiet(COLUMNS_2) && Quiet(COLUMNS_3) && Quiet(COLUMNS_4)
  {
  }

  lemma MiddlePartsQuiet()
    ensures Quiet(COLUMNS_5) && Quiet(COLUMNS_6) && Quiet(COLUMNS_7)
  {
  }

  lemma FourthPartsQuiet()
    ensures Quiet(COLUMNS_8) && Quiet(COLUMNS_9) && Quiet(COLUMNS_10)
  {
  }

  lemma LastPartsQuiet()
    ensures Quiet(COLUMNS_11) && Quiet(COLUMNS_12) && Quiet(VALUES)
  {
  }

  lemma PartsQuiet()
    ensures forall i | 0 <= i < |HEADER_PARTS| :: Quiet(HEADER_PARTS[i])
  {
    hide Quiet;
    FirstPartsQuiet();
    SecondPartsQuiet();
    MiddlePartsQuiet();
    FourthPartsQuiet();
    LastPartsQuiet();
  }

  lemma {:induction false} FlatQuiet(parts: seq<Str>)
    requires forall i | 0 <= i < |parts| :: Quiet(parts[i])
    ensures Quiet(Flat(parts))
  {
    if parts != [] {
      FlatQuiet(parts[1..]);
      QuietConcat(parts[0], Flat(parts[1..]));
    }
  }

  lemma HeaderQuiet()
    ensures Quiet(HEADER)
  {
    PartsQuiet();
    FlatQuiet(HEADER_PARTS);
  }

  lemma {:induction false} FlatConcat(a: seq<Str>, b: seq<Str>)
    ensures Flat(a + b) == Flat(a) + Flat(b)
  {
    if a == [] {
      assert a + b == b;
    } else {
      FlatConcat(a[1..], b);
      assert (a + b)[1..] == a[1..] + b;
      JoinedLater(a[0], Flat(a[1..]), Flat(b));
    }
  }

  lemma JoinedLater(x: Str, y: Str, z: Str)
    ensures x + (y + z) == x + y + z
  {
  }

  /** The header is its parts one after the other, each whole and in its place. */
  lemma HeaderSpelled(i: nat)
    requires i < |HEADER_PARTS|
    ensures HEADER == Flat(HEADER_PARTS[..i]) + HEADER_PARTS[i] + Flat(HEADER_PARTS[i + 1..])
  {
    hide Ascii;
    var parts := HEADER_PARTS;
    hide HEADER_PARTS;
    FlatConcat(parts[..i], parts[i..]);
    assert parts == parts[..i] + parts[i..] && parts[i..][1..] == parts[i + 1..];
  }

  lemma QuietConcat(a: Str, b: Str)
    requires Quiet(a) && Quiet(b)
    ensures Quiet(a + b)
  {
  }

  /** Fixed text between two literals. */
  predicate Between(text: Str) {
    Quiet(text) && text != []
  }

  lemma FirstBetweens()
    ensures Between(AS_UUID) && Between(COMMA) && Between(COMMA_LINE) && Between(AS_DATE)
  {
  }

  lemma LastBetweens()
    ensures Between(NO_END) && Between(AS_DATE_LINE) && Between(AS_JSONB) && Between(AS_TIMESTAMP)
  {
  }

  lemma BetweensQuiet()
    ensures Between(AS_UUID) && Between(COMMA) && Between(COMMA_LINE) && Between(AS_DATE)
    ensures Between(NO_END) && Between(AS_DATE_LINE) && Between(AS_JSONB) && Between(AS_TIMESTAMP)
  {
    hide Between;
    FirstBetweens();
    LastBetweens();
  }

  lemma ItemsSound(t: Template)
    ensures Sound(Items(t))
  {
    BetweensQuiet();
    DigitsDenote(t.version);
    hide Digits;
    assert Quiet(Digits(t.version));
    QuietConcat(COMMA, Digits(t.version));
    QuietConcat(COMMA + Digits(t.version), COMMA);
    hide Quiet;
  }

  lemma BreakpointScans(t: Str)
    requires t == BREAKPOINT + [10]
    ensures Scan(t) == [Plain(10)]
  {
    assert t[0] == 45 && t[1] == 45;
    var u := t[2..];
    assert |u| == 23 && u[22] == 10;
    assert forall i | 0 <= i < 22 :: u[i] != 10;
    CommentEnds(u, 22);
    assert [10][1..] == [];
  }

  lemma {:induction false} CommentEnds(u: Str, k: nat)
    requires |u| == k + 1 && u[k] == 10 && forall i | 0 <= i < k :: u[i] != 10
    ensures AfterComment(u) == [10]
  {
    if k > 0 {
      CommentEnds(u[1..], k - 1);
    }
  }

  /** The statement reads as the fixed header, the template's values each as one literal
      with fixed text between them, and a closing line feed: for every value of every
      string. */
  lemma StatementReadsBack(t: Template)
    ensures Scan(Sql(t)) == PlainTokens(HEADER) + (Tokens(Items(t)) + [Plain(10)])
  {
    hide Scan, Items;
    HeaderQuiet();
    ItemsSound(t);
    BreakpointScans(BREAKPOINT + [10]);
    ItemsReadBack(Items(t), BREAKPOINT + [10]);
    ScanFixed(HEADER, Render(Items(t), BREAKPOINT + [10]));
  }

  // ------------------------------------------------- skeleton and values

  function Literals(tokens: seq<Token>): seq<Str> {
    if tokens == [] then []
    else (if tokens[0].Literal? then [tokens[0].s] else []) + Literals(tokens[1..])
  }

  /** The tokens with every literal emptied. */
  function Skeleton(tokens: seq<Token>): seq<Token> {
    seq(|tokens|, i requires 0 <= i < |tokens| => if tokens[i].Literal? then Literal([]) else tokens[i])
  }

  lemma LiteralsRegroup(a: seq<Str>, b: seq<Str>, c: seq<Str>)
    ensures a + (b + c) == a + b + c
  {
  }

  lemma {:induction false} LiteralsConcat(a: seq<Token>, b: seq<Token>)
    ensures Literals(a + b) == Literals(a) + Literals(b)
  {
    if a == [] {
      assert a + b == b;
    } else {
      LiteralsConcat(a[1..], b);
      assert (a + b)[1..] == a[1..] + b;
      LiteralsRegroup(if a[0].Literal? then [a[0].s] else [], Literals(a[1..]), Literals(b));
    }
  }

  lemma {:induction false} NoLiterals(text: Str)
    ensures Literals(PlainTokens(text)) == []
  {
    if text != [] {
      NoLiterals(text[1..]);
      assert PlainTokens(text)[1..] == PlainTokens(text[1..]);
    }
  }

  function Values(items: seq<Item>): seq<Str> {
    seq(|items|, i requires 0 <= i < |items| => items[i].value)
  }

  lemma {:induction false} LiteralsAreValues(items: seq<Item>)
    ensures Literals(Tokens(items)) == Values(items)
  {
    if items != [] {
      LiteralsAreValues(items[1..]);
      var first, plain := [Literal(items[0].value)], PlainTokens(items[0].after);
      LiteralsConcat(first + plain, Tokens(items[1..]));
      LiteralsConcat(first, plain);
      NoLiterals(items[0].after);
      assert first[1..] == [];
      assert Values(items) == [items[0].value] + Values(items[1..]);
    }
  }

  /** The literals of the statement are exactly the template's strings, in order. */
  lemma StatementCarriesFields(t: Template)
    ensures Literals(Scan(Sql(t))) == Fields(t)
  {
    hide Scan, Sql, Tokens, Literals;
    StatementReadsBack(t);
    LiteralsConcat(PlainTokens(HEADER), Tokens(Items(t)) + [Plain(10)]);
    LiteralsConcat(Tokens(Items(t)), [Plain(10)]);
    NoLiterals(HEADER);
    NoLiterals([10]);
    assert PlainTokens([10]) == [Plain(10)];
    LiteralsAreValues(Items(t));
    assert Values(Items(t)) == Fields(t);
  }

  lemma {:induction false} SkeletonOfItems(a: seq<Item>, b: seq<Item>)
    requires |a| == |b| && forall i | 0 <= i < |a| :: a[i].after == b[i].after
    ensures Skeleton(Tokens(a)) == Skeleton(Tokens(b))
  {
    if a != [] {
      SkeletonOfItems(a[1..], b[1..]);
      SkeletonConcat([Literal(a[0].value)] + PlainTokens(a[0].after), Tokens(a[1..]));
      SkeletonConcat([Literal(b[0].value)] + PlainTokens(b[0].after), Tokens(b[1..]));
      assert Skeleton([Literal(a[0].value)] + PlainTokens(a[0].after))
          == Skeleton([Literal(b[0].value)] + PlainTokens(b[0].after));
    }
  }

  lemma SkeletonConcat(a: seq<Token>, b: seq<Token>)
    ensures Skeleton(a + b) == Skeleton(a) + Skeleton(b)
  {
  }

  /** Whatever the strings hold, the statement has one skeleton: it depends only on the
      version number and on whether there is an end date. */
  lemma OneSkeleton(t: Template, u: Template)
    requires t.version == u.version && (t.effectiveTo.Some? <==> u.effectiveTo.Some?)
    ensures Skeleton(Scan(Sql(t))) == Skeleton(Scan(Sql(u)))
  {
    hide Scan, Sql, Tokens, Skeleton;
    StatementReadsBack(t);
    StatementReadsBack(u);
    SkeletonConcat(PlainTokens(HEADER), Tokens(Items(t)) + [Plain(10)]);
    SkeletonConcat(PlainTokens(HEADER), Tokens(Items(u)) + [Plain(10)]);
    SkeletonConcat(Tokens(Items(t)), [Plain(10)]);
    SkeletonConcat(Tokens(Items(u)), [Plain(10)]);
    SkeletonOfItems(Items(t), Items(u));
  }
}
