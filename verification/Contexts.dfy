/** The `|`-joined additional data that binds each sealed value to its place
    (src/security/organization-encryption.ts, src/security/identity-secret.ts). */
module Contexts {
  import opened Text
  import opened Utf8

  const SPACE_NAME: Str := Ascii("business-finlynq|")

  datatype Context =
    | OrganizationKey(organization: Str, version: int)
    | Field(organization: Str, table: Str, column: Str, record: Str, version: int)
    | Identity(email: bool, user: Str)
    | Auth(purpose: Purpose, record: Str)

  datatype Purpose = EmailPayload | TotpSecret | OidcLogin | OidcSignup

  function PurposeText(p: Purpose): Str {
    match p
    case EmailPayload => Ascii("email-payload")
    case TotpSecret => Ascii("totp-secret")
    case OidcLogin => Ascii("oidc-login")
    case OidcSignup => Ascii("oidc-signup")
  }

  function FieldText(email: bool): Str {
    if email then Ascii("email") else Ascii("display-name")
  }

  function Four(a: Str, b: Str, c: Str, d: Str): Str {
    a + [124] + b + [124] + c + [124] + d
  }

  /** What follows `business-finlynq|`. */
  function Tail(c: Context): Str {
    match c
    case OrganizationKey(o, v) => Ascii("org-key|") + (o + [124] + Decimal(v))
    case Field(o, t, n, r, v) => Ascii("field|") + (Four(o, t, n, r) + [124] + Decimal(v))
    case Identity(email, u) => Ascii("identity|") + (FieldText(email) + [124] + u)
    case Auth(p, r) => Ascii("auth|") + (PurposeText(p) + [124] + r)
  }

  function AadText(c: Context): Str {
    SPACE_NAME + Tail(c)
  }

  function Aad(c: Context): Bytes {
    Encode(AadText(c))
  }

  predicate WellFormed(c: Context) {
    match c
    case OrganizationKey(o, v) => Paired(o)
    case Field(o, t, n, r, v) => Paired(o) && Paired(t) && Paired(n) && Paired(r)
    case Identity(email, u) => Paired(u)
    case Auth(p, r) => Paired(r)
  }

  /** No part of a field context holds the separator. */
  predicate NoBar(c: Context) {
    c.Field? ==> 124 !in c.organization && 124 !in c.table && 124 !in c.column && 124 !in c.record
  }

  predicate SameFamily(a: Context, b: Context) {
    (a.OrganizationKey? <==> b.OrganizationKey?) && (a.Field? <==> b.Field?) && (a.Identity? <==> b.Identity?)
  }

  // ---------------------------------------------------------------- families

  lemma FamilyLetter(c: Context)
    ensures |Aad(c)| > 17
    ensures Aad(c)[17] == if c.OrganizationKey? then 111 else if c.Field? then 102 else if c.Identity? then 105 else 97
  {
    match c
    case OrganizationKey(o, v) => LetterAt(c, Ascii("org-key|"), o + [124] + Decimal(v));
    case Field(o, t, n, r, v) => LetterAt(c, Ascii("field|"), Four(o, t, n, r) + [124] + Decimal(v));
    case Identity(email, u) => LetterAt(c, Ascii("identity|"), FieldText(email) + [124] + u);
    case Auth(p, r) => LetterAt(c, Ascii("auth|"), PurposeText(p) + [124] + r);
  }

  lemma LetterAt(c: Context, family: Str, rest: Str)
    requires Tail(c) == family + rest && family != [] && forall i | 0 <= i < |family| :: family[i] < 0x80
    ensures |Aad(c)| > 17 && Aad(c)[17] as int == family[0] as int
  {
    hide Tail, Encode;
    EncodeAscii(SPACE_NAME + family, rest);
    assert AadText(c) == SPACE_NAME + family + rest;
  }

  /** Whatever the parts hold, additional data of two families is never the same. */
  lemma FamiliesNeverOverlap(a: Context, b: Context)
    requires Aad(a) == Aad(b)
    ensures SameFamily(a, b)
  {
    hide Aad;
    FamilyLetter(a);
    FamilyLetter(b);
  }

  // -------------------------------------------------------------- uniqueness

  lemma PairedBar(a: Str, b: Str)
    requires Paired(a) && Paired(b)
    ensures Paired(a + [124] + b)
  {
    PairedPlain([124]);
    PairedConcat(a, [124]);
    PairedConcat(a + [124], b);
  }

  lemma PairedAroundBar(a: Str, b: Str)
    requires Paired(a + [124] + b)
    ensures Paired(a) && Paired(b)
  {
    assert a + [124] + b == a + ([124] + b);
    PairedParts(a, [124] + b);
    assert ([124] + b)[1..] == b;
  }

  predicate PlainAscii(t: Str) {
    forall i | 0 <= i < |t| :: t[i] < 0x80
  }

  lemma PlainPaired(t: Str)
    requires PlainAscii(t)
    ensures Paired(t)
  {
    PairedPlain(t);
  }

  lemma FamiliesPlain()
    ensures PlainAscii(Ascii("org-key|")) && PlainAscii(Ascii("field|"))
    ensures PlainAscii(Ascii("identity|")) && PlainAscii(Ascii("auth|"))
  {
  }

  lemma FieldTextPlain(email: bool)
    ensures PlainAscii(FieldText(email))
  {
  }

  lemma PurposeTextPlain(p: Purpose)
    ensures PlainAscii(PurposeText(p))
  {
  }

  lemma FourPaired(o: Str, t: Str, n: Str, r: Str)
    requires Paired(o) && Paired(t) && Paired(n) && Paired(r)
    ensures Paired(Four(o, t, n, r))
  {
    hide Paired;
    PairedBar(o, t);
    PairedBar(o + [124] + t, n);
    PairedBar(o + [124] + t + [124] + n, r);
  }

  lemma TailPaired(c: Context)
    requires WellFormed(c)
    ensures Paired(AadText(c))
  {
    hide Paired, PlainAscii, Decimal, Four, FieldText, PurposeText, Ascii, SPACE_NAME;
    FamiliesPlain();
    match c
    case OrganizationKey(o, v) =>
      DecimalPaired(v);
      PairedBar(o, Decimal(v));
      PlainFirst(Ascii("org-key|"), o + [124] + Decimal(v));
    case Field(o, t, n, r, v) =>
      DecimalPaired(v);
      FourPaired(o, t, n, r);
      PairedBar(Four(o, t, n, r), Decimal(v));
      PlainFirst(Ascii("field|"), Four(o, t, n, r) + [124] + Decimal(v));
    case Identity(email, u) =>
      FieldTextPlain(email);
      PlainPaired(FieldText(email));
      PairedBar(FieldText(email), u);
      PlainFirst(Ascii("identity|"), FieldText(email) + [124] + u);
    case Auth(p, r) =>
      PurposeTextPlain(p);
      PlainPaired(PurposeText(p));
      PairedBar(PurposeText(p), r);
      PlainFirst(Ascii("auth|"), PurposeText(p) + [124] + r);
  }

  lemma DecimalPaired(v: int)
    ensures Paired(Decimal(v))
  {
    DecimalUnits(v);
    PairedPlain(Decimal(v));
  }

  lemma SpaceNamePlain()
    ensures PlainAscii(SPACE_NAME)
  {
  }

  lemma PlainFirst(family: Str, rest: Str)
    requires Paired(rest) && PlainAscii(family)
    ensures Paired(SPACE_NAME + (family + rest))
  {
    SpaceNamePlain();
    hide Paired, PlainAscii, SPACE_NAME;
    PlainPaired(family);
    PairedConcat(family, rest);
    PlainPaired(SPACE_NAME);
    PairedConcat(SPACE_NAME, family + rest);
  }

  /** For well-formed text, equal bytes are equal texts after the family name. */
  lemma SameTail(a: Context, b: Context)
    requires WellFormed(a) && WellFormed(b) && Aad(a) == Aad(b)
    ensures Tail(a) == Tail(b)
  {
    hide Tail;
    TailPaired(a);
    TailPaired(b);
    EncodeInjective(AadText(a), AadText(b));
    assert AadText(a)[|SPACE_NAME|..] == Tail(a) && AadText(b)[|SPACE_NAME|..] == Tail(b);
  }

  lemma DecimalNoBar(v: int)
    ensures 124 !in Decimal(v)
  {
    DecimalUnits(v);
  }

  /** Occurrences of the separator. */
  function Bars(s: Str): nat {
    if s == [] then 0 else (if s[0] == 124 then 1 else 0) + Bars(s[1..])
  }

  lemma {:induction false} BarsAround(a: Str, b: Str)
    ensures Bars(a + [124] + b) == Bars(a) + 1 + Bars(b)
  {
    if a == [] {
      assert a + [124] + b == [124] + b && ([124] + b)[1..] == b;
    } else {
      BarsAround(a[1..], b);
      assert (a + [124] + b)[1..] == a[1..] + [124] + b;
    }
  }

  lemma {:induction false} BarsZero(s: Str)
    ensures Bars(s) == 0 <==> 124 !in s
  {
    if s != [] {
      BarsZero(s[1..]);
      assert s == [s[0]] + s[1..];
    }
  }

  lemma BarsFour(a: Str, b: Str, c: Str, d: Str)
    ensures Bars(Four(a, b, c, d)) == 3 <==> 124 !in a && 124 !in b && 124 !in c && 124 !in d
  {
    BarsAround(a, b);
    BarsAround(a + [124] + b, c);
    BarsAround(a + [124] + b + [124] + c, d);
    BarsZero(a);
    BarsZero(b);
    BarsZero(c);
    BarsZero(d);
  }

  lemma FourUnique(a: Str, b: Str, c: Str, d: Str, a1: Str, b1: Str, c1: Str, d1: Str)
    requires Four(a, b, c, d) == Four(a1, b1, c1, d1)
    requires 124 !in a && 124 !in b && 124 !in c && 124 !in d
    ensures a == a1 && b == b1 && c == c1 && d == d1
  {
    BarsFour(a, b, c, d);
    BarsFour(a1, b1, c1, d1);
    LastSeparatorCut(a + [124] + b + [124] + c, d, a1 + [124] + b1 + [124] + c1, d1, 124);
    LastSeparatorCut(a + [124] + b, c, a1 + [124] + b1, c1, 124);
    LastSeparatorCut(a, b, a1, b1, 124);
  }

  lemma PurposesDiffer(p: Purpose, q: Purpose)
    ensures PurposeText(p) == PurposeText(q) <==> p == q
    ensures 124 !in PurposeText(p)
  {
    assert PurposeText(EmailPayload)[0] == 101;
    assert PurposeText(TotpSecret)[0] == 116;
    assert PurposeText(OidcLogin)[0] == 111 && PurposeText(OidcSignup)[0] == 111;
    assert |PurposeText(OidcLogin)| == 10 && |PurposeText(OidcSignup)| == 11;
  }

  lemma FieldsDiffer(e: bool, f: bool)
    ensures FieldText(e) == FieldText(f) <==> e == f
    ensures 124 !in FieldText(e)
  {
    assert |FieldText(true)| == 5 && |FieldText(false)| == 12;
  }

  /** Additional data of a context without `|` in its field parts belongs to no other
      context of any family. */
  lemma AadDeterminesContext(a: Context, b: Context)
    requires WellFormed(a) && WellFormed(b) && NoBar(a)
    requires Aad(a) == Aad(b)
    ensures a == b
  {
    FamiliesNeverOverlap(a, b);
    SameTail(a, b);
    match a
    case OrganizationKey(o, v) =>
      SameOrganizationKey(o, v, b.organization, b.version);
    case Field(o, t, n, r, v) =>
      SameField(a, b);
    case Identity(email, u) =>
      SameAfter(Ascii("identity|"), FieldText(email) + [124] + u, FieldText(b.email) + [124] + b.user);
      FieldsDiffer(email, b.email);
      FieldsDiffer(b.email, email);
      FirstSeparatorCut(FieldText(email), u, FieldText(b.email), b.user, 124);
    case Auth(p, r) =>
      SameAfter(Ascii("auth|"), PurposeText(p) + [124] + r, PurposeText(b.purpose) + [124] + b.record);
      PurposesDiffer(p, b.purpose);
      PurposesDiffer(b.purpose, p);
      FirstSeparatorCut(PurposeText(p), r, PurposeText(b.purpose), b.record, 124);
  }

  lemma SameOrganizationKey(o: Str, v: int, p: Str, w: int)
    requires Tail(OrganizationKey(o, v)) == Tail(OrganizationKey(p, w))
    ensures o == p && v == w
  {
    SameAfter(Ascii("org-key|"), o + [124] + Decimal(v), p + [124] + Decimal(w));
    DecimalNoBar(v);
    DecimalNoBar(w);
    LastSeparatorCut(o, Decimal(v), p, Decimal(w), 124);
    DecimalInjective(v, w);
  }

  lemma SameField(a: Context, b: Context)
    requires a.Field? && b.Field? && NoBar(a) && Tail(a) == Tail(b)
    ensures a == b
  {
    var f, g := Four(a.organization, a.table, a.column, a.record), Four(b.organization, b.table, b.column, b.record);
    SameAfter(Ascii("field|"), f + [124] + Decimal(a.version), g + [124] + Decimal(b.version));
    DecimalNoBar(a.version);
    DecimalNoBar(b.version);
    LastSeparatorCut(f, Decimal(a.version), g, Decimal(b.version), 124);
    DecimalInjective(a.version, b.version);
    FourUnique(a.organization, a.table, a.column, a.record, b.organization, b.table, b.column, b.record);
  }

  /** No other well-formed context has this one's additional data. */
  ghost predicate Unique(c: Context) {
    forall d | WellFormed(d) && Aad(d) == Aad(c) :: d == c
  }

  /** The two sides of a `|`. */
  lemma CutAtBar(s: Str) returns (x: Str, y: Str)
    requires 124 in s && Paired(s)
    ensures s == x + [124] + y && Paired(x) && Paired(y)
  {
    var k :| 0 <= k < |s| && s[k] == 124;
    x, y := s[..k], s[k + 1..];
    assert s == x + [124] + y;
    PairedAroundBar(x, y);
  }

  lemma SameFourSameAad(a: Context, b: Context)
    requires a.Field? && b.Field? && a.version == b.version
    requires Four(a.organization, a.table, a.column, a.record) == Four(b.organization, b.table, b.column, b.record)
    ensures Aad(a) == Aad(b)
  {
  }

  lemma FourAssoc(x: Str, y: Str, t: Str, n: Str, r: Str)
    ensures Four(x, y, t, n + [124] + r) == Four(x + [124] + y, t, n, r)
    ensures Four(x, y, t + [124] + n, r) == Four(x + [124] + y, t, n, r)
    ensures Four(x, y + [124] + t, n, r) == Four(x + [124] + y, t, n, r)
  {
  }

  /** A context with a `|` in some part shares its additional data with another. */
  lemma BarShifts(c: Context) returns (d: Context)
    requires WellFormed(c) && !NoBar(c)
    ensures WellFormed(d) && d != c && Aad(d) == Aad(c)
  {
    hide Four, Aad, Paired;
    var o, t, n, r, v := c.organization, c.table, c.column, c.record, c.version;
    if 124 in o {
      var x, y := CutAtBar(o);
      PairedBar(n, r);
      FourAssoc(x, y, t, n, r);
      d := Field(x, y, t, n + [124] + r, v);
      assert |d.organization| < |o|;
    } else if 124 in t {
      var x, y := CutAtBar(t);
      PairedBar(o, x);
      FourAssoc(o, x, y, n, r);
      d := Field(o + [124] + x, y, n, r, v);
      assert |d.organization| > |o|;
    } else if 124 in n {
      var x, y := CutAtBar(n);
      PairedBar(t, x);
      FourAssoc(o, t, x, y, r);
      d := Field(o, t + [124] + x, y, r, v);
      assert |d.table| > |t|;
    } else {
      var x, y := CutAtBar(r);
      PairedBar(n, x);
      FourAssoc(o, t, n, x, y);
      d := Field(o, t, n + [124] + x, y, v);
      assert |d.column| > |n|;
    }
    SameFourSameAad(c, d);
  }

  /** Exactly: a context is bound uniquely if and only if its field parts hold no `|`. */
  lemma UniqueExactlyWithoutBar(c: Context)
    requires WellFormed(c)
    ensures Unique(c) <==> NoBar(c)
  {
    if NoBar(c) {
      forall d | WellFormed(d) && Aad(d) == Aad(c) ensures d == c {
        AadDeterminesContext(c, d);
      }
    } else {
      var d := BarShifts(c);
    }
  }

  // ------------------------------------------------------------------ layout

  /** The identity field a name stands for: whether it is the email. */
  function ReadFieldName(t: Str): Maybe<bool> {
    if t == Ascii("email") then Some(true) else if t == Ascii("display-name") then Some(false) else None
  }

  function ReadPurpose(t: Str): Maybe<Purpose> {
    if t == Ascii("email-payload") then Some(EmailPayload)
    else if t == Ascii("totp-secret") then Some(TotpSecret)
    else if t == Ascii("oidc-login") then Some(OidcLogin)
    else if t == Ascii("oidc-signup") then Some(OidcSignup)
    else None
  }

  /** The parts of a context's additional data, in order, read by name. */
  predicate Lists(parts: seq<Str>, c: Context) {
    && |parts| >= 4 && parts[0] == Ascii("business-finlynq")
    && match c
       case OrganizationKey(o, v) => parts[1] == Ascii("org-key") && parts[2..] == [o, Decimal(v)]
       case Field(o, t, n, r, v) => parts[1] == Ascii("field") && parts[2..] == [o, t, n, r, Decimal(v)]
       case Identity(email, u) =>
         parts[1] == Ascii("identity") && ReadFieldName(parts[2]) == Some(email) && parts[3..] == [u]
       case Auth(p, r) => parts[1] == Ascii("auth") && ReadPurpose(parts[2]) == Some(p) && parts[3..] == [r]
  }

  /** No part of the context holds the separator. */
  predicate PartsPlain(c: Context) {
    match c
    case OrganizationKey(o, v) => 124 !in o
    case Field(o, t, n, r, v) => NoBar(c)
    case Identity(email, u) => 124 !in u
    case Auth(p, r) => 124 !in r
  }

  function Parts(c: Context): seq<Str> {
    [Ascii("business-finlynq")]
    + match c
      case OrganizationKey(o, v) => [Ascii("org-key"), o, Decimal(v)]
      case Field(o, t, n, r, v) => [Ascii("field"), o, t, n, r, Decimal(v)]
      case Identity(email, u) => [Ascii("identity"), FieldText(email), u]
      case Auth(p, r) => [Ascii("auth"), PurposeText(p), r]
  }

  lemma NamesReadBack(email: bool, p: Purpose)
    ensures ReadFieldName(FieldText(email)) == Some(email) && ReadPurpose(PurposeText(p)) == Some(p)
  {
    assert |Ascii("email")| == 5 && |Ascii("display-name")| == 12;
    assert |Ascii("email-payload")| == 13 && |Ascii("totp-secret")| == 11 && |Ascii("oidc-login")| == 10;
    assert |Ascii("oidc-signup")| == 11 && Ascii("oidc-signup")[0] != Ascii("totp-secret")[0];
  }

  lemma FamiliesNoBar()
    ensures 124 !in Ascii("business-finlynq") && 124 !in Ascii("org-key") && 124 !in Ascii("field")
    ensures 124 !in Ascii("identity") && 124 !in Ascii("auth")
    ensures SPACE_NAME == Ascii("business-finlynq") + [124] && Ascii("org-key|") == Ascii("org-key") + [124]
    ensures Ascii("field|") == Ascii("field") + [124] && Ascii("identity|") == Ascii("identity") + [124]
    ensures Ascii("auth|") == Ascii("auth") + [124]
  {
  }

  lemma TextsNoBar(email: bool, p: Purpose)
    ensures 124 !in FieldText(email) && 124 !in PurposeText(p)
  {
  }

  lemma JoinBar(a: Str, rest: seq<Str>)
    requires rest != []
    ensures Join([a] + rest, 124) == a + [124] + Join(rest, 124)
  {
    assert ([a] + rest)[1..] == rest;
  }

  lemma JoinTwo(a: Str, b: Str)
    ensures Join([a, b], 124) == a + [124] + b
  {
    JoinBar(a, [b]);
    assert [a, b] == [a] + [b];
  }

  lemma JoinFive(a: Str, b: Str, c: Str, d: Str, e: Str)
    ensures Join([a, b, c, d, e], 124) == Four(a, b, c, d) + [124] + e
  {
    JoinTwo(d, e);
    JoinBar(c, [d, e]);
    JoinBar(b, [c, d, e]);
    JoinBar(a, [b, c, d, e]);
    assert [a, b, c, d, e] == [a] + [b, c, d, e] && [b, c, d, e] == [b] + [c, d, e] && [c, d, e] == [c] + [d, e];
  }

  lemma AadJoined(c: Context)
    ensures AadText(c) == Join(Parts(c), 124)
  {
    FamiliesNoBar();
    hide Ascii, Join, Decimal, FieldText, PurposeText, SPACE_NAME, Four;
    var rest := Parts(c)[1..];
    var tail := rest[1..];
    JoinBar(rest[0], tail);
    JoinBar(Ascii("business-finlynq"), rest);
    assert rest == [rest[0]] + tail && Parts(c) == [Ascii("business-finlynq")] + rest;
    match c
    case OrganizationKey(o, v) =>
      assert tail == [o, Decimal(v)];
      JoinTwo(o, Decimal(v));
    case Field(o, t, n, r, v) =>
      assert tail == [o, t, n, r, Decimal(v)];
      JoinFive(o, t, n, r, Decimal(v));
    case Identity(email, u) =>
      assert tail == [FieldText(email), u];
      JoinTwo(FieldText(email), u);
    case Auth(p, r) =>
      assert tail == [PurposeText(p), r];
      JoinTwo(PurposeText(p), r);
  }

  /** Split at its separators, the data of a context lists the application, the family and
      the parts of the context under their own names and in their own order. */
  lemma AadListsParts(c: Context)
    requires PartsPlain(c)
    ensures Lists(Split(AadText(c), 124), c)
  {
    AadJoined(c);
    FamiliesNoBar();
    PartsSplit(c);
    NamesReadBack(c.Identity? && c.email, if c.Auth? then c.purpose else EmailPayload);
    hide Ascii, Split, Join, Decimal, FieldText, PurposeText, ReadFieldName, ReadPurpose;
  }

  lemma PartsSplit(c: Context)
    requires PartsPlain(c)
    ensures Split(Join(Parts(c), 124), 124) == Parts(c)
  {
    FamiliesNoBar();
    hide Ascii, Split, Join, Decimal, FieldText, PurposeText;
    match c {
      case OrganizationKey(o, v) => DecimalNoBar(v);
      case Field(o, t, n, r, v) => DecimalNoBar(v);
      case Identity(email, u) => TextsNoBar(email, EmailPayload);
      case Auth(p, r) => TextsNoBar(true, p);
    }
    SplitJoin(Parts(c), 124);
  }
}
