/** Every printed JSON text reads back to the value it came from. */
module JsonRoundTrip {
  import opened Text
  import opened Json
  import opened NumberRoundTrip

  lemma HexDigitReadsBack(d: nat)
    requires d < 16
    ensures IsHex(HexDigit(d)) && HexValue(HexDigit(d)) == d
  {
  }

  lemma HexSum(c: int)
    ensures 4096 * (c / 4096) + 256 * (c / 256 % 16) + 16 * (c / 16 % 16) + c % 16 == c
  {
    assert c == 16 * (c / 16) + c % 16;
    assert c / 16 == 16 * (c / 256) + c / 16 % 16;
    assert c / 256 == 16 * (c / 4096) + c / 256 % 16;
  }

  lemma HexReadsBack(c: Unit)
    ensures var h := HexFour(c as int); ReadHex(h[0], h[1], h[2], h[3]) == Unit(c, 6)
  {
    var n := c as int;
    var p, q, r, s := n / 4096, n / 256 % 16, n / 16 % 16, n % 16;
    HexDigitReadsBack(p);
    HexDigitReadsBack(q);
    HexDigitReadsBack(r);
    HexDigitReadsBack(s);
    HexSum(n);
  }

  lemma UnicodeEscapeReadsBack(h: Str, u: Str, c: Unit)
    requires |h| == 4 && ReadHex(h[0], h[1], h[2], h[3]) == Unit(c, 6)
    ensures ReadUnit([92, 117] + h + u) == Unit(c, 6)
  {
    var t := [92, 117] + h + u;
    assert t[0] == 92 && t[1] == 117;
    assert t[2] == h[0] && t[3] == h[1] && t[4] == h[2] && t[5] == h[3];
  }

  lemma EscapeReadsBack(c: Unit, u: Str)
    ensures ReadUnit(Escape(c) + u) == Unit(c, |Escape(c)|)
  {
    if Escape(c) == UnicodeEscape(c) {
      HexReadsBack(c);
      UnicodeEscapeReadsBack(HexFour(c as int), u, c);
    } else {
      var t := Escape(c) + u;
      assert t[0] == Escape(c)[0];
      assert |Escape(c)| > 1 ==> t[1] == Escape(c)[1];
    }
  }

  lemma Assoc(a: Str, b: Str, c: Str)
    ensures a + b + c == a + (b + c)
  {
  }

  /** One spelled unit in front of a string that reads back. */
  lemma BodyStep(spelled: Str, c: Unit, u: Str, s: Str, rest: Str)
    requires spelled != [] && spelled[0] != 34
    requires ReadUnit(spelled + u) == Unit(c, |spelled|)
    requires ParseBody(u) == Done(s, rest)
    ensures ParseBody(spelled + u) == Done([c] + s, rest)
  {
    assert (spelled + u)[|spelled|..] == u;
  }

  lemma PairStep(a: Unit, b: Unit, u: Str, s: Str, rest: Str)
    requires IsLead(a) && IsTrail(b)
    requires ParseBody(u) == Done(s, rest)
    ensures ParseBody([a, b] + u) == Done([a, b] + s, rest)
  {
    PairAssoc(a, b, u);
    PairAssoc(a, b, s);
    BodyStep([b], b, u, s, rest);
    BodyStep([a], a, [b] + u, [b] + s, rest);
  }

  lemma PairAssoc(a: Unit, b: Unit, u: Str)
    ensures [a, b] + u == [a] + ([b] + u)
  {
  }

  lemma EscapeStep(c: Unit, u: Str, s: Str, rest: Str)
    requires ParseBody(u) == Done(s, rest)
    ensures ParseBody(Escape(c) + u) == Done([c] + s, rest)
  {
    EscapeReadsBack(c, u);
    BodyStep(Escape(c), c, u, s, rest);
  }

  lemma {:induction false} BodyReadsBack(s: Str, tail: Str, rest: Str)
    requires ParseBody(tail) == Done([], rest)
    ensures ParseBody(Body(s) + tail) == Done(s, rest)
  {
    if s == [] {
      assert Body(s) + tail == tail;
    } else if |s| > 1 && IsLead(s[0]) && IsTrail(s[1]) {
      Cut(s, 2);
      Assoc([s[0], s[1]], Body(s[2..]), tail);
      BodyReadsBack(s[2..], tail, rest);
      PairStep(s[0], s[1], Body(s[2..]) + tail, s[2..], rest);
    } else {
      Cut(s, 1);
      Assoc(Escape(s[0]), Body(s[1..]), tail);
      BodyReadsBack(s[1..], tail, rest);
      EscapeStep(s[0], Body(s[1..]) + tail, s[1..], rest);
    }
  }

  lemma Cut(s: Str, k: nat)
    requires 1 <= k <= 2 && k <= |s|
    ensures k == 1 ==> [s[0]] + s[1..] == s
    ensures k == 2 ==> s[..2] == [s[0], s[1]] && [s[0], s[1]] + s[2..] == s
  {
  }

  /** A quoted string, past its opening quote. */
  lemma QuoteReadsBack(s: Str, rest: Str)
    ensures Quote(s) + rest != [] && (Quote(s) + rest)[0] == 34
    ensures ParseBody((Quote(s) + rest)[1..]) == Done(s, rest)
  {
    var t := [34] + rest;
    assert t[1..] == rest;
    BodyReadsBack(s, t, rest);
    OpeningQuote(Body(s), rest);
  }

  lemma OpeningQuote(b: Str, rest: Str)
    ensures ([34] + b + [34] + rest)[0] == 34
    ensures ([34] + b + [34] + rest)[1..] == b + ([34] + rest)
  {
  }

  /** A printed value starts with a unit that is neither space nor a closing bracket. */
  lemma PrintStarts(j: Json)
    ensures Print(j) != [] && !IsSpace(Print(j)[0]) && Print(j)[0] !in {93, 125, 44, 58}
  {
    if j.JNum? {
      DecimalUnits(j.n);
    } else if j.JFloat? {
      FloatReadsBack(j.x, []);
    }
  }

  lemma LiteralReadsBack(j: Json, rest: Str)
    requires j.JNull? || j.JBool?
    ensures ParseValue(Print(j) + rest) == Done(j, rest)
  {
    var w := Print(j);
    var t := w + rest;
    assert t[|w|..] == rest && w <= t;
    assert t[0] == w[0] && Skip(t) == t;
  }

  lemma NumberReadsBack(n: int, rest: Str)
    requires EndsNumber(rest)
    ensures ParseValue(Decimal(n) + rest) == Done(JNum(n), rest)
  {
    var m: nat := if n < 0 then -n else n;
    DigitsDenote(m);
    NatReadsBack(m, n < 0, rest);
    NumberStep(n < 0, Digits(m), JNum(n), rest);
  }

  lemma FloatValueReadsBack(x: Float, rest: Str)
    requires EndsNumber(rest)
    ensures ParseValue(PrintFloat(x) + rest) == Done(JFloat(x), rest)
  {
    hide PrintFloat;
    FloatReadsBack(x, rest);
    var t := PrintFloat(x);
    NumberStep(x.negative, if x.negative then t[1..] else t, JFloat(x), rest);
    assert x.negative ==> [45] + t[1..] == t;
  }

  lemma NumberStep(negative: bool, u: Str, j: Json, rest: Str)
    requires u != [] && IsDigit(u[0]) && ParseNumber(u + rest, negative) == Done(j, rest)
    ensures ParseValue((if negative then [45] + u else u) + rest) == Done(j, rest)
  {
    hide ParseNumber;
    if negative {
      assert ([45] + u + rest)[1..] == u + rest;
      MinusStep([45] + u + rest);
    } else {
      DigitStep(u + rest);
    }
  }

  lemma MinusStep(t: Str)
    requires t != [] && t[0] == 45
    ensures ParseValue(t) == ParseNumber(t[1..], true)
  {
    hide ParseNumber, ParseBody, ParseItems, ParseFields, ParseLiteral;
    assert Skip(t) == t;
  }

  lemma DigitStep(t: Str)
    requires t != [] && IsDigit(t[0])
    ensures ParseValue(t) == ParseNumber(t, false)
  {
    hide ParseNumber, ParseBody, ParseItems, ParseFields, ParseLiteral;
    assert Skip(t) == t;
  }

  lemma StringReadsBack(s: Str, rest: Str)
    ensures ParseValue(Quote(s) + rest) == Done(JStr(s), rest)
  {
    QuoteReadsBack(s, rest);
    StringStep(Quote(s) + rest, s, rest);
  }

  lemma StringStep(t: Str, s: Str, rest: Str)
    requires t != [] && t[0] == 34 && ParseBody(t[1..]) == Done(s, rest)
    ensures ParseValue(t) == Done(JStr(s), rest)
  {
  }

  lemma {:induction false} ValueReadsBack(j: Json, rest: Str)
    requires EndsNumber(rest)
    ensures ParseValue(Print(j) + rest) == Done(j, rest)
    decreases j, 0
  {
    match j
    case JNull => LiteralReadsBack(j, rest);
    case JBool(b) => LiteralReadsBack(j, rest);
    case JNum(n) => NumberReadsBack(n, rest);
    case JFloat(x) => FloatValueReadsBack(x, rest);
    case JStr(s) => StringReadsBack(s, rest);
    case JArr(items) =>
      var u := PrintItems(items) + ([93] + rest);
      if items != [] {
        ItemsReadBack(items, rest);
        PrintItemsStarts(items);
      }
      BracketAssoc(91, PrintItems(items), 93, rest);
      ArrayStep([91] + u, u, items, rest);
    case JObj(fields) =>
      var u := PrintFields(fields) + ([125] + rest);
      if fields != [] {
        FieldsReadBack(fields, rest);
        PrintFieldsStarts(fields);
      }
      BracketAssoc(123, PrintFields(fields), 125, rest);
      ObjectStep([123] + u, u, fields, rest);
  }

  lemma BracketAssoc(l: Unit, t: Str, r: Unit, rest: Str)
    ensures [l] + t + [r] + rest == [l] + (t + ([r] + rest))
    ensures t == [] ==> t + ([r] + rest) == [r] + rest
  {
  }

  lemma PrintItemsStarts(items: seq<Json>)
    requires items != []
    ensures PrintItems(items) != [] && !IsSpace(PrintItems(items)[0]) && PrintItems(items)[0] != 93
  {
    PrintStarts(items[0]);
  }

  lemma PrintFieldsStarts(fields: seq<Entry<Json>>)
    requires fields != []
    ensures PrintFields(fields) != [] && PrintFields(fields)[0] == 34
  {
    assert PrintField(fields[0])[0] == 34;
  }

  lemma ArrayStep(t: Str, u: Str, items: seq<Json>, rest: Str)
    requires t == [91] + u && u != [] && !IsSpace(u[0])
    requires if items == [] then u == [93] + rest else u[0] != 93 && ParseItems(u) == Done(items, rest)
    ensures ParseValue(t) == Done(JArr(items), rest)
  {
    assert Skip(t) == t && t[1..] == u && Skip(u) == u;
    if items == [] {
      assert u[1..] == rest;
    }
  }

  lemma ObjectStep(t: Str, u: Str, fields: seq<Entry<Json>>, rest: Str)
    requires t == [123] + u && u != [] && !IsSpace(u[0])
    requires if fields == [] then u == [125] + rest else u[0] != 125 && ParseFields(u) == Done(fields, rest)
    ensures ParseValue(t) == Done(JObj(fields), rest)
  {
    assert Skip(t) == t && t[1..] == u && Skip(u) == u;
    if fields == [] {
      assert u[1..] == rest;
    }
  }

  lemma LastItemStep(t: Str, item: Json, rest: Str)
    requires ParseValue(t) == Done(item, [93] + rest)
    ensures ParseItems(t) == Done([item], rest)
  {
    assert ([93] + rest)[1..] == rest;
  }

  lemma NextItemStep(t: Str, item: Json, u: Str, items: seq<Json>, rest: Str)
    requires ParseValue(t) == Done(item, [44] + u)
    requires ParseItems(u) == Done(items, rest)
    ensures ParseItems(t) == Done([item] + items, rest)
  {
    assert ([44] + u)[1..] == u;
  }

  lemma FieldStep(t: Str, key: Str, u: Str, val: Json, rest: Str)
    requires t != [] && t[0] == 34 && ParseBody(t[1..]) == Done(key, [58] + u)
    requires ParseValue(u) == Done(val, rest)
    ensures ParseField(t) == Done(Entry(key, val), rest)
  {
    assert ([58] + u)[1..] == u;
  }

  lemma LastFieldStep(t: Str, field: Entry<Json>, rest: Str)
    requires ParseField(t) == Done(field, [125] + rest)
    ensures ParseFields(t) == Done([field], rest)
  {
    assert ([125] + rest)[1..] == rest;
  }

  lemma NextFieldStep(t: Str, field: Entry<Json>, u: Str, fields: seq<Entry<Json>>, rest: Str)
    requires ParseField(t) == Done(field, [44] + u)
    requires ParseFields(u) == Done(fields, rest)
    ensures ParseFields(t) == Done([field] + fields, rest)
  {
    hide ParseField, ParseValue, ParseBody;
    assert ([44] + u)[1..] == u;
  }

  lemma {:induction false} ItemsReadBack(items: seq<Json>, rest: Str)
    requires items != []
    ensures ParseItems(PrintItems(items) + ([93] + rest)) == Done(items, rest)
    decreases items, 1
  {
    if |items| == 1 {
      ValueReadsBack(items[0], [93] + rest);
      LastItemStep(Print(items[0]) + ([93] + rest), items[0], rest);
      assert items == [items[0]];
    } else {
      var u := PrintItems(items[1..]) + ([93] + rest);
      ValueReadsBack(items[0], [44] + u);
      ItemsReadBack(items[1..], rest);
      NextItemStep(Print(items[0]) + ([44] + u), items[0], u, items[1..], rest);
      CommaAssoc(Print(items[0]), PrintItems(items[1..]), [93] + rest);
      assert items == [items[0]] + items[1..];
    }
  }

  lemma CommaAssoc(a: Str, b: Str, c: Str)
    ensures a + [44] + b + c == a + ([44] + (b + c))
  {
  }

  lemma ColonAssoc(a: Str, b: Str, c: Str)
    ensures a + [58] + b + c == a + ([58] + (b + c))
  {
  }

  lemma {:induction false} FieldReadsBack(f: Entry<Json>, rest: Str)
    requires EndsNumber(rest)
    ensures ParseField(PrintField(f) + rest) == Done(f, rest)
    decreases f, 1
  {
    var u := Print(f.val) + rest;
    ColonAssoc(Quote(f.key), Print(f.val), rest);
    ValueReadsBack(f.val, rest);
    QuoteReadsBack(f.key, [58] + u);
    FieldStep(Quote(f.key) + ([58] + u), f.key, u, f.val, rest);
  }

  lemma {:induction false} FieldsReadBack(fields: seq<Entry<Json>>, rest: Str)
    requires fields != []
    ensures ParseFields(PrintFields(fields) + ([125] + rest)) == Done(fields, rest)
    decreases fields, 2
  {
    if |fields| == 1 {
      FieldReadsBack(fields[0], [125] + rest);
      LastFieldStep(PrintField(fields[0]) + ([125] + rest), fields[0], rest);
      assert fields == [fields[0]];
    } else {
      var u := PrintFields(fields[1..]) + ([125] + rest);
      FieldReadsBack(fields[0], [44] + u);
      FieldsReadBack(fields[1..], rest);
      NextFieldStep(PrintField(fields[0]) + ([44] + u), fields[0], u, fields[1..], rest);
      CommaAssoc(PrintField(fields[0]), PrintFields(fields[1..]), [125] + rest);
      assert fields == [fields[0]] + fields[1..];
    }
  }

  /** Reading a printed value gives it back. */
  lemma PrintReadsBack(j: Json)
    ensures Parse(Print(j)) == Done(j, [])
  {
    ValueReadsBack(j, []);
    assert Print(j) + [] == Print(j);
  }

  /** The letters of a hexadecimal escape are read in either case. */
  lemma LettersRead(d: nat)
    requires 10 <= d < 16
    ensures var lower, upper := (97 + d - 10) as Unit, (65 + d - 10) as Unit;
      IsHex(lower) && HexValue(lower) == d && IsHex(upper) && HexValue(upper) == d
  {
  }

  predicate Space(t: Str) {
    forall i | 0 <= i < |t| :: t[i] == 9 || t[i] == 10 || t[i] == 13 || t[i] == 32
  }

  lemma {:induction false} SkipsSpace(w: Str, t: Str)
    requires Space(w)
    ensures Skip(w + t) == Skip(t)
  {
    if w == [] {
      assert w + t == t;
    } else {
      SkipsSpace(w[1..], t);
      assert (w + t)[1..] == w[1..] + t;
    }
  }

  lemma {:induction false} SkipsAllExactly(v: Str)
    ensures Skip(v) == [] <==> Space(v)
  {
    if v != [] && IsSpace(v[0]) {
      SkipsAllExactly(v[1..]);
      assert forall i | 0 <= i < |v[1..]| :: v[1..][i] == v[i + 1];
      assert v == [v[0]] + v[1..];
    }
  }

  /** White space around a printed value changes nothing, anything else behind it is refused. */
  lemma ReadsBackAround(w: Str, j: Json, v: Str)
    requires Space(w) && EndsNumber(v)
    ensures Parse(w + Print(j) + v) == if Space(v) then Done(j, []) else Fail
  {
    hide Print, EndsNumber, Space, Skip;
    ValueReadsBack(j, v);
    SkipsSpace(w, Print(j) + v);
    assert w + Print(j) + v == w + (Print(j) + v);
    SameSkipped(w + (Print(j) + v), Print(j) + v);
    SkipsAllExactly(v);
  }

  lemma SameSkipped(a: Str, b: Str)
    requires Skip(a) == Skip(b)
    ensures ParseValue(a) == ParseValue(b)
  {
  }

  /** Which units a string is printed with as they are, and how long the escapes of the others are. */
  lemma EscapedExactly(c: Unit)
    ensures Escape(c) == [c] <==> c >= 32 && c != 34 && c != 92 && !(0xD800 <= c <= 0xDFFF)
    ensures Escape(c) != [c] ==>
      && Escape(c)[0] == 92
      && |Escape(c)| == if c in {34, 92, 8, 9, 10, 12, 13} then 2 else 6
  {
  }

  /** Hence different values have different texts. */
  lemma PrintInjective(a: Json, b: Json)
    requires Print(a) == Print(b)
    ensures a == b
  {
    PrintReadsBack(a);
    PrintReadsBack(b);
  }
}
