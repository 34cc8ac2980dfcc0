/** JSON text: the printer behind `JSON.stringify` and, as an independent
    specification, a reader for the grammar of sections 2 to 7 of RFC 8259.

    Code units: 34 quote, 92 reverse solidus, 91 93 brackets, 123 125 braces,
    44 comma, 58 colon, 43 plus, 45 minus, 46 point, 48-57 digits, 69 101 letter e. */
module Json {
  import opened Text

  datatype Entry<T> = Entry(key: Str, val: T)

  /** The number `digits` times ten to the `tens`, perhaps negative. */
  datatype Parts = Parts(negative: bool, digits: nat, tens: int)

  /** It is in lowest terms, and ECMA-262 prints it with a point or
      an exponent; all other finite numbers are integers it prints plainly. */
  predicate Proper(p: Parts) {
    p.digits % 10 != 0 && (p.tens < 0 || |Digits(p.digits)| + p.tens > 21)
  }

  type Float = p: Parts | Proper(p) witness Parts(false, 1, -1)

  datatype Json =
    | JNull
    | JBool(b: bool)
    | JNum(n: int)
    | JFloat(x: Float)
    | JStr(s: Str)
    | JArr(items: seq<Json>)
    | JObj(fields: seq<Entry<Json>>)

  // ---------------------------------------------------------------- printing

  predicate IsLead(c: Unit) {
    0xD800 <= c < 0xDC00
  }

  predicate IsTrail(c: Unit) {
    0xDC00 <= c < 0xE000
  }

  function HexDigit(d: nat): Unit
    requires d < 16
  {
    if d < 10 then (48 + d) as Unit else (87 + d) as Unit
  }

  function HexFour(c: nat): Str
    requires c < 0x10000
  {
    [HexDigit(c / 4096), HexDigit(c / 256 % 16), HexDigit(c / 16 % 16), HexDigit(c % 16)]
  }

  /** `\uXXXX` with lower-case digits. */
  function UnicodeEscape(c: Unit): Str {
    [92, 117] + HexFour(c as int)
  }

  /** One code unit that is not half of a surrogate pair. */
  function Escape(c: Unit): Str {
    if c == 34 || c == 92 then [92, c]
    else if c == 8 then [92, 98]
    else if c == 9 then [92, 116]
    else if c == 10 then [92, 110]
    else if c == 12 then [92, 102]
    else if c == 13 then [92, 114]
    else if c < 0x20 || IsLead(c) || IsTrail(c) then UnicodeEscape(c)
    else [c]
  }

  /** String contents: surrogate pairs are kept, lone surrogates are escaped. */
  function Body(s: Str): Str {
    if s == [] then []
    else if |s| > 1 && IsLead(s[0]) && IsTrail(s[1]) then s[..2] + Body(s[2..])
    else Escape(s[0]) + Body(s[1..])
  }

  function Quote(s: Str): Str {
    [34] + Body(s) + [34]
  }

  function Signed(negative: bool, n: nat): int {
    if negative then -(n as int) else n
  }

  function Zeros(n: nat): Str {
    seq<Unit>(n, _ => 48)
  }

  /** `Number::toString`: digits around a point while it stands at most 21 digits to the
      right and 5 zeros to the left, otherwise one digit before it and an exponent. */
  function PrintFloat(x: Float): Str {
    DigitsDenote(x.digits);
    var d := Digits(x.digits);
    var point := |d| + x.tens;
    (if x.negative then [45] else []) +
    (if 0 < point <= 21 then d[..point] + [46] + d[point..]
     else if -6 < point <= 0 then [48, 46] + Zeros(-point) + d
     else d[..1] + (if |d| == 1 then [] else [46] + d[1..]) + PrintExponent(point - 1))
  }

  function PrintExponent(x: int): Str {
    if x < 0 then [101, 45] + Digits(-x) else [101, 43] + Digits(x)
  }

  const NULL: Str := [110, 117, 108, 108]
  const TRUE: Str := [116, 114, 117, 101]
  const FALSE: Str := [102, 97, 108, 115, 101]

  function Print(j: Json): Str {
    match j
    case JNull => NULL
    case JBool(b) => if b then TRUE else FALSE
    case JNum(n) => Decimal(n)
    case JFloat(x) => PrintFloat(x)
    case JStr(s) => Quote(s)
    case JArr(items) => [91] + PrintItems(items) + [93]
    case JObj(fields) => [123] + PrintFields(fields) + [125]
  }

  function PrintItems(items: seq<Json>): Str {
    if |items| == 0 then []
    else if |items| == 1 then Print(items[0])
    else Print(items[0]) + [44] + PrintItems(items[1..])
  }

  function PrintField(f: Entry<Json>): Str {
    Quote(f.key) + [58] + Print(f.val)
  }

  function PrintFields(fields: seq<Entry<Json>>): Str {
    if |fields| == 0 then []
    else if |fields| == 1 then PrintField(fields[0])
    else PrintField(fields[0]) + [44] + PrintFields(fields[1..])
  }

  // ----------------------------------------------------------------- reading

  datatype Parsed<+T> = Fail | Done(value: T, rest: Str)

  predicate IsSpace(c: Unit) {
    c == 32 || c == 9 || c == 10 || c == 13
  }

  function Skip(t: Str): (r: Str)
    ensures |r| <= |t|
  {
    if t != [] && IsSpace(t[0]) then Skip(t[1..]) else t
  }

  predicate IsHex(c: Unit) {
    IsDigit(c) || 97 <= c <= 102 || 65 <= c <= 70
  }

  function HexValue(c: Unit): (d: nat)
    requires IsHex(c)
    ensures d < 16
  {
    if c < 58 then c as int - 48 else if c < 71 then c as int - 55 else c as int - 87
  }

  /** One unit of a string, plain or escaped, and the number of units it takes. */
  datatype Spelled = Bad | Unit(c: Unit, taken: nat)

  function ReadHex(a: Unit, b: Unit, c: Unit, d: Unit): (r: Spelled)
    ensures r.Unit? ==> r.taken == 6
  {
    if IsHex(a) && IsHex(b) && IsHex(c) && IsHex(d) then
      Unit((4096 * HexValue(a) + 256 * HexValue(b) + 16 * HexValue(c) + HexValue(d)) as Unit, 6)
    else Bad
  }

  function ReadUnit(t: Str): (r: Spelled)
    ensures r.Unit? ==> 1 <= r.taken <= |t|
  {
    if t == [] || t[0] < 0x20 || t[0] == 34 then Bad
    else if t[0] != 92 then Unit(t[0], 1)
    else if |t| < 2 then Bad
    else if t[1] == 117 then
      if |t| >= 6 then ReadHex(t[2], t[3], t[4], t[5]) else Bad
    else if t[1] == 34 || t[1] == 92 || t[1] == 47 then Unit(t[1], 2)
    else if t[1] == 98 then Unit(8, 2)
    else if t[1] == 116 then Unit(9, 2)
    else if t[1] == 110 then Unit(10, 2)
    else if t[1] == 102 then Unit(12, 2)
    else if t[1] == 114 then Unit(13, 2)
    else Bad
  }

  /** A string after its opening quote. */
  function ParseBody(t: Str): (r: Parsed<Str>)
    ensures r.Done? ==> |r.rest| < |t|
  {
    if t != [] && t[0] == 34 then Done([], t[1..])
    else match ReadUnit(t)
      case Bad => Fail
      case Unit(c, taken) => Prefix(c, ParseBody(t[taken..]))
  }

  function Prefix<T>(x: T, p: Parsed<seq<T>>): Parsed<seq<T>> {
    match p
    case Fail => Fail
    case Done(xs, rest) => Done([x] + xs, rest)
  }

  /** `frac` of the grammar, if there is one: its digits. */
  function ParseFraction(t: Str): (r: Parsed<Str>)
    ensures r.Done? ==> AllDigits(r.value) && |r.rest| <= |t|
  {
    if t == [] || t[0] != 46 then Done([], t)
    else
      var k := DigitRun(t[1..]);
      if k == 0 then Fail else Done(t[1..][..k], t[1..][k..])
  }

  /** `exp` of the grammar, if there is one. */
  function ParseExponent(t: Str): (r: Parsed<Maybe<int>>)
    ensures r.Done? ==> |r.rest| <= |t|
  {
    if t == [] || (t[0] != 69 && t[0] != 101) then Done(None, t)
    else
      var u := t[1..];
      var v := if u != [] && (u[0] == 43 || u[0] == 45) then u[1..] else u;
      var k := DigitRun(v);
      if k == 0 then Fail else Done(Some(Signed(u[0] == 45, Value(v[..k]))), v[k..])
  }

  /** A number after its sign: no leading zero, then fraction and exponent if any. */
  function ParseNumber(t: Str, negative: bool): (r: Parsed<Json>)
    ensures r.Done? ==> |r.rest| < |t|
  {
    var k := DigitRun(t);
    if k == 0 || (k > 1 && t[0] == 48) then Fail
    else match ParseFraction(t[k..])
      case Fail => Fail
      case Done(f, u) =>
        match ParseExponent(u)
        case Fail => Fail
        case Done(x, rest) => Done(Numeral(negative, t[..k], f, x), rest)
  }

  /** The number of an integer part, a fraction and an exponent. */
  function Numeral(negative: bool, whole: Str, f: Str, x: Maybe<int>): Json
    requires AllDigits(whole) && AllDigits(f)
  {
    if f == [] && x == None then JNum(Signed(negative, Value(whole)))
    else Shifted(negative, Value(whole + f), (if x.Some? then x.value else 0) - |f|)
  }

  /** `digits` times ten to the `tens`: an integer where ECMA-262 prints one. */
  function Shifted(negative: bool, digits: nat, tens: int): Json {
    if digits == 0 then JNum(0)
    else if digits % 10 == 0 then Shifted(negative, digits / 10, tens + 1)
    else if Proper(Parts(negative, digits, tens)) then JFloat(Parts(negative, digits, tens))
    else JNum(Signed(negative, digits * Pow10(tens)))
  }

  function ParseLiteral(t: Str, word: Str, j: Json): (r: Parsed<Json>)
    requires word != []
    ensures r.Done? ==> |r.rest| < |t|
  {
    if word <= t then Done(j, t[|word|..]) else Fail
  }

  function ParseValue(t0: Str): (r: Parsed<Json>)
    ensures r.Done? ==> |r.rest| < |t0|
    decreases |t0|, 1
  {
    var t := Skip(t0);
    if t == [] then Fail
    else if t[0] == 34 then
      match ParseBody(t[1..])
      case Fail => Fail
      case Done(s, rest) => Done(JStr(s), rest)
    else if t[0] == 91 then
      var u := Skip(t[1..]);
      if u != [] && u[0] == 93 then Done(JArr([]), u[1..])
      else match ParseItems(u)
        case Fail => Fail
        case Done(items, rest) => Done(JArr(items), rest)
    else if t[0] == 123 then
      var u := Skip(t[1..]);
      if u != [] && u[0] == 125 then Done(JObj([]), u[1..])
      else match ParseFields(u)
        case Fail => Fail
        case Done(fields, rest) => Done(JObj(fields), rest)
    else if t[0] == 45 then ParseNumber(t[1..], true)
    else if IsDigit(t[0]) then ParseNumber(t, false)
    else if t[0] == 110 then ParseLiteral(t, NULL, JNull)
    else if t[0] == 116 then ParseLiteral(t, TRUE, JBool(true))
    else if t[0] == 102 then ParseLiteral(t, FALSE, JBool(false))
    else Fail
  }

  function ParseItems(t: Str): (r: Parsed<seq<Json>>)
    ensures r.Done? ==> |r.rest| < |t|
    decreases |t|, 2
  {
    match ParseValue(t)
    case Fail => Fail
    case Done(item, after) =>
      var u := Skip(after);
      if u == [] then Fail
      else if u[0] == 93 then Done([item], u[1..])
      else if u[0] == 44 then Prefix(item, ParseItems(u[1..]))
      else Fail
  }

  function ParseField(t0: Str): (r: Parsed<Entry<Json>>)
    ensures r.Done? ==> |r.rest| < |t0|
    decreases |t0|, 2
  {
    var t := Skip(t0);
    if t == [] || t[0] != 34 then Fail
    else match ParseBody(t[1..])
      case Fail => Fail
      case Done(key, after) =>
        var u := Skip(after);
        if u == [] || u[0] != 58 then Fail
        else match ParseValue(u[1..])
          case Fail => Fail
          case Done(val, rest) => Done(Entry(key, val), rest)
  }

  function ParseFields(t: Str): (r: Parsed<seq<Entry<Json>>>)
    ensures r.Done? ==> |r.rest| < |t|
    decreases |t|, 3
  {
    match ParseField(t)
    case Fail => Fail
    case Done(field, after) =>
      var u := Skip(after);
      if u == [] then Fail
      else if u[0] == 125 then Done([field], u[1..])
      else if u[0] == 44 then Prefix(field, ParseFields(u[1..]))
      else Fail
  }

  /** A whole text: one value, and nothing but white space after it. */
  function Parse(t: Str): Parsed<Json> {
    match ParseValue(t)
    case Fail => Fail
    case Done(j, rest) => if Skip(rest) == [] then Done(j, []) else Fail
  }

  // -------------------------------------------------------------- properties

  /** A property of a parsed object, of which the last of its name counts; a missing one
      reads as null. */
  function Get(fields: seq<Entry<Json>>, key: Str): Json {
    if fields == [] then JNull
    else if fields[|fields| - 1].key == key then fields[|fields| - 1].val
    else Get(fields[..|fields| - 1], key)
  }

  lemma {:induction false} GetAt(fields: seq<Entry<Json>>, key: Str, i: nat)
    requires i < |fields| && fields[i].key == key && forall j | i < j < |fields| :: fields[j].key != key
    ensures Get(fields, key) == fields[i].val
  {
    if i < |fields| - 1 {
      GetAt(fields[..|fields| - 1], key, i);
    }
  }

  lemma {:induction false} GetAbsent(fields: seq<Entry<Json>>, key: Str)
    requires forall i | 0 <= i < |fields| :: fields[i].key != key
    ensures Get(fields, key) == JNull
  {
    if fields != [] {
      GetAbsent(fields[..|fields| - 1], key);
    }
  }
}
