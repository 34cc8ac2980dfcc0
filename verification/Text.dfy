/** JavaScript strings as sequences of UTF-16 code units, with the three text
    operations the repository leans on: decimal printing, `join` and `split`. */
module Text {

  newtype Unit = c: int | 0 <= c < 0x10000
  type Str = seq<Unit>

  datatype Maybe<T> = None | Some(value: T)

  function Code(c: char): Unit
    requires c as int < 128
  {
    c as int as Unit
  }

  /** The code units of an ASCII literal. */
  function Ascii(s: string): (u: Str)
    requires forall i | 0 <= i < |s| :: s[i] as int < 128
  {
    seq<Unit>(|s|, i requires 0 <= i < |s| => Code(s[i]))
  }

  // ---------------------------------------------------------------- digits

  predicate IsDigit(c: Unit) {
    48 <= c <= 57
  }

  predicate AllDigits(s: Str) {
    forall i | 0 <= i < |s| :: IsDigit(s[i])
  }

  function DigitUnit(d: nat): Unit
    requires d < 10
  {
    (48 + d) as Unit
  }

  /** Decimal digits of a natural number, most significant first. */
  function Digits(n: nat): Str {
    if n < 10 then [DigitUnit(n)] else Digits(n / 10) + [DigitUnit(n % 10)]
  }

  /** The number a digit string denotes. */
  function Value(s: Str): nat
    requires AllDigits(s)
  {
    if s == [] then 0 else 10 * Value(s[..|s| - 1]) + (s[|s| - 1] as int - 48)
  }

  lemma {:induction false} DigitsDenote(n: nat)
    ensures Digits(n) != [] && AllDigits(Digits(n)) && Value(Digits(n)) == n
    ensures Digits(n)[0] == 48 <==> n == 0
  {
    if n >= 10 {
      DigitsDenote(n / 10);
      assert Digits(n)[..|Digits(n)| - 1] == Digits(n / 10);
    }
  }

  /** A text of digits without a leading zero is how its number is printed. */
  lemma {:induction false} DigitsOfValue(s: Str)
    requires s != [] && AllDigits(s) && (|s| > 1 ==> s[0] != 48)
    ensures Digits(Value(s)) == s
  {
    if |s| > 1 {
      var front, d := s[..|s| - 1], s[|s| - 1] as int - 48;
      DigitsOfValue(front);
      PositiveValue(front);
      assert Value(s) == 10 * Value(front) + d && Value(s) / 10 == Value(front) && Value(s) % 10 == d;
      assert s == front + [s[|s| - 1]];
    } else {
      assert Value(s[..0]) == 0;
    }
  }

  lemma {:induction false} PositiveValue(s: Str)
    requires s != [] && AllDigits(s) && s[0] != 48
    ensures Value(s) > 0
  {
    if |s| > 1 {
      PositiveValue(s[..|s| - 1]);
    }
  }

  /** A decimal integer, as `String(n)` prints it. */
  function Decimal(n: int): Str {
    if n < 0 then [45] + Digits(-n) else Digits(n)
  }

  lemma DecimalInjective(m: int, n: int)
    requires Decimal(m) == Decimal(n)
    ensures m == n
  {
    DigitsDenote(if m < 0 then -m else m);
    DigitsDenote(if n < 0 then -n else n);
    assert m < 0 <==> Decimal(m)[0] == 45;
    assert n < 0 <==> Decimal(n)[0] == 45;
    if m < 0 {
      assert Decimal(m)[1..] == Digits(-m) && Decimal(n)[1..] == Digits(-n);
    }
  }

  lemma DecimalUnits(n: int)
    ensures Decimal(n) != []
    ensures forall i | 0 <= i < |Decimal(n)| :: Decimal(n)[i] == 45 || IsDigit(Decimal(n)[i])
  {
    DigitsDenote(if n < 0 then -n else n);
  }

  function Pow10(n: nat): (p: nat)
    ensures p >= 1
  {
    if n == 0 then 1 else 10 * Pow10(n - 1)
  }

  lemma {:induction false} Pow10Sum(m: nat, n: nat)
    ensures Pow10(m + n) == Pow10(m) * Pow10(n)
  {
    if m > 0 {
      Pow10Sum(m - 1, n);
    }
  }

  /** The longest run of digits at the front. */
  function DigitRun(t: Str): (k: nat)
    ensures k <= |t| && AllDigits(t[..k])
    ensures k < |t| ==> !IsDigit(t[k])
  {
    if t != [] && IsDigit(t[0]) then 1 + DigitRun(t[1..]) else 0
  }

  // ------------------------------------------------------------------- trim

  /** White space and line terminators of ECMA-262. */
  predicate IsWhite(c: Unit) {
    || 9 <= c <= 13 || c == 32 || c == 0xA0 || c == 0x1680 || 0x2000 <= c <= 0x200A
    || c == 0x2028 || c == 0x2029 || c == 0x202F || c == 0x205F || c == 0x3000 || c == 0xFEFF
  }

  /** The same one by one. */
  const WHITE_UNITS: seq<Unit> :=
    [9, 10, 11, 12, 13, 32, 160, 5760, 8192, 8193, 8194, 8195, 8196, 8197, 8198, 8199, 8200, 8201, 8202, 8232, 8233,
     8239, 8287, 12288, 65279]

  lemma WhiteExactly(c: Unit)
    ensures IsWhite(c) <==> c in WHITE_UNITS
  {
  }

  /** `s.trim()` */
  function Trim(s: Str): (r: Str)
    ensures r != [] ==> !IsWhite(r[0]) && !IsWhite(r[|r| - 1])
    ensures (s == [] || (!IsWhite(s[0]) && !IsWhite(s[|s| - 1]))) ==> r == s
    decreases |s|
  {
    if s == [] then []
    else if IsWhite(s[0]) then Trim(s[1..])
    else if IsWhite(s[|s| - 1]) then Trim(s[..|s| - 1])
    else s
  }

  predicate White(t: Str) {
    forall i | 0 <= i < |t| :: IsWhite(t[i])
  }

  /** No white space at either end. */
  predicate Tight(t: Str) {
    t == [] || (!IsWhite(t[0]) && !IsWhite(t[|t| - 1]))
  }

  lemma TrimFront(t: Str)
    requires t != [] && IsWhite(t[0])
    ensures Trim(t) == Trim(t[1..])
  {
  }

  lemma TrimBack(t: Str)
    requires t != [] && !IsWhite(t[0]) && IsWhite(t[|t| - 1])
    ensures Trim(t) == Trim(t[..|t| - 1])
  {
  }

  /** White space around a text is taken off, and nothing else. */
  lemma {:induction false} TrimPadded(w: Str, t: Str, v: Str)
    requires White(w) && White(v) && Tight(t)
    ensures Trim(w + t + v) == t
    decreases |w| + |v|
  {
    hide IsWhite, Trim;
    var all := w + t + v;
    if w != [] {
      TrimPadded(w[1..], t, v);
      assert all[1..] == w[1..] + t + v;
      TrimFront(all);
    } else if t == [] && v != [] {
      TrimPadded([], [], v[1..]);
      assert all == v && v[1..] == [] + [] + v[1..];
      TrimFront(all);
    } else if v != [] {
      TrimPadded([], t, v[..|v| - 1]);
      assert all[..|all| - 1] == [] + t + v[..|v| - 1];
      TrimBack(all);
    } else {
      assert all == t;
    }
  }

  lemma {:induction false} TrimParts(t: Str) returns (w: Str, v: Str)
    ensures White(w) && White(v) && Tight(Trim(t)) && t == w + Trim(t) + v
    decreases |t|
  {
    hide IsWhite, Trim;
    w, v := [], [];
    if t != [] && IsWhite(t[0]) {
      w, v := TrimParts(t[1..]);
      TrimFront(t);
      FrontAgain(t[0], w, Trim(t), v);
      assert t == [t[0]] + t[1..];
      w := [t[0]] + w;
    } else if t != [] && IsWhite(t[|t| - 1]) {
      w, v := TrimParts(t[..|t| - 1]);
      TrimBack(t);
      BackAgain(t[|t| - 1], w, Trim(t), v);
      assert t == t[..|t| - 1] + [t[|t| - 1]];
      v := v + [t[|t| - 1]];
    } else {
      assert [] + t + [] == t;
    }
  }

  lemma FrontAgain(c: Unit, w: Str, t: Str, v: Str)
    requires IsWhite(c) && White(w)
    ensures White([c] + w) && [c] + (w + t + v) == [c] + w + t + v
  {
    hide IsWhite;
  }

  lemma BackAgain(c: Unit, w: Str, t: Str, v: Str)
    requires IsWhite(c) && White(v)
    ensures White(v + [c]) && w + t + v + [c] == w + t + (v + [c])
  {
    hide IsWhite;
  }

  /** The text is `s` with white space around it. */
  ghost predicate Padded(t: Str, s: Str) {
    exists w, v | White(w) && White(v) :: t == w + s + v
  }

  /** Trimming gives the one text without white ends that is padded to the whole. */
  lemma TrimExactly(t: Str, s: Str)
    ensures Trim(t) == s <==> Tight(s) && Padded(t, s)
  {
    if Tight(s) && Padded(t, s) {
      var w, v :| White(w) && White(v) && t == w + s + v;
      TrimPadded(w, s, v);
    }
    var w, v := TrimParts(t);
  }

  // ---------------------------------------------------------- join and split

  /** `parts.join(sep)` for a one-unit separator. */
  function Join(parts: seq<Str>, sep: Unit): Str {
    if |parts| == 0 then []
    else if |parts| == 1 then parts[0]
    else parts[0] + [sep] + Join(parts[1..], sep)
  }

  /** `s.split(sep)` for a one-unit separator. */
  function Split(s: Str, sep: Unit): (parts: seq<Str>)
    ensures |parts| >= 1
  {
    if s == [] then [[]]
    else if s[0] == sep then [[]] + Split(s[1..], sep)
    else
      var rest := Split(s[1..], sep);
      [[s[0]] + rest[0]] + rest[1..]
  }

  /** A piece without separators, then a separator: the first field of a split. */
  lemma {:induction false} SplitStep(p: Str, sep: Unit, rest: Str)
    requires sep !in p
    ensures Split(p + [sep] + rest, sep) == [p] + Split(rest, sep)
  {
    var s := p + [sep] + rest;
    if p == [] {
      assert s[1..] == rest;
    } else {
      SplitStep(p[1..], sep, rest);
      assert s[1..] == p[1..] + [sep] + rest;
      assert [p[0]] + p[1..] == p;
    }
  }

  lemma {:induction false} SplitSingle(p: Str, sep: Unit)
    requires sep !in p
    ensures Split(p, sep) == [p]
  {
    if p != [] {
      SplitSingle(p[1..], sep);
      assert [p[0]] + p[1..] == p;
    }
  }

  /** Splitting a join gives the parts back when no part holds the separator. */
  lemma {:induction false} SplitJoin(parts: seq<Str>, sep: Unit)
    requires |parts| >= 1
    requires forall p <- parts :: sep !in p
    ensures Split(Join(parts, sep), sep) == parts
  {
    if |parts| == 1 {
      SplitSingle(parts[0], sep);
    } else {
      SplitJoin(parts[1..], sep);
      SplitStep(parts[0], sep, Join(parts[1..], sep));
    }
  }

  /** The last separator cuts a text in one way, whatever precedes it. */
  lemma LastSeparatorCut(a: Str, b: Str, c: Str, d: Str, sep: Unit)
    requires a + [sep] + b == c + [sep] + d
    requires sep !in b && sep !in d
    ensures a == c && b == d
  {
    var s, t := a + [sep] + b, c + [sep] + d;
    assert s[|a|] == sep && t[|c|] == sep;
    assert forall i | |a| < i < |s| :: s[i] == b[i - |a| - 1];
    assert forall i | |c| < i < |t| :: t[i] == d[i - |c| - 1];
    assert |a| == |c|;
    assert a == s[..|a|] && c == t[..|c|];
    assert b == s[|a| + 1..] && d == t[|c| + 1..];
  }

  /** The first separator cuts a text in one way, whatever follows it. */
  lemma FirstSeparatorCut(a: Str, b: Str, c: Str, d: Str, sep: Unit)
    requires a + [sep] + b == c + [sep] + d
    requires sep !in a && sep !in c
    ensures a == c && b == d
  {
    var s, t := a + [sep] + b, c + [sep] + d;
    assert s[|a|] == sep && t[|c|] == sep;
    assert forall i | 0 <= i < |a| :: s[i] == a[i];
    assert forall i | 0 <= i < |c| :: t[i] == c[i];
    assert |a| == |c|;
    assert a == s[..|a|] && c == t[..|c|];
    assert b == s[|a| + 1..] && d == t[|c| + 1..];
  }

  /** A common beginning can be dropped. */
  lemma SameAfter<T>(p: seq<T>, a: seq<T>, b: seq<T>)
    ensures p + a == p + b <==> a == b
  {
    assert (p + a)[|p|..] == a && (p + b)[|p|..] == b;
  }
}
