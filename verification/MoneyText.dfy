/** The money printer (src/kernel/money.ts): fixed decimals, grouped thousands,
    and the proof that the printed amount is the quantized amount. */
module MoneyText {
  import opened Text
  import opened Money

  // --------------------------------------------------------------- toFixed

  /** The last `p` decimal digits of `n`. */
  function Padded(n: nat, p: nat): (s: Str)
    ensures |s| == p && AllDigits(s)
  {
    if p == 0 then [] else Padded(n / 10, p - 1) + [DigitUnit(n % 10)]
  }

  /** `toFixed(p)` of `m / 10^p`: no sign on zero. */
  function ToFixed(m: int, p: nat): Str {
    (if m < 0 then [45] else []) + Unsigned(Abs(m), p)
  }

  /** Whole units of an amount of `n` minor units. */
  function Whole(n: nat, p: nat): (w: nat)
    ensures Pow10(p) * w + n % Pow10(p) == n
  {
    Quotient(n, Pow10(p))
  }

  function Quotient(n: nat, m: nat): (q: nat)
    requires m >= 1
    ensures m * q + n % m == n
  {
    n / m
  }

  function Unsigned(n: nat, p: nat): Str {
    Digits(Whole(n, p)) + (if p == 0 then [] else [46] + Padded(n, p))
  }

  lemma {:induction false} PaddedValue(n: nat, p: nat)
    ensures Value(Padded(n, p)) == n % Pow10(p)
  {
    if p > 0 {
      PaddedValue(n / 10, p - 1);
      var s := Padded(n, p);
      assert s[..|s| - 1] == Padded(n / 10, p - 1);
      SplitModulus(n, Pow10(p - 1));
    }
  }

  lemma SplitModulus(n: nat, u: nat)
    requires u >= 1
    ensures n % (10 * u) == 10 * (n / 10 % u) + n % 10
  {
    var q, r := n / 10 / u, n / 10 % u;
    assert n / 10 == u * q + r;
    assert n == 10 * (n / 10) + n % 10;
    Assoc3(10, u, q);
    var rest := 10 * r + n % 10;
    assert n == (10 * u) * q + rest && 0 <= rest < 10 * u;
    ModUnique(n, 10 * u, q, rest);
  }

  lemma ModUnique(n: nat, m: nat, q: int, r: nat)
    requires m >= 1 && n == m * q + r && r < m
    ensures n % m == r && n / m == q
  {
    var q', r' := n / m, n % m;
    assert n == m * q' + r';
    Difference(q, q', m);
    assert m * q == q * m && m * q' == q' * m;
    if q > q' {
      AtLeast(q - q', m);
    } else if q < q' {
      AtLeast(q' - q, m);
      Difference(q', q, m);
    }
  }

  lemma {:induction false} ValueConcat(a: Str, b: Str)
    requires AllDigits(a) && AllDigits(b)
    ensures AllDigits(a + b)
    ensures Value(a + b) == Value(a) * Pow10(|b|) + Value(b)
  {
    if b == [] {
      assert a + b == a;
    } else {
      var b' := b[..|b| - 1];
      ValueConcat(a, b');
      assert (a + b)[..|a + b| - 1] == a + b';
      TenTimes(Value(a), Pow10(|b'|), Value(b'));
      assert Pow10(|b|) == 10 * Pow10(|b'|);
    }
  }

  lemma TenTimes(a: nat, p: nat, b: nat)
    ensures 10 * (a * p + b) == a * (10 * p) + 10 * b
  {
  }

  // -------------------------------------------------------------- grouping

  /** The regular-expression replacement: a comma before every position, other than
      the first, that is followed by a whole number of digit triples. */
  function Regroup(w: Str, i: nat): Str
    requires i <= |w|
    decreases |w| - i
  {
    if i == |w| then []
    else (if i > 0 && (|w| - i) % 3 == 0 then [44] else []) + [w[i]] + Regroup(w, i + 1)
  }

  /** Triples counted from the right; the first group is what is left over. */
  function Triples(w: Str): seq<Str>
    requires |w| % 3 == 0
  {
    if w == [] then [] else [w[..3]] + Triples(w[3..])
  }

  function FirstGroup(n: nat): (f: nat)
    requires n >= 1
    ensures 1 <= f <= 3 && f <= n && (n - f) % 3 == 0
  {
    (n - 1) % 3 + 1
  }

  function Groups(w: Str): seq<Str>
    requires w != []
  {
    [w[..FirstGroup(|w|)]] + Triples(w[FirstGroup(|w|)..])
  }

  lemma RegroupComma(w: Str, i: nat)
    requires 0 < i < |w| && (|w| - i) % 3 == 0
    ensures Regroup(w, i) == [44, w[i]] + Regroup(w, i + 1)
  {
  }

  lemma RegroupPlain(w: Str, i: nat)
    requires 0 < i < |w| && (|w| - i) % 3 != 0
    ensures Regroup(w, i) == [w[i]] + Regroup(w, i + 1)
  {
  }

  lemma {:induction false} RegroupTriples(w: Str, i: nat)
    requires 0 < i < |w| && (|w| - i) % 3 == 0
    ensures Regroup(w, i) == [44] + Join(Triples(w[i..]), 44)
    decreases |w| - i
  {
    RegroupThree(w, i);
    TriplesCons(w, i);
    if i + 3 < |w| {
      RegroupTriples(w, i + 3);
      JoinCons(w[i..i + 3], Triples(w[i + 3..]));
    }
  }

  lemma RegroupThree(w: Str, i: nat)
    requires 0 < i < |w| && (|w| - i) % 3 == 0
    ensures Regroup(w, i) == [44] + (w[i..i + 3] + Regroup(w, i + 3))
  {
    assert (|w| - (i + 1)) % 3 == 2 && (|w| - (i + 2)) % 3 == 1;
    RegroupPlain(w, i + 2);
    RegroupPlain(w, i + 1);
    ThreeUnits(w, i, Regroup(w, i + 3));
    RegroupComma(w, i);
  }

  lemma ThreeUnits(w: Str, i: nat, rest: Str)
    requires i + 3 <= |w|
    ensures [44, w[i]] + ([w[i + 1]] + ([w[i + 2]] + rest)) == [44] + (w[i..i + 3] + rest)
  {
  }

  lemma TriplesCons(w: Str, i: nat)
    requires i < |w| && (|w| - i) % 3 == 0
    ensures Triples(w[i..]) == [w[i..i + 3]] + Triples(w[i + 3..])
    ensures i + 3 == |w| ==> Join(Triples(w[i..]), 44) == w[i..i + 3] && w[i..i + 3] + [] == w[i..i + 3]
  {
    assert w[i..][..3] == w[i..i + 3] && w[i..][3..] == w[i + 3..];
  }

  lemma JoinCons(p: Str, rest: seq<Str>)
    requires rest != []
    ensures Join([p] + rest, 44) == p + ([44] + Join(rest, 44))
  {
    assert ([p] + rest)[1..] == rest;
  }

  lemma {:induction false} RegroupHead(w: Str, i: nat, f: nat)
    requires w != [] && f == FirstGroup(|w|) && i <= f
    ensures Regroup(w, i) == w[i..f] + Regroup(w, f)
    decreases f - i
  {
    if i < f {
      RegroupHead(w, i + 1, f);
      assert w[i..f] == [w[i]] + w[i + 1..f];
      assert i > 0 ==> (|w| - i) % 3 != 0;
    }
  }

  /** The replacement inserts exactly the commas between the groups. */
  lemma RegroupJoinsGroups(w: Str)
    requires w != []
    ensures Regroup(w, 0) == Join(Groups(w), 44)
  {
    var f := FirstGroup(|w|);
    RegroupHead(w, 0, f);
    assert w[0..f] == w[..f];
    if f < |w| {
      RegroupTriples(w, f);
      JoinCons(w[..f], Triples(w[f..]));
    }
  }

  /** The first group has one to three digits, every other exactly three, and joined
      without commas they are the number. */
  lemma GroupSizes(w: Str)
    requires w != []
    ensures |Groups(w)| >= 1 && 1 <= |Groups(w)[0]| <= 3
    ensures forall i | 0 < i < |Groups(w)| :: |Groups(w)[i]| == 3
    ensures Flat(Groups(w)) == w
  {
    var f := FirstGroup(|w|);
    TripleSizes(w[f..]);
    TriplesFlat(w[f..]);
    assert Groups(w)[1..] == Triples(w[f..]);
    assert w == w[..f] + w[f..];
  }

  function Flat(parts: seq<Str>): Str {
    if parts == [] then [] else parts[0] + Flat(parts[1..])
  }

  lemma {:induction false} TriplesFlat(w: Str)
    requires |w| % 3 == 0
    ensures Flat(Triples(w)) == w
  {
    if w != [] {
      TriplesFlat(w[3..]);
      assert w == w[..3] + w[3..];
      assert Triples(w)[1..] == Triples(w[3..]);
    }
  }

  lemma {:induction false} TripleSizes(w: Str)
    requires |w| % 3 == 0
    ensures forall i | 0 <= i < |Triples(w)| :: |Triples(w)[i]| == 3
  {
    if w != [] {
      TripleSizes(w[3..]);
    }
  }

  function Without(s: Str, c: Unit): Str {
    if s == [] then [] else (if s[0] == c then [] else [s[0]]) + Without(s[1..], c)
  }

  lemma {:induction false} WithoutConcat(a: Str, b: Str, c: Unit)
    ensures Without(a + b, c) == Without(a, c) + Without(b, c)
  {
    if a == [] {
      assert a + b == b;
    } else {
      WithoutConcat(a[1..], b, c);
      assert (a + b)[1..] == a[1..] + b;
      Regrouped(if a[0] == c then [] else [a[0]], Without(a[1..], c), Without(b, c));
    }
  }

  lemma Regrouped(a: Str, b: Str, c: Str)
    ensures a + (b + c) == a + b + c
  {
  }

  lemma {:induction false} WithoutAbsent(s: Str, c: Unit)
    requires c !in s
    ensures Without(s, c) == s
  {
    if s != [] {
      WithoutAbsent(s[1..], c);
    }
  }

  lemma {:induction false} RegroupStrips(w: Str, i: nat)
    requires i <= |w| && 44 !in w
    ensures Without(Regroup(w, i), 44) == w[i..]
    decreases |w| - i
  {
    if i < |w| {
      RegroupStrips(w, i + 1);
      var head := (if i > 0 && (|w| - i) % 3 == 0 then [44] else []) + [w[i]];
      assert Regroup(w, i) == head + Regroup(w, i + 1);
      WithoutConcat(head, Regroup(w, i + 1), 44);
      assert Without(head, 44) == [w[i]] by {
        if head == [44, w[i]] {
          assert head[1..] == [w[i]];
        }
      }
    }
  }

  // --------------------------------------------------- the printed amount

  /** `formatMoneyAmount` from the quantized amount on. */
  function FormatMinor(m: int, p: nat): Str {
    var fixed := ToFixed(m, p);
    var negative := fixed != [] && fixed[0] == 45;
    var unsigned := if negative then fixed[1..] else fixed;
    var parts := Split(unsigned, 46);
    (if negative then [45] else []) + Regroup(parts[0], 0) + (if |parts| > 1 then [46] + parts[1] else [])
  }

  function FormatMoneyAmount(d: Dec, p: nat): Str {
    FormatMinor(Minor(d, p), p)
  }

  /** Reading an amount: sign, digits, and digits after a point. */
  function ReadAmount(s: Str): Dec {
    var negative := s != [] && s[0] == 45;
    var parts := Split(if negative then s[1..] else s, 46);
    var whole, fraction := parts[0], if |parts| > 1 then parts[1] else [];
    var n := if AllDigits(whole + fraction) then Value(whole + fraction) else 0;
    Dec(if negative then -n else n, |fraction|)
  }

  lemma DigitsPlain(s: Str)
    requires AllDigits(s)
    ensures 44 !in s && 45 !in s && 46 !in s
  {
  }

  lemma UnsignedValue(n: nat, p: nat)
    ensures AllDigits(Digits(Whole(n, p)) + Padded(n, p)) && Value(Digits(Whole(n, p)) + Padded(n, p)) == n
  {
    DigitsDenote(Whole(n, p));
    ValueConcat(Digits(Whole(n, p)), Padded(n, p));
    WholeAndRest(n, p);
  }

  lemma WholeAndRest(n: nat, p: nat)
    ensures Whole(n, p) * Pow10(p) + Value(Padded(n, p)) == n
  {
    PaddedValue(n, p);
    Commute(Pow10(p), Whole(n, p));
  }

  lemma UnsignedParts(n: nat, p: nat)
    ensures Digits(Whole(n, p)) != [] && AllDigits(Digits(Whole(n, p)))
    ensures Split(Unsigned(n, p), 46) ==
            if p == 0 then [Digits(Whole(n, p))] else [Digits(Whole(n, p)), Padded(n, p)]
    ensures Unsigned(n, p) != [] && Unsigned(n, p)[0] != 45
  {
    DigitsDenote(Whole(n, p));
    PointSplit(Digits(Whole(n, p)), Padded(n, p));
  }

  lemma PointSplit(w: Str, f: Str)
    requires AllDigits(w) && AllDigits(f)
    ensures Split(w + [], 46) == [w] && Split(w + ([46] + f), 46) == [w, f]
  {
    DigitsPlain(w);
    DigitsPlain(f);
    hide Split, AllDigits;
    SplitSingle(w, 46);
    SplitSingle(f, 46);
    SplitStep(w, 46, f);
    assert w + [] == w && w + [46] + f == w + ([46] + f);
  }

  /** The sign of `toFixed` is cut off again, and the point splits the rest. */
  lemma FormatParts(m: int, p: nat)
    ensures FormatMinor(m, p) ==
            (if m < 0 then [45] else []) + Regroup(Digits(Whole(Abs(m), p)), 0)
            + (if p == 0 then [] else [46] + Padded(Abs(m), p))
  {
    UnsignedParts(Abs(m), p);
    SignCut(m < 0, Unsigned(Abs(m), p));
  }

  lemma SignCut(negative: bool, u: Str)
    requires u != [] && u[0] != 45
    ensures var s := (if negative then [45] else []) + u;
            s != [] && (s[0] == 45 <==> negative) && (if negative then s[1..] else s) == u
  {
  }

  /** Without its commas the printed text is `toFixed`. */
  lemma StripsToFixed(m: int, p: nat)
    ensures Without(FormatMinor(m, p), 44) == ToFixed(m, p)
  {
    FormatParts(m, p);
    UnsignedParts(Abs(m), p);
    StripGroups(m < 0, Digits(Whole(Abs(m), p)), if p == 0 then [] else [46] + Padded(Abs(m), p));
  }

  /** And `toFixed` reads as the amount. */
  lemma FixedReadsBack(m: int, p: nat)
    ensures ReadAmount(ToFixed(m, p)) == Dec(m, p)
  {
    UnsignedParts(Abs(m), p);
    SignCut(m < 0, Unsigned(Abs(m), p));
    UnsignedValue(Abs(m), p);
    assert p == 0 ==> Padded(Abs(m), p) == [];
  }

  lemma StripGroups(negative: bool, w: Str, tail: Str)
    requires AllDigits(w) && 44 !in tail
    ensures var sign: Str := if negative then [45] else [];
            Without(sign + Regroup(w, 0) + tail, 44) == sign + (w + tail)
  {
    var sign: Str := if negative then [45] else [];
    var g := Regroup(w, 0);
    DigitsPlain(w);
    RegroupStrips(w, 0);
    assert w[0..] == w;
    WithoutAbsent(sign, 44);
    WithoutAbsent(tail, 44);
    WithoutThree(sign, g, tail, 44);
  }

  lemma WithoutThree(a: Str, b: Str, c: Str, u: Unit)
    ensures Without(a + b + c, u) == Without(a, u) + (Without(b, u) + Without(c, u))
  {
    WithoutConcat(a + b, c, u);
    WithoutConcat(a, b, u);
  }

  /** The text in groups of three, signed exactly when the rounded amount is negative. */
  lemma PrintedAmountShape(m: int, p: nat)
    ensures FormatMinor(m, p) ==
            (if m < 0 then [45] else []) + Join(Groups(Digits(Whole(Abs(m), p))), 44)
            + (if p == 0 then [] else [46] + Padded(Abs(m), p))
    ensures FormatMinor(m, p) != [] && (FormatMinor(m, p)[0] == 45 <==> m < 0)
  {
    FormatParts(m, p);
    var w := Digits(Whole(Abs(m), p));
    DigitsDenote(Whole(Abs(m), p));
    RegroupJoinsGroups(w);
    assert Regroup(w, 0)[0] == w[0];
    FirstUnit(m < 0, Regroup(w, 0), if p == 0 then [] else [46] + Padded(Abs(m), p));
  }

  lemma FirstUnit(negative: bool, g: Str, tail: Str)
    requires g != [] && g[0] != 45
    ensures ((if negative then [45] else []) + g + tail)[0] == if negative then 45 else g[0]
  {
  }

  /** Printing an amount and reading it gives its quantized value; an amount that
      rounds to zero shows no sign. */
  lemma FormatShowsQuantized(d: Dec, p: nat)
    ensures ReadAmount(Without(FormatMoneyAmount(d, p), 44)) == Quantize(d, p)
    ensures FormatMoneyAmount(d, p)[0] == 45 <==> Minor(d, p) < 0
  {
    StripsToFixed(Minor(d, p), p);
    FixedReadsBack(Minor(d, p), p);
    PrintedAmountShape(Minor(d, p), p);
  }

  // ------------------------------------------------------------- currencies

  const TWO_A: map<string, nat> :=
    map["USD" := 2, "CAD" := 2, "EUR" := 2, "GBP" := 2, "AUD" := 2, "NZD" := 2, "CHF" := 2]
  const TWO_B: map<string, nat> :=
    map["CNY" := 2, "HKD" := 2, "SGD" := 2, "INR" := 2, "MXN" := 2, "BRL" := 2, "ZAR" := 2]
  const TWO_C: map<string, nat> :=
    map["AED" := 2, "SAR" := 2, "ILS" := 2, "TRY" := 2, "THB" := 2, "MYR" := 2, "PHP" := 2]
  const TWO_D: map<string, nat> :=
    map["SEK" := 2, "NOK" := 2, "DKK" := 2, "PLN" := 2, "CZK" := 2, "HUF" := 2, "IDR" := 2]
  const ZERO: map<string, nat> :=
    map["JPY" := 0, "KRW" := 0, "VND" := 0, "CLP" := 0, "ISK" := 0, "XAF" := 0, "XOF" := 0]
  const THREE: map<string, nat> := map["KWD" := 3, "BHD" := 3, "OMR" := 3, "JOD" := 3, "TND" := 3]

  const MINOR_UNITS: map<string, nat> := TWO_A + TWO_B + TWO_C + TWO_D + ZERO + THREE

  predicate UpperKeys(m: map<string, nat>) {
    forall s <- m :: |s| == 3 && forall i | 0 <= i < 3 :: 'A' <= s[i] <= 'Z'
  }

  /** `toUpperCase` as far as it can yield a capital: U+0131 and U+017F are the dotless i
      and the long s. */
  function Upper(c: Unit): Unit {
    if 97 <= c <= 122 then c - 32 else if c == 0x131 then 73 else if c == 0x17F then 83 else c
  }

  function UpperText(t: Str): Str {
    seq<Unit>(|t|, i requires 0 <= i < |t| => Upper(t[i]))
  }

  predicate IsCode(code: Str) {
    |code| == 3 && forall i | 0 <= i < 3 :: 65 <= code[i] <= 90
  }

  function CodeText(code: Str): string
    requires IsCode(code)
  {
    seq(3, i requires 0 <= i < 3 => code[i] as char)
  }

  predicate Supported(code: Str) {
    IsCode(code) && CodeText(code) in MINOR_UNITS
  }

  /** `minorUnits` of an upper-case code. */
  function MinorUnits(code: Str): nat
    requires Supported(code)
  {
    MINOR_UNITS[CodeText(code)]
  }

  /** `formatMoney`: the sign comes before the upper-case code; an unknown code is refused. */
  function FormatMoney(d: Dec, currency: Str): Maybe<Str> {
    var code := UpperText(currency);
    if !Supported(code) then None else Some(WithCode(code, FormatMoneyAmount(d, MinorUnits(code))))
  }

  /** Refused are exactly the texts that are no registered code when upper-cased; two
      printed amounts of money are equal exactly when code and rounded amount are, each
      rounded to the decimals of its own currency. */
  lemma FormatMoneyDistinguishes(d: Dec, c: Str, e: Dec, k: Str)
    ensures FormatMoney(d, c).Some? <==> exists s <- MINOR_UNITS :: AsciiCode(s, UpperText(c))
    ensures FormatMoney(d, c).Some? && FormatMoney(e, k).Some? ==>
      (FormatMoney(d, c) == FormatMoney(e, k) <==>
        && UpperText(c) == UpperText(k)
        && Quantize(d, MinorUnits(UpperText(c))) == Quantize(e, MinorUnits(UpperText(k))))
  {
    hide MINOR_UNITS, UpperText, IsCode;
    SupportedExactly(UpperText(c));
    if FormatMoney(d, c).Some? && FormatMoney(e, k).Some? {
      var p, q := MinorUnits(UpperText(c)), MinorUnits(UpperText(k));
      PrintedAmountShape(Minor(d, p), p);
      PrintedAmountShape(Minor(e, q), q);
      CodeAndAmount(UpperText(c), FormatMoneyAmount(d, p), UpperText(k), FormatMoneyAmount(e, q));
      FormatShowsQuantized(d, p);
      FormatShowsQuantized(e, q);
    }
  }

  /** The text spells the code, unit by unit. */
  predicate AsciiCode(s: string, t: Str) {
    |s| == |t| && forall i | 0 <= i < |s| :: s[i] as int == t[i] as int
  }

  /** A unit that upper-cases to the capital: itself, its small letter, and the dotless i and
      the long s. */
  predicate SpellsCapital(c: Unit, capital: char) {
    || c as int == capital as int || c as int == capital as int + 32
    || (capital == 'I' && c == 0x131) || (capital == 'S' && c == 0x17F)
  }

  predicate SpellsCode(t: Str, s: string) {
    |t| == |s| && forall i | 0 <= i < |t| :: SpellsCapital(t[i], s[i])
  }

  lemma UpperSpells(t: Str, s: string)
    requires forall i | 0 <= i < |s| :: 'A' <= s[i] <= 'Z'
    ensures AsciiCode(s, UpperText(t)) <==> SpellsCode(t, s)
  {
    if AsciiCode(s, UpperText(t)) {
      forall i | 0 <= i < |t| ensures SpellsCapital(t[i], s[i]) {
        assert UpperText(t)[i] == Upper(t[i]) && s[i] as int == UpperText(t)[i] as int;
      }
    }
  }

  /** The texts accepted as a currency: those that spell a registered code. */
  lemma AcceptedCodes(d: Dec, c: Str, e: Dec)
    ensures FormatMoney(d, c).Some? <==> exists s <- MINOR_UNITS :: SpellsCode(c, s)
  {
    hide MINOR_UNITS, UpperText, AsciiCode, SpellsCode;
    FormatMoneyDistinguishes(d, c, e, c);
    RegisteredUpper();
    forall s <- MINOR_UNITS ensures AsciiCode(s, UpperText(c)) <==> SpellsCode(c, s) {
      UpperSpells(c, s);
    }
  }

  lemma SupportedExactly(code: Str)
    ensures Supported(code) <==> exists s <- MINOR_UNITS :: AsciiCode(s, code)
  {
    hide MINOR_UNITS;
    if s :| s in MINOR_UNITS && AsciiCode(s, code) {
      RegisteredUpper();
      assert CodeText(code) == s;
    }
    if Supported(code) {
      assert AsciiCode(CodeText(code), code);
    }
  }

  lemma UpperTwoA() ensures UpperKeys(TWO_A) {}
  lemma UpperTwoB() ensures UpperKeys(TWO_B) {}
  lemma UpperTwoC() ensures UpperKeys(TWO_C) {}
  lemma UpperTwoD() ensures UpperKeys(TWO_D) {}
  lemma UpperZero() ensures UpperKeys(ZERO) {}
  lemma UpperThree() ensures UpperKeys(THREE) {}

  lemma RegisteredUpper()
    ensures UpperKeys(MINOR_UNITS)
  {
    hide TWO_A, TWO_B, TWO_C, TWO_D, ZERO, THREE;
    UpperTwoA();
    UpperTwoB();
    UpperTwoC();
    UpperTwoD();
    UpperZero();
    UpperThree();
  }

  function WithCode(code: Str, amount: Str): Str {
    if amount != [] && amount[0] == 45 then [45] + code + [32] + amount[1..] else code + [32] + amount
  }

  /** Sign, code in capitals, one space, and the amount without its sign. */
  lemma FormatMoneyShape(d: Dec, c: Str)
    requires FormatMoney(d, c).Some?
    ensures var p := MinorUnits(UpperText(c)); var m := Minor(d, p);
      FormatMoney(d, c).value ==
      (if m < 0 then Ascii("-") else []) + UpperText(c) + Ascii(" ") + FormatMinor(Abs(m), p)
  {
    var p := MinorUnits(UpperText(c));
    var m := Minor(d, p);
    hide FormatMinor, UpperText, MinorUnits, Supported, Minor, WithCode, Ascii;
    SignedShape(m, p);
    WithCodeShape(UpperText(c), FormatMinor(Abs(m), p));
  }

  lemma SignedShape(m: int, p: nat)
    ensures FormatMinor(m, p) == (if m < 0 then [45] else []) + FormatMinor(Abs(m), p)
    ensures var u := FormatMinor(Abs(m), p); u != [] && u[0] != 45
  {
    PrintedAmountShape(m, p);
    PrintedAmountShape(Abs(m), p);
    DigitsDenote(Whole(Abs(m), p));
    hide FormatMinor, Groups, Join, Whole, Padded, Digits;
    var whole, tail := Join(Groups(Digits(Whole(Abs(m), p))), 44), if p == 0 then [] else [46] + Padded(Abs(m), p);
    assert [] + whole + tail == whole + tail && [45] + whole + tail == [45] + (whole + tail);
  }

  lemma WithCodeShape(code: Str, u: Str)
    requires u != [] && u[0] != 45
    ensures WithCode(code, [] + u) == [] + code + Ascii(" ") + u
    ensures WithCode(code, [45] + u) == Ascii("-") + code + Ascii(" ") + u
  {
    assert Ascii("-") == [45] && Ascii(" ") == [32];
    assert [] + u == u && ([45] + u)[1..] == u;
  }

  lemma CodeAndAmount(c: Str, x: Str, k: Str, y: Str)
    requires IsCode(c) && IsCode(k) && x != [] && y != []
    ensures WithCode(c, x) == WithCode(k, y) <==> c == k && x == y
  {
    var s, t := WithCode(c, x), WithCode(k, y);
    assert s[0] == if x[0] == 45 then 45 else c[0];
    assert t[0] == if y[0] == 45 then 45 else k[0];
    if s == t {
      assert x[0] == 45 <==> y[0] == 45;
      if x[0] == 45 {
        assert s[1..4] == c && t[1..4] == k && s[5..] == x[1..] && t[5..] == y[1..];
        assert x == [x[0]] + x[1..] && y == [y[0]] + y[1..];
      } else {
        assert s[..3] == c && t[..3] == k && s[4..] == x && t[4..] == y;
      }
    }
  }
}
