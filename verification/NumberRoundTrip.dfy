/** Every printed number reads back to itself, whichever of its forms it is printed in. */
module NumberRoundTrip {
  import opened Text
  import opened Json

  lemma {:induction false} DigitRunStops(d: Str, rest: Str)
    requires AllDigits(d)
    requires rest == [] || !IsDigit(rest[0])
    ensures DigitRun(d + rest) == |d|
  {
    if d == [] {
      assert d + rest == rest;
    } else {
      DigitRunStops(d[1..], rest);
      assert (d + rest)[1..] == d[1..] + rest;
    }
  }

  /** A run of digits is taken whole. */
  lemma DigitsTaken(d: Str, rest: Str)
    requires AllDigits(d)
    requires rest == [] || !IsDigit(rest[0])
    ensures DigitRun(d + rest) == |d| && (d + rest)[..|d|] == d && (d + rest)[|d|..] == rest
  {
    DigitRunStops(d, rest);
  }

  /** What may follow a number: nothing that could extend it. */
  predicate EndsNumber(rest: Str) {
    rest == [] || !(IsDigit(rest[0]) || rest[0] == 46 || rest[0] == 69 || rest[0] == 101)
  }

  function FractionText(f: Str): Str {
    if f == [] then [] else [46] + f
  }

  function ExponentText(x: Maybe<int>): Str {
    if x.Some? then PrintExponent(x.value) else []
  }

  lemma FractionReadsBack(f: Str, rest: Str)
    requires AllDigits(f)
    requires rest == [] || !(IsDigit(rest[0]) || rest[0] == 46)
    ensures ParseFraction(FractionText(f) + rest) == Done(f, rest)
  {
    if f == [] {
      assert FractionText(f) + rest == rest;
    } else {
      assert (FractionText(f) + rest)[1..] == f + rest;
      DigitsTaken(f, rest);
    }
  }

  /** An exponent follows either letter, with either sign or none. */
  lemma ExponentStep(letter: Unit, sign: Str, d: Str, rest: Str)
    requires letter == 101 || letter == 69
    requires (sign == [] || sign == [43] || sign == [45]) && d != [] && AllDigits(d) && EndsNumber(rest)
    ensures ParseExponent([letter] + sign + d + rest) == Done(Some(Signed(sign == [45], Value(d))), rest)
  {
    NotDigitNext(rest);
    hide *;
    var v := d + rest;
    var u := sign + v;
    DigitsTaken(d, rest);
    FirstDigit(d, rest);
    SignTaken(sign, v);
    ExponentAt(letter, u, v, |d|);
    Regroup([letter], sign, d, rest);
  }

  lemma NotDigitNext(rest: Str)
    requires EndsNumber(rest)
    ensures rest == [] || !IsDigit(rest[0])
  {
  }

  lemma FirstDigit(d: Str, rest: Str)
    requires d != [] && AllDigits(d)
    ensures IsDigit((d + rest)[0])
  {
  }

  lemma ExponentAt(letter: Unit, u: Str, v: Str, k: nat)
    requires (letter == 101 || letter == 69) && u != [] && v == if u[0] == 43 || u[0] == 45 then u[1..] else u
    requires 0 < k == DigitRun(v)
    ensures ParseExponent([letter] + u) == Done(Some(Signed(u[0] == 45, Value(v[..k]))), v[k..])
  {
    hide DigitRun, Value;
    assert ([letter] + u)[1..] == u;
  }

  lemma SignTaken(sign: Str, v: Str)
    requires (sign == [] || sign == [43] || sign == [45]) && v != [] && IsDigit(v[0])
    ensures var u := sign + v;
      && u != [] && (u[0] == 45 <==> sign == [45])
      && v == if u[0] == 43 || u[0] == 45 then u[1..] else u
  {
    assert sign == [] ==> sign + v == v;
    assert sign != [] ==> (sign + v)[1..] == v;
  }

  lemma ExponentReadsBack(x: Maybe<int>, rest: Str)
    requires EndsNumber(rest)
    ensures ParseExponent(ExponentText(x) + rest) == Done(x, rest)
  {
    hide ParseExponent, Digits, Value;
    if x == None {
      NoExponent(rest);
      assert ExponentText(x) + rest == rest;
    } else {
      var m := if x.value < 0 then -x.value else x.value;
      DigitsDenote(m);
      var sign: Str := [if x.value < 0 then 45 else 43];
      ExponentStep(101, sign, Digits(m), rest);
      assert [101] + sign + Digits(m) + rest == ExponentText(x) + rest;
    }
  }

  /** A point or a letter without digits behind it is refused. */
  lemma DigitsRequired(letter: Unit, sign: Str, rest: Str)
    requires letter == 101 || letter == 69
    requires sign == [43] || sign == [45]
    requires rest == [] || !IsDigit(rest[0])
    ensures ParseFraction([46] + rest) == Fail && ParseExponent([letter] + sign + rest) == Fail
  {
    assert ([46] + rest)[1..] == rest && ([letter] + sign + rest)[1..][1..] == rest;
  }

  lemma NoExponent(rest: Str)
    requires EndsNumber(rest)
    ensures ParseExponent(rest) == Done(None, rest)
  {
  }

  /** Integer part, fraction and exponent are read as they are written. */
  lemma PiecesReadBack(negative: bool, whole: Str, f: Str, x: Maybe<int>, rest: Str)
    requires whole != [] && AllDigits(whole) && AllDigits(f) && (|whole| > 1 ==> whole[0] != 48) && EndsNumber(rest)
    ensures ParseNumber(whole + FractionText(f) + ExponentText(x) + rest, negative) ==
            Done(Numeral(negative, whole, f, x), rest)
  {
    hide *;
    var u := ExponentText(x) + rest;
    ExponentReadsBack(x, rest);
    ExponentStarts(x, rest);
    FractionReadsBack(f, u);
    FractionStarts(f, u);
    DigitsTaken(whole, FractionText(f) + u);
    Regroup(whole, FractionText(f), ExponentText(x), rest);
    NumberStep(negative, whole, f, x, FractionText(f) + u, u, rest);
  }

  lemma Regroup(a: Str, b: Str, c: Str, d: Str)
    ensures a + b + c + d == a + (b + (c + d))
  {
  }

  lemma FractionStarts(f: Str, u: Str)
    requires u == [] || !IsDigit(u[0])
    ensures FractionText(f) + u == [] || !IsDigit((FractionText(f) + u)[0])
  {
  }

  lemma ExponentStarts(x: Maybe<int>, rest: Str)
    requires EndsNumber(rest)
    ensures var u := ExponentText(x) + rest; u == [] || !(IsDigit(u[0]) || u[0] == 46)
  {
    hide Digits;
  }

  lemma NumberStep(negative: bool, whole: Str, f: Str, x: Maybe<int>, t: Str, u: Str, rest: Str)
    requires whole != [] && AllDigits(whole) && AllDigits(f) && (|whole| > 1 ==> whole[0] != 48)
    requires DigitRun(whole + t) == |whole| && ParseFraction(t) == Done(f, u) && ParseExponent(u) == Done(x, rest)
    ensures ParseNumber(whole + t, negative) == Done(Numeral(negative, whole, f, x), rest)
  {
    hide Numeral, ParseExponent, ParseFraction, DigitRun;
    assert (whole + t)[..|whole|] == whole && (whole + t)[|whole|..] == t;
  }

  lemma {:induction false} LeadingZeros(n: nat, d: Str)
    requires AllDigits(d)
    ensures AllDigits(Zeros(n) + d) && Value(Zeros(n) + d) == Value(d)
    decreases n + |d|
  {
    var t := Zeros(n) + d;
    if d != [] {
      LeadingZeros(n, d[..|d| - 1]);
      assert t[..|t| - 1] == Zeros(n) + d[..|d| - 1];
    } else if n > 0 {
      LeadingZeros(n - 1, d);
      assert t[..n - 1] == Zeros(n - 1) + d;
    }
  }

  lemma ProperNumeral(x: Float, whole: Str, f: Str, e: Maybe<int>)
    requires AllDigits(whole) && AllDigits(f) && !(f == [] && e == None)
    requires Value(whole + f) == x.digits && (if e.Some? then e.value else 0) - |f| == x.tens
    ensures Numeral(x.negative, whole, f, e) == JFloat(x)
  {
    hide Value, Digits;
  }

  /** Integer part, fraction and exponent make up the text and the number. */
  predicate Pieces(x: Float, whole: Str, f: Str, e: Maybe<int>) {
    && whole != [] && AllDigits(whole) && AllDigits(f) && (|whole| > 1 ==> whole[0] != 48)
    && PrintFloat(x) == (if x.negative then [45] else []) + (whole + FractionText(f) + ExponentText(e))
    && Numeral(x.negative, whole, f, e) == JFloat(x)
  }

  /** The pieces a number with a point or an exponent is printed in. */
  lemma FloatPieces(x: Float) returns (whole: Str, f: Str, e: Maybe<int>)
    ensures Pieces(x, whole, f, e)
  {
    hide Pieces, Digits;
    DigitsDenote(x.digits);
    var d := Digits(x.digits);
    var point := |d| + x.tens;
    if 0 < point <= 21 {
      whole, f, e := d[..point], d[point..], None;
      PointForm(x, d, point);
    } else if -6 < point <= 0 {
      whole, f, e := [48], Zeros(-point) + d, None;
      ZeroForm(x, d, point);
    } else {
      whole, f, e := d[..1], d[1..], Some(point - 1);
      ExponentForm(x, d, point);
    }
  }

  lemma PointForm(x: Float, d: Str, point: int)
    requires d == Digits(x.digits) && d != [] && AllDigits(d) && Value(d) == x.digits && d[0] != 48
    requires point == |d| + x.tens && 0 < point <= 21
    ensures point < |d| && Pieces(x, d[..point], d[point..], None)
  {
    hide Digits, Value, Numeral, Zeros, PrintExponent;
    assert d[..point] + d[point..] == d;
    ProperNumeral(x, d[..point], d[point..], None);
  }

  lemma ZeroForm(x: Float, d: Str, point: int)
    requires d == Digits(x.digits) && d != [] && AllDigits(d) && Value(d) == x.digits
    requires point == |d| + x.tens && -6 < point <= 0
    ensures Pieces(x, [48], Zeros(-point) + d, None)
  {
    hide *;
    var f := Zeros(-point) + d;
    LeadingZeros(-point, d);
    LeadingZeros(1 - point, d);
    OneZeroMore(-point, d);
    OneDigit();
    ProperNumeral(x, [48], f, None);
    ZeroShown(x, d, point);
    ZeroPieces(x, f);
  }

  lemma OneDigit()
    ensures AllDigits([48])
  {
  }

  lemma ZeroShown(x: Float, d: Str, point: int)
    requires d == Digits(x.digits) && point == |d| + x.tens && -6 < point <= 0
    ensures PrintFloat(x) == (if x.negative then [45] else []) + ([48, 46] + (Zeros(-point) + d))
  {
    hide Digits, Zeros, Proper;
    assert [48, 46] + Zeros(-point) + d == [48, 46] + (Zeros(-point) + d);
  }

  lemma ZeroPieces(x: Float, f: Str)
    requires f != [] && AllDigits(f) && Numeral(x.negative, [48], f, None) == JFloat(x)
    requires PrintFloat(x) == (if x.negative then [45] else []) + ([48, 46] + f)
    ensures Pieces(x, [48], f, None)
  {
    hide Numeral, PrintFloat, Proper;
    assert [48] + ([46] + f) + [] == [48, 46] + f;
  }

  lemma ExponentForm(x: Float, d: Str, point: int)
    requires d == Digits(x.digits) && d != [] && AllDigits(d) && Value(d) == x.digits
    requires point == |d| + x.tens && !(0 < point <= 21) && !(-6 < point <= 0)
    ensures Pieces(x, d[..1], d[1..], Some(point - 1))
  {
    hide Digits, Value, Numeral, Zeros, PrintExponent;
    assert d[..1] + d[1..] == d;
    ProperNumeral(x, d[..1], d[1..], Some(point - 1));
  }

  lemma OneZeroMore(n: nat, d: Str)
    ensures [48] + (Zeros(n) + d) == Zeros(n + 1) + d && |Zeros(n)| == n
  {
  }

  /** `a` times ten to the `s` is `b` times ten to the `t`. */
  predicate SameSize(a: nat, s: int, b: nat, t: int) {
    if s <= t then a == b * Pow10(t - s) else a * Pow10(s - t) == b
  }

  /** Whatever way a number is written, it is read as that number. */
  lemma {:induction false} ShiftedDenotes(negative: bool, digits: nat, tens: int)
    ensures match Shifted(negative, digits, tens)
      case JNum(n) => n == Signed(negative, Abs(n)) && SameSize(digits, tens, Abs(n), 0)
      case JFloat(x) => x.negative == negative && SameSize(digits, tens, x.digits, x.tens)
      case _ => false
    decreases digits
  {
    hide Digits;
    if digits != 0 && digits % 10 == 0 {
      ShiftedDenotes(negative, digits / 10, tens + 1);
      match Shifted(negative, digits, tens) {
        case JNum(n) => TenthSameSize(digits, tens, Abs(n), 0);
        case JFloat(x) => TenthSameSize(digits, tens, x.digits, x.tens);
        case _ =>
      }
    }
  }

  function Abs(n: int): nat {
    if n < 0 then -n else n
  }

  lemma TenthSameSize(a: nat, s: int, b: nat, t: int)
    requires a % 10 == 0 && SameSize(a / 10, s + 1, b, t)
    ensures SameSize(a, s, b, t)
  {
  }

  lemma NatReadsBack(n: nat, negative: bool, rest: Str)
    requires EndsNumber(rest)
    ensures ParseNumber(Digits(n) + rest, negative) == Done(JNum(Signed(negative, n)), rest)
  {
    hide Digits, Value, ParseNumber;
    DigitsDenote(n);
    ShortDigits(n);
    PiecesReadBack(negative, Digits(n), [], None, rest);
    assert Digits(n) + FractionText([]) + ExponentText(None) == Digits(n);
  }

  lemma ShortDigits(n: nat)
    ensures |Digits(n)| > 1 ==> n >= 10
  {
  }

  lemma {:induction false} DigitsLength(n: nat, k: nat)
    requires k > 0
    ensures |Digits(n)| > k <==> n >= Pow10(k)
  {
    if n >= 10 && k > 1 {
      DigitsLength(n / 10, k - 1);
    } else if n < 10 {
      assert Pow10(k) >= 10;
    } else {
      assert Pow10(1) == 10;
      DigitsDenote(n / 10);
    }
  }

  /** It takes 22 digits or more before its point: its size is at least 10^21. */
  predicate Large(x: Float) {
    x.tens >= 0 || x.digits >= Pow10(21 - x.tens)
  }

  /** Its size is less than 10^-6. */
  predicate Small(x: Float) {
    x.tens <= -6 && x.digits < Pow10(-x.tens - 6)
  }

  /** An exponent is printed exactly for what is large or small. */
  lemma FloatNotation(x: Float)
    ensures 101 in PrintFloat(x) <==> Large(x) || Small(x)
  {
    var point := |Digits(x.digits)| + x.tens;
    PointPlaced(x);
    ExponentShown(x);
  }

  /** Where the point stands says how large the number is. */
  lemma PointPlaced(x: Float)
    ensures var point := |Digits(x.digits)| + x.tens;
      (Large(x) <==> point > 21) && (Small(x) <==> point <= -6)
  {
    DigitsDenote(x.digits);
    if x.tens < 0 {
      DigitsLength(x.digits, 21 - x.tens);
    }
    if x.tens < -6 {
      DigitsLength(x.digits, -x.tens - 6);
    }
    assert Pow10(0) == 1;
    hide Digits, Value, Pow10;
  }

  lemma ExponentShown(x: Float)
    ensures var point := |Digits(x.digits)| + x.tens;
      101 in PrintFloat(x) <==> point > 21 || point <= -6
  {
    DigitsDenote(x.digits);
    var d := Digits(x.digits);
    hide Digits, Value, Pow10, PrintExponent, Zeros;
    var point := |d| + x.tens;
    NoLetter(d);
    if 0 < point <= 21 {
      assert d == d[..point] + d[point..];
    } else if -6 < point <= 0 {
      ZerosPlain(-point);
    } else {
      ExponentNamed(point - 1);
      assert PrintExponent(point - 1)[0] in PrintFloat(x);
    }
  }

  lemma NoLetter(d: Str)
    requires AllDigits(d)
    ensures 101 !in d
  {
  }

  lemma ZerosPlain(n: nat)
    ensures 101 !in Zeros(n)
  {
  }

  lemma ExponentNamed(x: int)
    ensures PrintExponent(x) != [] && PrintExponent(x)[0] == 101
  {
  }

  lemma FloatReadsBack(x: Float, rest: Str)
    requires EndsNumber(rest)
    ensures PrintFloat(x) != [] && (PrintFloat(x)[0] == 45 <==> x.negative)
    ensures var u := if x.negative then PrintFloat(x)[1..] else PrintFloat(x);
            u != [] && IsDigit(u[0]) && ParseNumber(u + rest, x.negative) == Done(JFloat(x), rest)
  {
    var whole, f, e := FloatPieces(x);
    PiecesReadBack(x.negative, whole, f, e, rest);
    var u := whole + FractionText(f) + ExponentText(e);
    assert PrintFloat(x)[if x.negative then 1 else 0..] == u;
    assert IsDigit(whole[0]) && u[0] == whole[0];
  }
}
