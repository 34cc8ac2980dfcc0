/** Exact money (src/kernel/money.ts): 50-significant-digit addition, half-up
    rounding per currency, and the digit-grouping printer. */
module Money {
  import opened Text

  /** The decimal `coef / 10^scale`. */
  datatype Dec = Dec(coef: int, scale: nat)

  function Abs(x: int): nat {
    if x < 0 then -x else x
  }

  // ---------------------------------------------------------------- rounding

  /** `x / unit` rounded to the nearest integer, ties away from zero. */
  function HalfUp(x: int, unit: nat): int
    requires unit >= 1
  {
    var q := (2 * Abs(x) + unit) / (2 * unit);
    if x < 0 then -q else q
  }

  /** `q` is the nearest integer to `x / unit`; on a tie the remainder points
      towards zero, so `q` is the one further from it. */
  ghost predicate Nearest(q: int, x: int, unit: int) {
    var r := x - q * unit;
    && -unit <= 2 * r <= unit
    && (2 * r == unit ==> q < 0)
    && (2 * r == -unit ==> q > 0)
  }

  lemma Negate(q: int, unit: int)
    ensures (-q) * unit == -(q * unit)
  {
  }

  lemma Difference(p: int, q: int, unit: int)
    ensures p * unit - q * unit == (p - q) * unit
  {
  }

  lemma Commute(a: int, b: int)
    ensures a * b == b * a
  {
  }

  lemma Assoc3(a: int, b: int, c: int)
    ensures a * b * c == a * (b * c) == a * c * b
  {
  }

  lemma HalfUpNearest(x: int, unit: nat)
    requires unit >= 1
    ensures Nearest(HalfUp(x, unit), x, unit)
  {
    var n, m := 2 * Abs(x) + unit, 2 * unit;
    var q := n / m;
    assert n == m * q + n % m;
    Assoc3(2, unit, q);
    assert unit * q == q * unit;
    Negate(q, unit);
    assert q >= 0;
  }

  /** Larger numbers are not rounded to smaller ones, so the answer is unique. */
  lemma NearestMonotone(q: int, x: int, r: int, y: int, unit: nat)
    requires unit >= 1 && x <= y && Nearest(q, x, unit) && Nearest(r, y, unit)
    ensures q <= r
  {
    if q > r {
      Difference(q, r, unit);
      AtLeast(q - r, unit);
      if q - r >= 2 {
        AtLeast(q - r - 1, unit);
        Difference(q - r, 1, unit);
      }
    }
  }

  lemma AtLeast(k: int, unit: nat)
    requires k >= 1
    ensures k * unit >= unit
  {
  }

  lemma NearestUnique(p: int, q: int, x: int, unit: nat)
    requires unit >= 1 && Nearest(p, x, unit) && Nearest(q, x, unit)
    ensures p == q
  {
    NearestMonotone(p, x, q, x, unit);
    NearestMonotone(q, x, p, x, unit);
  }

  /** Scaling number and unit together changes nothing. */
  lemma NearestScaled(q: int, x: int, unit: int, f: nat)
    requires f >= 1
    ensures Nearest(q, x, unit) <==> Nearest(q, x * f, unit * f)
  {
    var r := x - q * unit;
    Assoc3(q, unit, f);
    Difference(x, q * unit, f);
    assert x * f - q * (unit * f) == r * f;
    Assoc3(2, r, f);
    Negate(unit, f);
    Order(2 * r, unit, f);
    Order(-(unit as int), 2 * r, f);
  }

  lemma Order(a: int, b: int, f: nat)
    requires f >= 1
    ensures a <= b <==> a * f <= b * f
    ensures a == b <==> a * f == b * f
  {
    Difference(b, a, f);
    if a < b {
      AtLeast(b - a, f);
    } else if a > b {
      Negate(b - a, f);
      AtLeast(a - b, f);
    }
  }

  // -------------------------------------------- addition at 50 significant digits

  const PRECISION: nat := 100_000_000_000_000_000_000_000_000_000_000_000_000_000_000_000_000

  /** Digits beyond the fiftieth. */
  function Excess(n: nat): nat {
    if n < PRECISION then 0 else 1 + Excess(n / 10)
  }

  /** Round to 50 significant digits. */
  function Finalise(d: Dec): Dec {
    var k := Excess(Abs(d.coef));
    if k == 0 then d
    else
      var c := HalfUp(d.coef, Pow10(k));
      if k <= d.scale then Dec(c, d.scale - k) else Dec(c * Pow10(k - d.scale), 0)
  }

  /** The coefficient at a finer scale. */
  function At(d: Dec, scale: nat): int
    requires d.scale <= scale
  {
    d.coef * Pow10(scale - d.scale)
  }

  predicate SameNumber(a: Dec, b: Dec) {
    a.coef * Pow10(b.scale) == b.coef * Pow10(a.scale)
  }

  function Max(a: nat, b: nat): nat {
    if a < b then b else a
  }

  /** `a.plus(b)` */
  function Plus(a: Dec, b: Dec): Dec {
    var s := Max(a.scale, b.scale);
    Finalise(Dec(At(a, s) + At(b, s), s))
  }

  /** `sumExact`: a left fold from zero. */
  function SumFrom(total: Dec, values: seq<Dec>): Dec
    decreases values
  {
    if values == [] then total else SumFrom(Plus(total, values[0]), values[1..])
  }

  function SumExact(values: seq<Dec>): Dec {
    SumFrom(Dec(0, 0), values)
  }

  predicate ScaleAtMost(values: seq<Dec>, s: nat) {
    forall i | 0 <= i < |values| :: values[i].scale <= s
  }

  /** The true sum and the sum of sizes, in units of `10^-s`. */
  function TrueSum(values: seq<Dec>, s: nat): int
    requires ScaleAtMost(values, s)
  {
    if values == [] then 0 else At(values[0], s) + TrueSum(values[1..], s)
  }

  function TotalSize(values: seq<Dec>, s: nat): nat
    requires ScaleAtMost(values, s)
  {
    if values == [] then 0 else Abs(At(values[0], s)) + TotalSize(values[1..], s)
  }

  lemma AtFiner(d: Dec, s: nat, t: nat)
    requires d.scale <= s <= t
    ensures At(d, t) == At(d, s) * Pow10(t - s)
    ensures Abs(At(d, s)) <= Abs(At(d, t))
  {
    Pow10Sum(s - d.scale, t - s);
    assert d.coef * Pow10(t - d.scale) == d.coef * Pow10(s - d.scale) * Pow10(t - s);
    Grows(At(d, s), Pow10(t - s));
  }

  lemma Grows(a: int, f: nat)
    requires f >= 1
    ensures Abs(a) <= Abs(a * f)
  {
    if a > 0 {
      Order(1, f, a);
    } else if a < 0 {
      Order(1, f, -a);
      Negate(a, f);
    }
  }

  /** One addition is exact while its result fits 50 digits at the finer scale. */
  lemma PlusExact(a: Dec, b: Dec, s: nat)
    requires a.scale <= s && b.scale <= s
    requires Abs(At(a, s) + At(b, s)) < PRECISION
    ensures Plus(a, b).scale <= s
    ensures At(Plus(a, b), s) == At(a, s) + At(b, s)
  {
    var m := Max(a.scale, b.scale);
    var d := Dec(At(a, m) + At(b, m), m);
    AtFiner(a, m, s);
    AtFiner(b, m, s);
    Difference(At(a, m), -At(b, m), Pow10(s - m));
    Negate(At(b, m), Pow10(s - m));
    assert At(d, s) == At(a, s) + At(b, s);
    Grows(d.coef, Pow10(s - m));
  }

  lemma {:induction false} SumFromExact(total: Dec, values: seq<Dec>, s: nat)
    requires total.scale <= s && ScaleAtMost(values, s)
    requires Abs(At(total, s)) + TotalSize(values, s) < PRECISION
    ensures SumFrom(total, values).scale <= s
    ensures At(SumFrom(total, values), s) == At(total, s) + TrueSum(values, s)
    decreases values
  {
    if values != [] {
      PlusExact(total, values[0], s);
      SumFromExact(Plus(total, values[0]), values[1..], s);
    }
  }

  /** The sum is the true sum whenever the sizes together fit 50 digits. */
  lemma SumIsTrue(values: seq<Dec>, s: nat)
    requires ScaleAtMost(values, s) && TotalSize(values, s) < PRECISION
    ensures SumExact(values).scale <= s
    ensures At(SumExact(values), s) == TrueSum(values, s)
  {
    SumFromExact(Dec(0, 0), values, s);
  }

  lemma {:induction false} SizesBounded(values: seq<Dec>, s: nat, bound: nat)
    requires ScaleAtMost(values, s)
    requires forall i | 0 <= i < |values| :: Abs(At(values[i], s)) <= bound
    ensures TotalSize(values, s) <= |values| * bound
  {
    if values != [] {
      SizesBounded(values[1..], s, bound);
      assert |values| * bound == bound + |values[1..]| * bound;
    }
  }

  /** Up to 10^12 values of type numeric(38, 9) are summed exactly, in any order. */
  lemma ColumnSumsAreTrue(values: seq<Dec>, permuted: seq<Dec>)
    requires |values| <= 1_000_000_000_000
    requires ScaleAtMost(values, 9) && forall i | 0 <= i < |values| :: Abs(At(values[i], 9)) < Pow10(38)
    requires multiset(values) == multiset(permuted)
    ensures ScaleAtMost(permuted, 9)
    ensures SumExact(values).scale <= 9 && At(SumExact(values), 9) == TrueSum(values, 9)
    ensures SumExact(permuted).scale <= 9 && At(SumExact(permuted), 9) == TrueSum(values, 9)
  {
    ColumnFits(values);
    SumIsTrue(values, 9);
    forall i | 0 <= i < |permuted| ensures permuted[i] in values {
      assert permuted[i] in multiset(permuted);
    }
    SumPermuted(values, permuted, 9);
    SumIsTrue(permuted, 9);
  }

  lemma ColumnFits(values: seq<Dec>)
    requires |values| <= 1_000_000_000_000
    requires ScaleAtMost(values, 9) && forall i | 0 <= i < |values| :: Abs(At(values[i], 9)) < Pow10(38)
    ensures TotalSize(values, 9) < PRECISION
  {
    var bound := Pow10(38) - 1;
    SizesBounded(values, 9, bound);
    Pow10Limit();
    if bound > 0 {
      Order(|values|, 1_000_000_000_000, bound);
    }
  }

  /** How many digits are cut: none if the coefficient has at most 50, else the excess. */
  lemma {:induction false} ExcessExactly(n: nat)
    ensures n < PRECISION * Pow10(Excess(n))
    ensures Excess(n) > 0 ==> PRECISION * Pow10(Excess(n) - 1) <= n
  {
    assert PRECISION > 0;
    hide PRECISION;
    if n >= PRECISION {
      ExcessExactly(n / 10);
      var k := Excess(n / 10);
      TenFold(PRECISION, Pow10(k));
      if k > 0 {
        TenFold(PRECISION, Pow10(k - 1));
      }
    }
  }

  lemma TenFold(p: nat, q: nat)
    ensures p * (10 * q) == 10 * (p * q)
  {
  }

  /** A sum is rounded to 50 significant digits: exact if it has no more, otherwise the
      nearest multiple of the last place kept, ties away from zero. */
  lemma PlusRounded(a: Dec, b: Dec) returns (q: int, k: nat)
    ensures var s := Max(a.scale, b.scale);
      var exact := At(a, s) + At(b, s);
      && Nearest(q, exact, Pow10(k)) && Abs(exact) < PRECISION * Pow10(k)
      && (k == 0 ==> Plus(a, b) == Dec(exact, s) && q == exact)
      && (k > 0 ==> PRECISION * Pow10(k - 1) <= Abs(exact))
      && (0 < k <= s ==> Plus(a, b) == Dec(q, s - k))
      && (k > s ==> Plus(a, b) == Dec(q * Pow10(k - s), 0))
  {
    hide PRECISION, Excess;
    var s := Max(a.scale, b.scale);
    var exact := At(a, s) + At(b, s);
    k := Excess(Abs(exact));
    ExcessExactly(Abs(exact));
    if k == 0 {
      q := exact;
      WholeNearest(exact);
    } else {
      q := HalfUp(exact, Pow10(k));
      HalfUpNearest(exact, Pow10(k));
    }
  }

  lemma WholeNearest(x: int)
    ensures Nearest(x, x, Pow10(0))
  {
  }

  lemma Pow10Limit()
    ensures Pow10(50) == PRECISION && 1_000_000_000_000 * Pow10(38) == PRECISION
  {
    assert Pow10(12) == 1_000_000_000_000;
    Pow10Sum(12, 38);
    assert Pow10(25) == 10_000_000_000_000_000_000_000_000;
    Pow10Sum(25, 25);
  }

  /** Taking one element out of two permutations of each other. */
  lemma PermutedRest(a: seq<Dec>, b: seq<Dec>) returns (k: nat)
    requires multiset(a) == multiset(b) && a != []
    ensures k < |b| && b[k] == a[0] && multiset(a[1..]) == multiset(b[..k] + b[k + 1..])
  {
    assert a[0] in multiset(a);
    assert a[0] in multiset(b);
    k :| 0 <= k < |b| && b[k] == a[0];
    WithoutOne(b, k);
    WithoutFirst(a);
  }

  lemma WithoutFirst(a: seq<Dec>)
    requires a != []
    ensures multiset(a[1..]) == multiset(a) - multiset{a[0]}
  {
    assert a == [a[0]] + a[1..];
  }

  lemma WithoutOne(b: seq<Dec>, k: nat)
    requires k < |b|
    ensures multiset(b[..k] + b[k + 1..]) == multiset(b) - multiset{b[k]}
  {
    assert b == b[..k] + [b[k]] + b[k + 1..];
  }

  lemma {:induction false} SumPermuted(a: seq<Dec>, b: seq<Dec>, s: nat)
    requires ScaleAtMost(a, s) && ScaleAtMost(b, s) && multiset(a) == multiset(b)
    ensures TrueSum(a, s) == TrueSum(b, s) && TotalSize(a, s) == TotalSize(b, s)
  {
    assert |a| == |multiset(a)| == |multiset(b)| == |b|;
    if a != [] {
      hide At;
      var k := PermutedRest(a, b);
      SumWithout(b, k, s);
      SumPermuted(a[1..], b[..k] + b[k + 1..], s);
    }
  }

  lemma {:induction false} SumWithout(b: seq<Dec>, k: nat, s: nat)
    requires k < |b| && ScaleAtMost(b, s)
    ensures ScaleAtMost(b[..k] + b[k + 1..], s)
    ensures TrueSum(b, s) == At(b[k], s) + TrueSum(b[..k] + b[k + 1..], s)
    ensures TotalSize(b, s) == Abs(At(b[k], s)) + TotalSize(b[..k] + b[k + 1..], s)
  {
    var rest := b[..k] + b[k + 1..];
    forall i | 0 <= i < |rest| ensures rest[i].scale <= s {
      assert rest[i] == if i < k then b[i] else b[i + 1];
    }
    if k == 0 {
      assert rest == b[1..];
    } else {
      SumWithout(b[1..], k - 1, s);
      assert rest[1..] == b[1..][..k - 1] + b[1..][k..];
    }
  }

  // ------------------------------------------------------- exactly 50 digits

  /** Comparing numbers is comparing them in units of `10^-s`. */
  lemma SameAt(a: Dec, b: Dec, s: nat)
    requires a.scale <= s && b.scale <= s
    ensures SameNumber(a, b) <==> At(a, s) == At(b, s)
    ensures a.coef == 0 <==> At(a, s) == 0
  {
    hide Pow10;
    Scaled(a, b.scale, s);
    Scaled(b, a.scale, s);
    Commute(Pow10(a.scale), Pow10(b.scale));
    ScaledOrder(At(a, s), At(b, s), a.coef * Pow10(b.scale), b.coef * Pow10(a.scale),
                Pow10(a.scale) * Pow10(b.scale), Pow10(s));
    Order(a.coef, 0, Pow10(s - a.scale));
  }

  lemma ScaledOrder(a: int, b: int, c: int, d: int, f: int, g: int)
    requires f > 0 && g > 0 && a * f == c * g && b * f == d * g
    ensures a == b <==> c == d
  {
    Order(a, b, f);
    Order(c, d, g);
  }

  lemma Scaled(a: Dec, t: nat, s: nat)
    requires a.scale <= s
    ensures At(a, s) * (Pow10(a.scale) * Pow10(t)) == a.coef * Pow10(t) * Pow10(s)
  {
    var x, y, z := Pow10(s - a.scale), Pow10(a.scale), Pow10(t);
    Pow10Sum(s - a.scale, a.scale);
    Assoc3(a.coef * x, y, z);
    Assoc3(a.coef, x, y);
    Assoc3(a.coef, Pow10(s), z);
  }

  /** Sums of values below `10^digits` units of `10^-s` in all are the true sums. */
  ghost predicate SumsTrue(digits: nat, s: nat) {
    forall values | ScaleAtMost(values, s) && TotalSize(values, s) < Pow10(digits) ::
      SumExact(values).scale <= s && At(SumExact(values), s) == TrueSum(values, s)
  }

  /** Two orders of such values give the same number. */
  ghost predicate OrderFree(digits: nat, s: nat) {
    forall a, b | ScaleAtMost(a, s) && TotalSize(a, s) < Pow10(digits) && multiset(a) == multiset(b) ::
      SameNumber(SumExact(a), SumExact(b))
  }

  lemma {:induction false} Pow10Grows(m: nat, n: nat)
    requires m <= n
    ensures Pow10(m) <= Pow10(n)
  {
    if m < n {
      Pow10Grows(m, n - 1);
    }
  }

  /** Every sum is the true sum if and only if the sizes stay within 50 digits. */
  lemma SumsTrueExactlyTo50Digits(digits: nat, s: nat)
    ensures SumsTrue(digits, s) <==> digits <= 50
  {
    Pow10Limit();
    if digits <= 50 {
      Pow10Grows(digits, 50);
      forall values | ScaleAtMost(values, s) && TotalSize(values, s) < Pow10(digits)
        ensures SumExact(values).scale <= s && At(SumExact(values), s) == TrueSum(values, s)
      {
        SumIsTrue(values, s);
      }
    } else {
      Pow10Grows(51, digits);
      var long := Dec(PRECISION + 1, s);
      AtOwnScale(long);
      OneSize(long, s);
      hide At, SumExact, TotalSize, TrueSum;
      LostDigit(Dec(0, 0), long, s, PRECISION / 10);
    }
  }

  /** One value of 51 digits is already rounded. */
  lemma LostDigit(zero: Dec, long: Dec, s: nat, q: nat)
    requires zero == Dec(0, 0) && long.scale == s && 10 * q == PRECISION && At(long, s) == PRECISION + 1
    ensures SumExact([long]).scale <= s && At(SumExact([long]), s) == PRECISION
  {
    assert PRECISION > 10;
    hide Plus, At, PRECISION;
    ZeroAt(zero, s);
    PlusRounds(zero, long, s, q);
    assert [long][1..] == [];
    assert SumFrom(zero, [long]) == Plus(zero, long);
  }

  lemma OneSize(d: Dec, s: nat)
    requires d.scale == s
    ensures ScaleAtMost([d], s) && TotalSize([d], s) == Abs(d.coef) && TrueSum([d], s) == d.coef
  {
    AtOwnScale(d);
    assert [d][1..] == [];
  }

  /** And order never matters if and only if they stay within 50 digits. */
  lemma OrderFreeExactlyTo50Digits(digits: nat, s: nat)
    ensures OrderFree(digits, s) <==> digits <= 50
  {
    Pow10Limit();
    if digits <= 50 {
      Pow10Grows(digits, 50);
      forall a, b | ScaleAtMost(a, s) && TotalSize(a, s) < Pow10(digits) && multiset(a) == multiset(b)
        ensures SameNumber(SumExact(a), SumExact(b))
      {
        PermutedScales(a, b, s);
        SumPermuted(a, b, s);
        SumIsTrue(a, s);
        SumIsTrue(b, s);
        SameAt(SumExact(a), SumExact(b), s);
      }
    } else {
      Pow10Grows(51, digits);
      var a, b := OrderCanMatter(Dec(0, 0), Dec(PRECISION, s), Dec(4, s), s);
      SameAt(SumExact(a), SumExact(b), s);
    }
  }

  lemma PermutedScales(a: seq<Dec>, b: seq<Dec>, s: nat)
    requires ScaleAtMost(a, s) && multiset(a) == multiset(b)
    ensures ScaleAtMost(b, s)
  {
    forall i | 0 <= i < |b| ensures b[i] in a {
      assert b[i] in multiset(b);
    }
  }

  /** Beyond 50 digits the order of addition shows: the same three values, two sums. */
  lemma OrderCanMatter(zero: Dec, big: Dec, four: Dec, s: nat) returns (a: seq<Dec>, b: seq<Dec>)
    requires zero == Dec(0, 0) && big == Dec(PRECISION, s) && four == Dec(4, s)
    ensures multiset(a) == multiset(b) == multiset{big, four, four}
    ensures ScaleAtMost(a, s) && TotalSize(a, s) == PRECISION + 8
    ensures SumExact(a).scale <= s && At(SumExact(a), s) == PRECISION
    ensures SumExact(b).scale <= s && At(SumExact(b), s) == PRECISION + 10
  {
    a, b := [big, four, four], [four, four, big];
    hide Plus, SumExact, SumFrom, At, TotalSize, PRECISION;
    BigAndFour(zero, big, four, s);
    ThreeSizes(a, s);
    var q := Tenth();
    var x := Plus(zero, big);
    PlusRounds(zero, big, s, q);
    var y := Plus(x, four);
    PlusRounds(x, four, s, q);
    PlusRounds(y, four, s, q);
    SumThree(zero, big, four, four, x, y, Plus(y, four));
    PlusExact(zero, four, s);
    var u := Plus(zero, four);
    PlusExact(u, four, s);
    var v := Plus(u, four);
    PlusRounds(v, big, s, q + 1);
    SumThree(zero, four, four, big, u, v, Plus(v, big));
  }

  lemma BigAndFour(zero: Dec, big: Dec, four: Dec, s: nat)
    requires zero == Dec(0, 0) && big == Dec(PRECISION, s) && four == Dec(4, s)
    ensures At(zero, s) == 0 && At(big, s) == PRECISION && At(four, s) == 4
    ensures multiset([big, four, four]) == multiset([four, four, big])
  {
    hide PRECISION;
    ZeroAt(zero, s);
    AtOwnScale(big);
    AtOwnScale(four);
  }

  lemma Tenth() returns (q: nat)
    ensures 10 * q == PRECISION > 10
  {
    q := PRECISION / 10;
  }

  lemma ZeroAt(zero: Dec, s: nat)
    requires zero == Dec(0, 0)
    ensures At(zero, s) == 0
  {
  }

  lemma ThreeSizes(a: seq<Dec>, s: nat)
    requires |a| == 3 && ScaleAtMost(a, s)
    ensures TotalSize(a, s) == Abs(At(a[0], s)) + Abs(At(a[1], s)) + Abs(At(a[2], s))
  {
    hide At;
    var b := a[1..];
    var c := b[1..];
    assert c[1..] == [] && TotalSize(c, s) == Abs(At(c[0], s)) + TotalSize(c[1..], s);
    assert TotalSize(b, s) == Abs(At(b[0], s)) + TotalSize(c, s);
  }

  /** A 51-digit sum loses its last digit, half up. */
  lemma PlusRounds(a: Dec, b: Dec, s: nat, q: nat)
    requires a.scale <= s && b.scale == s && PRECISION <= At(a, s) + At(b, s) < 10 * PRECISION
    requires 10 * q - 5 <= At(a, s) + At(b, s) < 10 * q + 5
    ensures Plus(a, b).scale <= s && At(Plus(a, b), s) == 10 * q
  {
    var sum := At(a, s) + At(b, s);
    var d := Dec(sum, s);
    FinaliseOne(d);
    assert HalfUp(sum, 10) == (2 * sum + 10) / 20 == q;
    TenOnce();
    assert Plus(a, b) == Finalise(d);
  }

  lemma AtOwnScale(d: Dec)
    ensures At(d, d.scale) == d.coef
  {
  }

  lemma PlusSmall(a: Dec, b: Dec, r: Dec)
    requires a.scale == b.scale == r.scale == 0 && a.coef + b.coef == r.coef && Abs(r.coef) < PRECISION
    ensures Plus(a, b) == r
  {
    AtOwnScale(a);
    AtOwnScale(b);
  }

  lemma FinaliseOne(d: Dec)
    requires PRECISION <= Abs(d.coef) < 10 * PRECISION
    ensures Finalise(d) ==
            if d.scale >= 1 then Dec(HalfUp(d.coef, 10), d.scale - 1) else Dec(10 * HalfUp(d.coef, 10), 0)
  {
    ExcessOne(Abs(d.coef));
    TenOnce();
  }

  lemma TenOnce()
    ensures Pow10(0) == 1 && Pow10(1) == 10
  {
  }

  lemma ExcessOne(n: nat)
    requires PRECISION <= n < 10 * PRECISION
    ensures Excess(n) == 1
  {
    assert n / 10 < PRECISION;
    assert Excess(n / 10) == 0;
  }

  lemma SumThree(zero: Dec, a: Dec, b: Dec, c: Dec, s0: Dec, s1: Dec, s2: Dec)
    requires zero == Dec(0, 0) && Plus(zero, a) == s0 && Plus(s0, b) == s1 && Plus(s1, c) == s2
    ensures SumExact([a, b, c]) == s2
  {
    assert [a, b, c][1..] == [b, c] && [b, c][1..] == [c] && [c][1..] == [];
    assert SumFrom(zero, [a, b, c]) == SumFrom(s0, [b, c]);
    assert SumFrom(s0, [b, c]) == SumFrom(s1, [c]);
    assert SumFrom(s1, [c]) == SumFrom(s2, []);
  }

  // -------------------------------------------------------- quantizing money

  /** The amount in minor units of a currency with `p` decimals. */
  function Minor(d: Dec, p: nat): int {
    if d.scale <= p then At(d, p) else HalfUp(d.coef, Pow10(d.scale - p))
  }

  /** `quantizeMoney` for a currency with `p` decimals. */
  function Quantize(d: Dec, p: nat): Dec {
    Dec(Minor(d, p), p)
  }

  /** The quantized amount is the nearest multiple of the currency unit, ties away
      from zero: in units of `10^-(scale + p)` the amount is `coef * 10^p`. */
  lemma QuantizeNearest(d: Dec, p: nat)
    ensures Nearest(Minor(d, p), d.coef * Pow10(p), Pow10(d.scale))
  {
    if d.scale <= p {
      Pow10Sum(p - d.scale, d.scale);
      Assoc3(d.coef, Pow10(p - d.scale), Pow10(d.scale));
    } else {
      HalfUpNearest(d.coef, Pow10(d.scale - p));
      NearestScaled(Minor(d, p), d.coef, Pow10(d.scale - p), Pow10(p));
      Pow10Sum(d.scale - p, p);
    }
  }

  /** Larger amounts do not quantize to smaller ones. */
  lemma QuantizeMonotone(a: Dec, b: Dec, p: nat)
    requires a.coef * Pow10(b.scale) <= b.coef * Pow10(a.scale)
    ensures Minor(a, p) <= Minor(b, p)
  {
    QuantizeNearest(a, p);
    QuantizeNearest(b, p);
    var f, fa, fb := Pow10(p), Pow10(a.scale), Pow10(b.scale);
    NearestScaled(Minor(a, p), a.coef * f, fa, fb);
    NearestScaled(Minor(b, p), b.coef * f, fb, fa);
    Assoc3(a.coef, f, fb);
    Assoc3(b.coef, f, fa);
    Order(a.coef * fb, b.coef * fa, f);
    assert fa * fb == fb * fa;
    NearestMonotone(Minor(a, p), a.coef * f * fb, Minor(b, p), b.coef * f * fa, fa * fb);
  }

  /** Quantizing depends on the number alone, not on its representation. */
  lemma QuantizeRespectsValue(a: Dec, b: Dec, p: nat)
    requires SameNumber(a, b)
    ensures Quantize(a, p) == Quantize(b, p)
  {
    QuantizeMonotone(a, b, p);
    QuantizeMonotone(b, a, p);
  }

  lemma QuantizeOdd(d: Dec, p: nat)
    ensures Quantize(Dec(-d.coef, d.scale), p) == Dec(-Minor(d, p), p)
  {
    var m := Dec(-d.coef, d.scale);
    QuantizeNearest(d, p);
    QuantizeNearest(m, p);
    Negate(d.coef, Pow10(p));
    Negate(Minor(d, p), Pow10(d.scale));
    NearestUnique(-Minor(d, p), Minor(m, p), m.coef * Pow10(p), Pow10(d.scale));
  }

  lemma QuantizeIdempotent(d: Dec, p: nat)
    ensures Quantize(Quantize(d, p), p) == Quantize(d, p)
  {
    assert Pow10(0) == 1;
  }

  /** `isQuantizedMoney`: rounding changes nothing exactly for whole minor units. */
  lemma QuantizedExactlyMultiples(d: Dec, p: nat)
    ensures SameNumber(d, Quantize(d, p)) <==> exists m: int :: m * Pow10(d.scale) == d.coef * Pow10(p)
  {
    if SameNumber(d, Quantize(d, p)) {
      assert Minor(d, p) * Pow10(d.scale) == d.coef * Pow10(p);
    }
    if exists m: int :: m * Pow10(d.scale) == d.coef * Pow10(p) {
      var m: int :| m * Pow10(d.scale) == d.coef * Pow10(p);
      QuantizeNearest(d, p);
      NearestUnique(m, Minor(d, p), d.coef * Pow10(p), Pow10(d.scale));
    }
  }
}
