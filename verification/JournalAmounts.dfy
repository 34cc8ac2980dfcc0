/** Amounts and the balance gate of the manual journal form
    (src/app/_components/real-journal-draft-form.client.tsx). */
module JournalAmounts {
  import opened Text
  import opened Money

  datatype DraftLine = DraftLine(id: nat, account: Str, memo: Str, debit: Str, credit: Str)
  datatype MaybeDec = NotMoney | Amount(d: Dec)

  function Normalized(value: Str): Str {
    if Trim(value) == [] then [48] else Trim(value)
  }

  /** Blank is the digit zero; any other text loses the white space around it. */
  lemma NormalizedExactly(value: Str, t: Str)
    ensures Normalized(value) == t <==>
      if White(value) then t == Ascii("0") else t != [] && Tight(t) && Padded(value, t)
  {
    hide Trim, Padded, White;
    TrimExactly(value, Trim(value));
    TrimExactly(value, t);
    BlankExactly(value);
  }

  lemma BlankExactly(value: Str)
    ensures Trim(value) == [] <==> White(value)
  {
    if White(value) {
      TrimPadded(value, [], []);
      assert value + [] + [] == value;
    }
    if Trim(value) == [] {
      TrimExactly(value, []);
      var w, v :| White(w) && White(v) && value == w + [] + v;
    }
  }

  /** `money`: trimmed, blank is zero, `/^\d+(?:\.\d{1,9})?$/`, then exact. Accepted
      amounts are not negative and have at most nine decimals. */
  function ParseMoney(value: Str): (m: MaybeDec)
    ensures m.Amount? ==> m.d.coef >= 0 && m.d.scale <= 9
  {
    var t := Normalized(value);
    var k := DigitRun(t);
    if k == 0 then NotMoney
    else if k == |t| then Amount(Dec(Value(t), 0))
    else if t[k] == 46 && 1 <= |t| - k - 1 <= 9 && AllDigits(t[k + 1..]) then
      Amount(Dec(Value(t[..k] + t[k + 1..]), |t| - k - 1))
    else NotMoney
  }

  /** A whole part of at least one digit, and after a point up to nine decimals. */
  predicate SpellsAmount(t: Str, whole: Str, decimals: Str) {
    && whole != [] && AllDigits(whole) && AllDigits(decimals) && |decimals| <= 9
    && t == whole + if decimals == [] then [] else Ascii(".") + decimals
  }

  /** Accepted is exactly what spells an amount, and then it is that amount. */
  lemma AmountExactly(value: Str, whole: Str, decimals: Str)
    ensures SpellsAmount(Normalized(value), whole, decimals) ==>
      ParseMoney(value) == Amount(Dec(Value(whole + decimals), |decimals|))
    ensures ParseMoney(value).Amount? ==> exists w, d :: SpellsAmount(Normalized(value), w, d)
  {
    var t := Normalized(value);
    var k := DigitRun(t);
    hide Normalized, Trim, DigitRun, Value;
    assert Ascii(".") == [46];
    if ParseMoney(value).Amount? {
      assert SpellsAmount(t, t[..k], if k == |t| then [] else t[k + 1..]) by {
        assert k < |t| ==> t == t[..k] + ([t[k]] + t[k + 1..]);
      }
    }
    if SpellsAmount(t, whole, decimals) {
      RunOf(t, |whole|);
      assert whole + [] == whole;
      assert t[..|whole|] == whole;
      assert decimals != [] ==> t[|whole|] == 46 && t[|whole| + 1..] == decimals;
    }
  }

  lemma {:induction false} RunOf(t: Str, k: nat)
    requires k <= |t| && AllDigits(t[..k]) && (k < |t| ==> !IsDigit(t[k]))
    ensures DigitRun(t) == k
  {
    if k > 0 {
      assert t[..k][0] == t[0] && t[1..][..k - 1] == t[..k][1..];
      RunOf(t[1..], k - 1);
    }
  }

  function OrZero(m: MaybeDec): Dec {
    if m.Amount? then m.d else Dec(0, 0)
  }

  function Debits(lines: seq<DraftLine>): seq<Dec> {
    seq(|lines|, i requires 0 <= i < |lines| => OrZero(ParseMoney(lines[i].debit)))
  }

  function Credits(lines: seq<DraftLine>): seq<Dec> {
    seq(|lines|, i requires 0 <= i < |lines| => OrZero(ParseMoney(lines[i].credit)))
  }

  predicate AllMoney(lines: seq<DraftLine>) {
    forall i | 0 <= i < |lines| :: ParseMoney(lines[i].debit).Amount? && ParseMoney(lines[i].credit).Amount?
  }

  /** The gate of `save`: computed totals equal and not zero. */
  predicate Balanced(lines: seq<DraftLine>) {
    var debit, credit := SumExact(Debits(lines)), SumExact(Credits(lines));
    debit.coef != 0 && SameNumber(debit, credit)
  }

  lemma AmountScales(lines: seq<DraftLine>)
    ensures ScaleAtMost(Debits(lines), 9) && ScaleAtMost(Credits(lines), 9)
  {
  }

  /** The books: true debits equal true credits and are not zero. */
  predicate TrulyBalanced(lines: seq<DraftLine>) {
    AmountScales(lines);
    TrueSum(Debits(lines), 9) == TrueSum(Credits(lines), 9) != 0
  }

  /** The amount of a field, in billionths, is below `limit`. */
  predicate FieldBelow(value: Str, limit: nat) {
    At(OrZero(ParseMoney(value)), 9) < limit
  }

  predicate AmountsBelow(lines: seq<DraftLine>, limit: nat) {
    forall i | 0 <= i < |lines| :: FieldBelow(lines[i].debit, limit) && FieldBelow(lines[i].credit, limit)
  }

  lemma TotalsFit(lines: seq<DraftLine>, limit: nat)
    requires |lines| <= 200 && AmountsBelow(lines, limit) && 1 <= limit <= Pow10(47)
    ensures ScaleAtMost(Debits(lines), 9) && ScaleAtMost(Credits(lines), 9)
    ensures TotalSize(Debits(lines), 9) < PRECISION && TotalSize(Credits(lines), 9) < PRECISION
  {
    AmountScales(lines);
    forall i | 0 <= i < |lines|
      ensures 0 <= At(Debits(lines)[i], 9) < limit && 0 <= At(Credits(lines)[i], 9) < limit
    {
      FieldRange(lines[i].debit, limit);
      FieldRange(lines[i].credit, limit);
    }
    TotalFits(Debits(lines), limit);
    TotalFits(Credits(lines), limit);
  }

  lemma FieldRange(value: Str, limit: nat)
    requires FieldBelow(value, limit)
    ensures 0 <= At(OrZero(ParseMoney(value)), 9) < limit
  {
    NeverNegative(OrZero(ParseMoney(value)));
  }

  lemma TotalFits(amounts: seq<Dec>, limit: nat)
    requires |amounts| <= 200 && ScaleAtMost(amounts, 9) && 1 <= limit <= Pow10(47)
    requires forall i | 0 <= i < |amounts| :: 0 <= At(amounts[i], 9) < limit
    ensures TotalSize(amounts, 9) < PRECISION
  {
    SizesBounded(amounts, 9, limit);
    Order(|amounts|, 200, limit);
    TwoHundredFit();
  }

  lemma NeverNegative(d: Dec)
    requires d.coef >= 0 && d.scale <= 9
    ensures At(d, 9) >= 0
  {
    Order(0, d.coef, Pow10(9 - d.scale));
  }

  lemma TwoHundredFit()
    ensures 200 * Pow10(47) < PRECISION
  {
    Pow10Limit();
    Pow10Sum(3, 47);
    assert Pow10(3) == 1000;
  }

  /** Up to 200 lines with amounts below 10^38, the gate passes exactly the journals
      that truly balance. */
  lemma GateIsTrue(lines: seq<DraftLine>, limit: nat)
    requires |lines| <= 200 && AmountsBelow(lines, limit) && 1 <= limit <= Pow10(47)
    ensures Balanced(lines) <==> TrulyBalanced(lines)
  {
    TotalsFit(lines, limit);
    SumIsTrue(Debits(lines), 9);
    SumIsTrue(Credits(lines), 9);
    SameAt(SumExact(Debits(lines)), SumExact(Credits(lines)), 9);
  }

  // ------------------------------------------------- the bound is the right one

  /** The amount 999...9 with 39 digits. */
  const NINES: nat := 999_999_999_999_999_999_999_999_999_999_999_999_999

  function Wide(w: Str): DraftLine {
    DraftLine(1, [], [], w, w)
  }

  function Crumb(): DraftLine {
    DraftLine(2, [], [], [48, 46, 48, 48, 48, 48, 48, 48, 48, 48, 49], [48])
  }

  /** 101 lines debit and credit the amount `n`, one more debits 0.000000001. */
  function Fooling(n: nat): seq<DraftLine> {
    seq(101, _ => Wide(Digits(n))) + [Crumb()]
  }

  lemma {:induction false} RunOfDigits(t: Str)
    requires AllDigits(t)
    ensures DigitRun(t) == |t|
  {
    if t != [] {
      RunOfDigits(t[1..]);
    }
  }

  lemma DigitsParse(n: nat)
    ensures ParseMoney(Digits(n)) == Amount(Dec(n, 0))
  {
    DigitsDenote(n);
    RunOfDigits(Digits(n));
  }

  lemma CrumbParses()
    ensures ParseMoney(Crumb().debit) == Amount(Dec(1, 9)) && ParseMoney(Crumb().credit) == Amount(Dec(0, 0))
  {
    PointOneParses(Crumb().debit, [48, 48, 48, 48, 48, 48, 48, 48, 49]);
    ValueOfOne();
    ZeroParses(Crumb().credit);
  }

  /** Zero, a point and nine digits. */
  lemma PointOneParses(t: Str, f: Str)
    requires |f| == 9 && AllDigits(f) && t == [48, 46] + f
    ensures AllDigits([48] + f) && ParseMoney(t) == Amount(Dec(Value([48] + f), 9))
  {
    assert t[1..][0] == 46;
    assert DigitRun(t) == 1;
    assert t[..1] == [48] && t[2..] == f;
    assert Trim(t) == t;
  }

  lemma ZeroParses(t: Str)
    requires t == [48]
    ensures ParseMoney(t) == Amount(Dec(0, 0))
  {
    assert t[1..] == [] && t[..0] == [];
    assert DigitRun(t) == 1 && Value(t) == 0;
  }

  lemma ValueOfOne()
    ensures Value([48] + [48, 48, 48, 48, 48, 48, 48, 48, 49]) == 1
  {
    var n: Str := [48, 48, 48, 48, 48, 48, 48, 48, 48, 49];
    forall k | 0 <= k <= 9 ensures Value(n[..k]) == 0 {
      ZerosValue(n[..k]);
    }
    assert n[..9] == [48, 48, 48, 48, 48, 48, 48, 48, 48];
    assert [48] + [48, 48, 48, 48, 48, 48, 48, 48, 49] == n;
  }

  lemma {:induction false} ZerosValue(s: Str)
    requires forall i | 0 <= i < |s| :: s[i] == 48
    ensures Value(s) == 0
  {
    if s != [] {
      ZerosValue(s[..|s| - 1]);
    }
  }

  lemma {:induction false} SumSnoc(total: Dec, values: seq<Dec>, last: Dec)
    ensures SumFrom(total, values + [last]) == Plus(SumFrom(total, values), last)
    decreases values
  {
    if values == [] {
      assert values + [last] == [last] && [last][1..] == [];
    } else {
      SumSnoc(Plus(total, values[0]), values[1..], last);
      assert (values + [last])[1..] == values[1..] + [last];
    }
  }

  lemma {:induction false} TrueSumSnoc(values: seq<Dec>, last: Dec)
    requires ScaleAtMost(values, 9) && last.scale <= 9
    ensures ScaleAtMost(values + [last], 9)
    ensures TrueSum(values + [last], 9) == TrueSum(values, 9) + At(last, 9)
  {
    if values == [] {
      assert values + [last] == [last] && [last][1..] == [];
    } else {
      TrueSumSnoc(values[1..], last);
      assert (values + [last])[1..] == values[1..] + [last];
    }
  }

  function Copies(k: nat, n: nat): seq<Dec> {
    seq(k, _ => Dec(n, 0))
  }

  /** `k` times `n`, added up. */
  function Repeated(k: nat, n: nat): nat {
    if k == 0 then 0 else n + Repeated(k - 1, n)
  }

  lemma {:induction false} RepeatedTimes(k: nat, n: nat)
    ensures Repeated(k, n) == k * n
  {
    if k > 0 {
      RepeatedTimes(k - 1, n);
      Difference(k, 1, n);
    }
  }

  lemma {:induction false} CopiesTotal(k: nat, n: nat)
    ensures ScaleAtMost(Copies(k, n), 0)
    ensures TrueSum(Copies(k, n), 0) == TotalSize(Copies(k, n), 0) == Repeated(k, n)
    decreases k
  {
    if k > 0 {
      CopiesTotal(k - 1, n);
      assert Copies(k, n)[1..] == Copies(k - 1, n);
      AtOwnScale(Dec(n, 0));
    }
  }

  lemma SumCopies(k: nat, n: nat, total: Dec)
    requires total.scale == 0 && total.coef == k * n < PRECISION
    ensures SumExact(Copies(k, n)) == total
  {
    hide SumExact, TotalSize, TrueSum, PRECISION, Copies;
    CopiesTotal(k, n);
    RepeatedTimes(k, n);
    SumIsTrue(Copies(k, n), 0);
    AtOwnScale(SumExact(Copies(k, n)));
  }

  lemma FoolingLines(n: nat, i: nat)
    requires i < 102
    ensures |Fooling(n)| == 102 && Fooling(n)[i] == if i < 101 then Wide(Digits(n)) else Crumb()
  {
  }

  /** The amounts of the fooling journal, field by field. */
  lemma FoolingField(n: nat, i: nat)
    requires i < 102
    ensures |Fooling(n)| == 102
    ensures ParseMoney(Fooling(n)[i].debit) == Amount(if i < 101 then Dec(n, 0) else Dec(1, 9))
    ensures ParseMoney(Fooling(n)[i].credit) == Amount(if i < 101 then Dec(n, 0) else Dec(0, 0))
  {
    hide ParseMoney, Fooling, Digits;
    FoolingLines(n, i);
    DigitsParse(n);
    CrumbParses();
  }

  lemma FoolingAmounts(n: nat)
    ensures Debits(Fooling(n)) == Copies(101, n) + [Dec(1, 9)]
    ensures Credits(Fooling(n)) == Copies(101, n) + [Dec(0, 0)]
    ensures |Fooling(n)| == 102 && AllMoney(Fooling(n))
  {
    hide ParseMoney, Fooling;
    FoolingField(n, 0);
    forall i | 0 <= i < 102
      ensures ParseMoney(Fooling(n)[i].debit) == Amount(if i < 101 then Dec(n, 0) else Dec(1, 9))
      ensures ParseMoney(Fooling(n)[i].credit) == Amount(if i < 101 then Dec(n, 0) else Dec(0, 0))
    {
      FoolingField(n, i);
    }
  }

  /** The last billionth is rounded away. */
  lemma CrumbLost(total: Dec, crumb: Dec, result: Dec)
    requires total.scale == 0 && crumb == Dec(1, 9) && result.scale == 8
    requires PRECISION <= total.coef * 1_000_000_000 && total.coef * 1_000_000_000 + 1 < 10 * PRECISION
    requires result.coef == total.coef * 100_000_000
    ensures Plus(total, crumb) == result
  {
    assert Pow10(9) == 1_000_000_000;
    AtOwnScale(crumb);
    var d := Dec(total.coef * 1_000_000_000 + 1, 9);
    FinaliseOne(d);
    assert HalfUp(d.coef, 10) == (2 * d.coef + 10) / 20 == result.coef;
  }

  lemma FoolingTrueSums(n: nat)
    ensures !TrulyBalanced(Fooling(n))
  {
    hide Fooling;
    FoolingAmounts(n);
    TrueSumSnoc(Copies(101, n), Dec(1, 9));
    TrueSumSnoc(Copies(101, n), Dec(0, 0));
    AtOwnScale(Dec(1, 9));
  }

  lemma FoolingPasses(n: nat, zero: Dec, crumb: Dec, total: Dec, rounded: Dec)
    requires n == NINES && zero == Dec(0, 0) && crumb == Dec(1, 9) && total.scale == 0 && total.coef == 101 * n
    requires rounded.scale == 8 && rounded.coef == total.coef * 100_000_000
    ensures Balanced(Fooling(n))
  {
    hide Fooling;
    FoolingAmounts(n);
    SumCopies(101, n, total);
    SumSnoc(zero, Copies(101, n), crumb);
    SumSnoc(zero, Copies(101, n), zero);
    CrumbLost(total, crumb, rounded);
    PlusSmall(total, zero, total);
    SameAcrossScales(total, rounded);
  }

  lemma FoolingBelow(n: nat, limit: nat)
    requires n == NINES && limit == Pow10(48)
    ensures AmountsBelow(Fooling(n), limit)
  {
    hide ParseMoney, Fooling;
    FoolingField(n, 0);
    WideBelow(Dec(n, 0), limit);
    WideBelow(Dec(1, 9), limit);
    WideBelow(Dec(0, 0), limit);
    forall i | 0 <= i < 102
      ensures FieldBelow(Fooling(n)[i].debit, limit) && FieldBelow(Fooling(n)[i].credit, limit)
    {
      FoolingField(n, i);
    }
  }

  /** With 39 integer digits the gate passes a journal that does not balance. */
  lemma GateFooled(n: nat, limit: nat)
    requires n == NINES && limit == Pow10(48)
    ensures |Fooling(n)| <= 200 && AllMoney(Fooling(n)) && AmountsBelow(Fooling(n), limit)
    ensures Balanced(Fooling(n)) && !TrulyBalanced(Fooling(n))
  {
    hide Fooling, Balanced, TrulyBalanced, AmountsBelow, AllMoney;
    FoolingAmounts(n);
    FoolingPasses(n, Dec(0, 0), Dec(1, 9), Dec(101 * n, 0), Dec(101 * n * 100_000_000, 8));
    FoolingTrueSums(n);
    FoolingBelow(n, limit);
  }

  lemma SameAcrossScales(total: Dec, rounded: Dec)
    requires total.scale == 0 && total.coef > 0
    requires rounded.scale == 8 && rounded.coef == total.coef * 100_000_000
    ensures SameNumber(rounded, total) && rounded.coef != 0
  {
    assert Pow10(8) == 100_000_000 && Pow10(0) == 1;
  }

  lemma WideBelow(d: Dec, limit: nat)
    requires d in {Dec(NINES, 0), Dec(1, 9), Dec(0, 0)} && limit == Pow10(48)
    ensures At(d, 9) < limit
  {
    assert Pow10(9) == 1_000_000_000 && Pow10(0) == 1;
    TwentyFourZeros();
    Pow10Sum(24, 24);
  }

  lemma TwentyFourZeros()
    ensures Pow10(24) == 1_000_000_000_000_000_000_000_000
  {
    assert Pow10(8) == 100_000_000;
    Pow10Sum(8, 8);
    Pow10Sum(16, 8);
  }

  lemma BelowGrows(lines: seq<DraftLine>, limit: nat, wider: nat)
    requires AmountsBelow(lines, limit) && limit <= wider
    ensures AmountsBelow(lines, wider)
  {
    forall i | 0 <= i < |lines|
      ensures FieldBelow(lines[i].debit, wider) && FieldBelow(lines[i].credit, wider)
    {
      assert FieldBelow(lines[i].debit, limit) && FieldBelow(lines[i].credit, limit);
    }
  }

  /** The gate judges every journal of at most 200 lines with amounts below `limit` rightly. */
  ghost predicate GateRight(limit: nat) {
    forall lines | |lines| <= 200 && AllMoney(lines) && AmountsBelow(lines, limit) ::
      Balanced(lines) <==> TrulyBalanced(lines)
  }

  /** That is so exactly while amounts have at most 38 integer digits. */
  lemma GateTrueExactlyTo38Digits(digits: nat)
    ensures GateRight(Pow10(digits + 9)) <==> digits <= 38
  {
    if digits <= 38 {
      GateRightTo38(digits);
    } else {
      GateWrongBeyond(digits);
    }
  }

  lemma GateRightTo38(digits: nat)
    requires digits <= 38
    ensures GateRight(Pow10(digits + 9))
  {
    hide Balanced, TrulyBalanced, AllMoney, AmountsBelow, Pow10;
    var limit := Pow10(digits + 9);
    Pow10Grows(digits + 9, 47);
    forall lines | |lines| <= 200 && AllMoney(lines) && AmountsBelow(lines, limit)
      ensures Balanced(lines) <==> TrulyBalanced(lines)
    {
      GateIsTrue(lines, limit);
    }
  }

  lemma GateWrongBeyond(digits: nat)
    requires digits > 38
    ensures !GateRight(Pow10(digits + 9))
  {
    hide Balanced, TrulyBalanced, AllMoney, AmountsBelow, Fooling, Pow10, NINES;
    var n := NINES;
    Pow10Grows(48, digits + 9);
    GateFooled(n, Pow10(48));
    BelowGrows(Fooling(n), Pow10(48), Pow10(digits + 9));
  }
}
