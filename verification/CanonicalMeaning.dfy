/** Canonical text as an identity: it reads back to the normal form, two values
    share it exactly when they agree as data, and it is a fixed point. */
module CanonicalMeaning {
  import opened Text
  import opened Json
  import opened JsonRoundTrip
  import opened Sorting
  import opened Canonical
  import opened CanonicalTrees

  // ------------------------------------------------ agreement of two values

  predicate Blank(t: Tree) {
    t.NullLeaf? || (t.NumberLeaf? && t.num.NonFinite?)
  }

  /** A finite number is its coefficient times a power of ten. */
  function Coefficient(num: JsNumber): int
    requires !num.NonFinite?
  {
    match num
    case Int(n) => n
    case Scientific(x) => Signed(x.negative, x.digits)
    case MinusZero => 0
  }

  function Tens(num: JsNumber): int
    requires !num.NonFinite?
  {
    if num.Scientific? then num.x.tens else 0
  }

  /** Equal as numbers: equal once brought to the smaller power of ten. */
  predicate SameAmount(a: JsNumber, b: JsNumber)
    requires !a.NonFinite? && !b.NonFinite?
  {
    var least := if Tens(a) < Tens(b) then Tens(a) else Tens(b);
    Coefficient(a) * Pow10(Tens(a) - least) == Coefficient(b) * Pow10(Tens(b) - least)
  }

  /** Agreement as JSON data, with no reference to texts or sorting: slot by slot,
      and property by property whatever their order. */
  ghost predicate Same(a: Tree, b: Tree)
    decreases a
  {
    match a
    case Nothing => b.Nothing?
    case NullLeaf => Blank(b)
    case BoolLeaf(x) => b == BoolLeaf(x)
    case StringLeaf(s) => b == StringLeaf(s)
    case NumberLeaf(num) =>
      if num.NonFinite? then Blank(b)
      else b.NumberLeaf? && !b.num.NonFinite? && SameAmount(num, b.num)
    case ArrayNode(xs) =>
      && b.ArrayNode? && |xs| == |b.slots|
      && forall i | 0 <= i < |xs| ::
           if xs[i].Nothing? || Blank(xs[i]) then b.slots[i].Nothing? || Blank(b.slots[i])
           else Same(xs[i], b.slots[i])
    case ObjectNode(es) =>
      && b.ObjectNode?
      && (forall i | 0 <= i < |es| && !es[i].val.Nothing? ::
            exists k | 0 <= k < |b.fields| :: b.fields[k].key == es[i].key && Same(es[i].val, b.fields[k].val))
      && (forall k | 0 <= k < |b.fields| && !b.fields[k].val.Nothing? ::
            exists i | 0 <= i < |es| :: es[i].key == b.fields[k].key && Same(es[i].val, b.fields[k].val))
  }

  ghost predicate DistinctKeys(t: Tree)
    decreases t
  {
    match t
    case ArrayNode(slots) => forall i | 0 <= i < |slots| :: DistinctKeys(slots[i])
    case ObjectNode(fields) => Distinct(fields) && forall i | 0 <= i < |fields| :: DistinctKeys(fields[i].val)
    case _ => true
  }

  /** Unfoldings of a graph have distinct keys. */
  lemma {:induction false} UnfoldingDistinct(v: JsValue, t: Tree, heap: set<Cell>)
    requires Graph(heap) && Unfolds(v, t, heap)
    ensures DistinctKeys(t)
    decreases t
  {
    if t.ArrayNode? {
      forall i | 0 <= i < |t.slots| ensures DistinctKeys(t.slots[i]) {
        UnfoldingDistinct(v.cell.slots[i], t.slots[i], heap);
      }
    } else if t.ObjectNode? {
      assert Distinct(v.cell.props);
      SortPaired(v.cell.props, t.fields);
      forall i | 0 <= i < |t.fields| ensures DistinctKeys(t.fields[i].val) {
        UnfoldingDistinct(v.cell.props[i].val, t.fields[i].val, heap);
      }
    }
  }

  // ------------------------------------------------ membership in normal forms

  lemma {:induction false} NormSlotAt(slots: seq<Tree>, i: nat)
    requires i < |slots|
    ensures NormSlots(slots)[i] == OrNull(Norm(slots[i]))
  {
    if i > 0 {
      NormSlotAt(slots[1..], i - 1);
    }
  }

  /** The kept fields are exactly the normal forms of the fields present. */
  lemma {:induction false} NormFieldIn(fields: seq<Entry<Tree>>, x: Entry<Json>)
    ensures x in NormFields(fields) <==>
            exists i | 0 <= i < |fields| :: fields[i].key == x.key && Norm(fields[i].val) == Kept(x.val)
  {
    if fields != [] {
      var rest := fields[1..];
      NormFieldIn(rest, x);
      if exists i | 0 <= i < |fields| :: fields[i].key == x.key && Norm(fields[i].val) == Kept(x.val) {
        var i :| 0 <= i < |fields| && fields[i].key == x.key && Norm(fields[i].val) == Kept(x.val);
        if i > 0 {
          assert rest[i - 1] == fields[i];
        }
      }
      if x in NormFields(rest) {
        var i :| 0 <= i < |rest| && rest[i].key == x.key && Norm(rest[i].val) == Kept(x.val);
        assert fields[i + 1] == rest[i];
      }
    }
  }

  lemma {:induction false} NormFieldsDistinct(fields: seq<Entry<Tree>>)
    requires Distinct(fields)
    ensures Distinct(NormFields(fields))
  {
    if fields != [] {
      NormFieldsDistinct(fields[1..]);
      forall x <- NormFields(fields[1..]) ensures x.key != fields[0].key {
        NormFieldIn(fields[1..], x);
      }
    }
  }

  lemma NormOrdered(fields: seq<Entry<Tree>>)
    requires Distinct(fields)
    ensures Ordered(Sort(NormFields(fields))) && Ascending(Sort(NormFields(fields)))
  {
    NormFieldsDistinct(fields);
    SortOrdered(NormFields(fields));
  }

  // ---------------------------------------------- same text, same value

  lemma {:induction false} DigitsFloor(n: nat)
    requires n > 0
    ensures n >= Pow10(|Digits(n)| - 1)
  {
    if n >= 10 {
      DigitsFloor(n / 10);
    }
  }

  /** A multiple of ten or more is no coefficient in lowest terms. */
  lemma TenDivides(c: int, d: int, k: nat)
    requires c == d * Pow10(k) && k > 0
    ensures c % 10 == 0
  {
    assert c == 10 * (d * Pow10(k - 1));
  }

  lemma FloatNotInteger(x: Float, n: SafePrint)
    ensures !SameAmount(Scientific(x), Int(n)) && !SameAmount(Int(n), Scientific(x))
  {
    hide Pow10, Proper;
    NoTens();
    if x.tens < 0 {
      NotMultiple(x, n, -x.tens);
    } else {
      FloatSize(x);
      SignedTimes(x.negative, x.digits, Pow10(x.tens));
    }
  }

  lemma NoTens()
    ensures Pow10(0) == 1
  {
  }

  lemma NotMultiple(x: Float, d: int, k: nat)
    requires k > 0
    ensures Signed(x.negative, x.digits) != d * Pow10(k)
  {
    if Signed(x.negative, x.digits) == d * Pow10(k) {
      TenDivides(Signed(x.negative, x.digits), d, k);
    }
  }

  lemma SignedTimes(negative: bool, n: nat, f: nat)
    ensures Signed(negative, n) * f == Signed(negative, n * f)
  {
  }

  lemma FloatSize(x: Float)
    requires x.tens >= 0
    ensures x.digits * Pow10(x.tens) >= Pow10(21) == 1_000_000_000_000_000_000_000
  {
    hide Digits, Pow10;
    DigitsFloor(x.digits);
    TwentyOneZeros();
    DigitsDenote(x.digits);
    var k := |Digits(x.digits)| - 1;
    Pow10Sum(k, x.tens);
    Pow10Sum(21, k + x.tens - 21);
    Smaller(Pow10(k), x.digits, Pow10(x.tens));
    Smaller(1, Pow10(k + x.tens - 21), Pow10(21));
  }

  lemma TwentyOneZeros()
    ensures Pow10(21) == 1_000_000_000_000_000_000_000
  {
    assert Pow10(7) == 10_000_000;
    Pow10Sum(7, 7);
    Pow10Sum(14, 7);
  }

  lemma Smaller(a: nat, b: nat, f: nat)
    requires a <= b
    ensures a * f <= b * f
  {
  }

  lemma FloatsDiffer(x: Float, y: Float)
    ensures SameAmount(Scientific(x), Scientific(y)) <==> x == y
  {
    if x.tens < y.tens {
      NotMultiple(x, Signed(y.negative, y.digits), y.tens - x.tens);
    } else if y.tens < x.tens {
      NotMultiple(y, Signed(x.negative, x.digits), x.tens - y.tens);
    }
  }

  /** Numbers are equal exactly when they normalise to the same number. */
  lemma SameAmountExactly(a: JsNumber, b: JsNumber)
    requires !a.NonFinite? && !b.NonFinite?
    ensures SameAmount(a, b) <==> NormNumber(a) == NormNumber(b)
  {
    hide SameAmount;
    var c: JsNumber, d: JsNumber := if a.MinusZero? then Int(0) else a, if b.MinusZero? then Int(0) else b;
    ZeroAmount(a, b, c, d);
    if c.Scientific? && d.Scientific? {
      FloatsDiffer(c.x, d.x);
    } else if c.Scientific? {
      FloatNotInteger(c.x, d.n);
    } else if d.Scientific? {
      FloatNotInteger(d.x, c.n);
    } else {
      IntegersDiffer(c.n, d.n);
    }
  }

  lemma ZeroAmount(a: JsNumber, b: JsNumber, c: JsNumber, d: JsNumber)
    requires !a.NonFinite? && !b.NonFinite?
    requires c == (if a.MinusZero? then Int(0) else a) && d == if b.MinusZero? then Int(0) else b
    ensures SameAmount(a, b) <==> SameAmount(c, d)
  {
  }

  lemma IntegersDiffer(m: SafePrint, n: SafePrint)
    ensures SameAmount(Int(m), Int(n)) <==> m == n
  {
  }

  /** Normal forms are equal exactly when the values agree. */
  lemma {:induction false} SameNorm(a: Tree, b: Tree)
    requires DistinctKeys(a) && DistinctKeys(b)
    ensures Norm(a) == Norm(b) <==> Same(a, b)
    decreases a, 1
  {
    if a.NumberLeaf? && b.NumberLeaf? && !a.num.NonFinite? && !b.num.NonFinite? {
      SameAmountExactly(a.num, b.num);
    } else if a.ArrayNode? && b.ArrayNode? && |a.slots| == |b.slots| {
      SameNormArray(a, b);
    } else if a.ObjectNode? && b.ObjectNode? {
      SameNormObject(a, b);
    }
  }

  lemma {:induction false} SameNormArray(a: Tree, b: Tree)
    requires DistinctKeys(a) && DistinctKeys(b)
    requires a.ArrayNode? && b.ArrayNode? && |a.slots| == |b.slots|
    ensures Norm(a) == Norm(b) <==> Same(a, b)
    decreases a, 0
  {
    SameSlots(a.slots, b.slots);
    forall i | 0 <= i < |a.slots|
      ensures OrNull(Norm(a.slots[i])) == OrNull(Norm(b.slots[i])) <==>
              if a.slots[i].Nothing? || Blank(a.slots[i]) then b.slots[i].Nothing? || Blank(b.slots[i])
              else Same(a.slots[i], b.slots[i])
    {
      SameNorm(a.slots[i], b.slots[i]);
      NullNorm(a.slots[i]);
      NullNorm(b.slots[i]);
    }
  }

  lemma {:induction false} SameNormObject(a: Tree, b: Tree)
    requires DistinctKeys(a) && DistinctKeys(b) && a.ObjectNode? && b.ObjectNode?
    ensures Norm(a) == Norm(b) <==> Same(a, b)
    decreases a, 0
  {
    forall i, k | 0 <= i < |a.fields| && 0 <= k < |b.fields|
      ensures Norm(a.fields[i].val) == Norm(b.fields[k].val) <==> Same(a.fields[i].val, b.fields[k].val)
    {
      SameNorm(a.fields[i].val, b.fields[k].val);
    }
    SameFields(a.fields, b.fields);
  }

  lemma NullNorm(t: Tree)
    ensures OrNull(Norm(t)) == JNull <==> t.Nothing? || Blank(t)
  {
  }

  lemma SameSlots(xs: seq<Tree>, ys: seq<Tree>)
    requires |xs| == |ys|
    ensures NormSlots(xs) == NormSlots(ys) <==>
            forall i | 0 <= i < |xs| :: OrNull(Norm(xs[i])) == OrNull(Norm(ys[i]))
  {
    forall i | 0 <= i < |xs|
      ensures NormSlots(xs)[i] == OrNull(Norm(xs[i])) && NormSlots(ys)[i] == OrNull(Norm(ys[i]))
    {
      NormSlotAt(xs, i);
      NormSlotAt(ys, i);
    }
  }

  /** One side's present fields all occur on the other side. */
  ghost predicate Covered(es: seq<Entry<Tree>>, fs: seq<Entry<Tree>>) {
    forall i | 0 <= i < |es| && !es[i].val.Nothing? ::
      exists k | 0 <= k < |fs| :: fs[k].key == es[i].key && Norm(fs[k].val) == Norm(es[i].val)
  }

  ghost predicate Contained(xs: seq<Entry<Json>>, ys: seq<Entry<Json>>) {
    forall i | 0 <= i < |xs| :: xs[i] in ys
  }

  lemma CoveredMembers(es: seq<Entry<Tree>>, fs: seq<Entry<Tree>>)
    ensures Covered(es, fs) <==> Contained(NormFields(es), NormFields(fs))
  {
    if Covered(es, fs) {
      forall n | 0 <= n < |NormFields(es)| ensures NormFields(es)[n] in NormFields(fs) {
        var x := NormFields(es)[n];
        NormFieldIn(es, x);
        var i :| 0 <= i < |es| && es[i].key == x.key && Norm(es[i].val) == Kept(x.val);
        NormFieldIn(fs, x);
      }
    }
    if Contained(NormFields(es), NormFields(fs)) {
      forall i | 0 <= i < |es| && !es[i].val.Nothing?
        ensures exists k | 0 <= k < |fs| :: fs[k].key == es[i].key && Norm(fs[k].val) == Norm(es[i].val)
      {
        var x := Entry(es[i].key, Norm(es[i].val).val);
        NormFieldIn(es, x);
        NormFieldIn(fs, x);
      }
    }
  }

  lemma SameFields(es: seq<Entry<Tree>>, fs: seq<Entry<Tree>>)
    requires Distinct(es) && Distinct(fs)
    ensures Sort(NormFields(es)) == Sort(NormFields(fs)) <==> Covered(es, fs) && Covered(fs, es)
  {
    NormOrdered(es);
    NormOrdered(fs);
    SortMembers(NormFields(es));
    SortMembers(NormFields(fs));
    CoveredMembers(es, fs);
    CoveredMembers(fs, es);
    if Covered(es, fs) && Covered(fs, es) {
      OrderedUnique(Sort(NormFields(es)), Sort(NormFields(fs)));
    }
  }

  /** Two values of one graph that serialise get the same text exactly when they
      agree, and a text reads back to the normal form. */
  lemma SameTextExactlySame(v: JsValue, w: JsValue, a: Tree, b: Tree, heap: set<Cell>)
    requires Graph(heap) && Within(v, heap) && Within(w, heap)
    requires Unfolds(v, a, heap) && Unfolds(w, b, heap)
    ensures Serialized(v, {}, heap) == Serialized(w, {}, heap) <==> Same(a, b)
    ensures Serialized(v, {}, heap).Text? ==> Parse(Serialized(v, {}, heap).t) == Done(Norm(a).val, [])
  {
    hide Same, Norm, Serialized, Print, Parse, Graph, Unfolds;
    SerializesExactlyUnfoldings(v, heap);
    SerializesExactlyUnfoldings(w, heap);
    UnfoldingDistinct(v, a, heap);
    UnfoldingDistinct(w, b, heap);
    SameNorm(a, b);
    if Norm(a).Kept? {
      PrintReadsBack(Norm(a).val);
      if Norm(b).Kept? && Print(Norm(a).val) == Print(Norm(b).val) {
        PrintInjective(Norm(a).val, Norm(b).val);
      }
    }
  }

  // -------------------------------------------------------------- fixed point

  predicate Printable(n: int) {
    -1_000_000_000_000_000_000_000 < n < 1_000_000_000_000_000_000_000
  }

  /** The tree of a JSON value in which integers print plainly. */
  function Embed(j: Json): Tree {
    match j
    case JNull => NullLeaf
    case JBool(b) => BoolLeaf(b)
    case JNum(n) => NumberLeaf(if Printable(n) then Int(n) else NonFinite)
    case JFloat(x) => NumberLeaf(Scientific(x))
    case JStr(s) => StringLeaf(s)
    case JArr(items) => ArrayNode(seq(|items|, i requires 0 <= i < |items| => Embed(items[i])))
    case JObj(fields) =>
      ObjectNode(seq(|fields|, i requires 0 <= i < |fields| => Entry(fields[i].key, Embed(fields[i].val))))
  }

  /** Keys in code-unit order everywhere, integers that print plainly. */
  ghost predicate InNormalForm(j: Json) {
    match j
    case JNum(n) => Printable(n)
    case JArr(items) => forall i | 0 <= i < |items| :: InNormalForm(items[i])
    case JObj(fields) => Ascending(fields) && forall i | 0 <= i < |fields| :: InNormalForm(fields[i].val)
    case _ => true
  }

  lemma {:induction false} NormIsNormal(t: Tree)
    requires DistinctKeys(t) && Norm(t).Kept?
    ensures InNormalForm(Norm(t).val)
    decreases t
  {
    if t.ArrayNode? {
      forall i | 0 <= i < |t.slots| ensures InNormalForm(NormSlots(t.slots)[i]) {
        NormSlotAt(t.slots, i);
        if Norm(t.slots[i]).Kept? {
          NormIsNormal(t.slots[i]);
        }
      }
    } else if t.ObjectNode? {
      NormOrdered(t.fields);
      var fs := Sort(NormFields(t.fields));
      SortMembers(NormFields(t.fields));
      forall k | 0 <= k < |fs| ensures InNormalForm(fs[k].val) {
        assert fs[k] in NormFields(t.fields);
        NormFieldIn(t.fields, fs[k]);
        var i :| 0 <= i < |t.fields| && t.fields[i].key == fs[k].key && Norm(t.fields[i].val) == Kept(fs[k].val);
        NormIsNormal(t.fields[i].val);
      }
    }
  }

  lemma {:induction false} EmbedFixed(j: Json)
    requires InNormalForm(j)
    ensures Norm(Embed(j)) == Kept(j)
    decreases j
  {
    if j.JArr? {
      var ts := Embed(j).slots;
      forall i | 0 <= i < |ts| ensures NormSlots(ts)[i] == j.items[i] {
        EmbedFixed(j.items[i]);
        NormSlotAt(ts, i);
      }
      assert NormSlots(ts) == j.items;
    } else if j.JObj? {
      var es := Embed(j).fields;
      forall i | 0 <= i < |es| ensures Norm(es[i].val) == Kept(j.fields[i].val) {
        EmbedFixed(j.fields[i].val);
      }
      AllKept(es, j.fields);
      OrderedAscends(j.fields);
      SortFixed(j.fields);
    }
  }

  lemma {:induction false} AllKept(es: seq<Entry<Tree>>, fs: seq<Entry<Json>>)
    requires |es| == |fs|
    requires forall i | 0 <= i < |es| :: es[i].key == fs[i].key && Norm(es[i].val) == Kept(fs[i].val)
    ensures NormFields(es) == fs
  {
    if es != [] {
      AllKept(es[1..], fs[1..]);
      assert fs == [fs[0]] + fs[1..];
    }
  }

  /** Whatever serialises, its text reads as a value with its keys in code-unit order at
      every depth. */
  lemma TextKeysAscend(v: JsValue, heap: set<Cell>)
    requires Graph(heap) && Within(v, heap) && Serialized(v, {}, heap).Text?
    ensures var p := Parse(Serialized(v, {}, heap).t); p.Done? && p.rest == [] && InNormalForm(p.value)
  {
    hide Parse, Print, InNormalForm, Norm;
    SerializesExactlyUnfoldings(v, heap);
    var a :| Unfolds(v, a, heap);
    UnfoldingDistinct(v, a, heap);
    NormIsNormal(a);
    PrintReadsBack(Norm(a).val);
  }

  /** Reading a canonical text gives a value, and serialising that value, wherever it is
      built, gives the text again. */
  lemma CanonicalTextIsFixed(v: JsValue, heap: set<Cell>)
    requires Graph(heap) && Within(v, heap) && Serialized(v, {}, heap).Text?
    ensures var t := Serialized(v, {}, heap).t;
            Parse(t).Done? && Expected(Norm(Embed(Parse(t).value))) == Text(t)
    ensures var t := Serialized(v, {}, heap).t;
            forall w: JsValue, heap2: set<Cell> |
              Graph(heap2) && Within(w, heap2) && Parse(t).Done? && Unfolds(w, Embed(Parse(t).value), heap2) ::
              Serialized(w, {}, heap2) == Text(t)
  {
    SerializesExactlyUnfoldings(v, heap);
    var a :| Unfolds(v, a, heap);
    UnfoldingDistinct(v, a, heap);
    NormIsNormal(a);
    EmbedFixed(Norm(a).val);
    PrintReadsBack(Norm(a).val);
    var t := Serialized(v, {}, heap).t;
    forall w: JsValue, heap2: set<Cell> |
      Graph(heap2) && Within(w, heap2) && Parse(t).Done? && Unfolds(w, Embed(Parse(t).value), heap2)
      ensures Serialized(w, {}, heap2) == Text(t)
    {
      SerializesExactlyUnfoldings(w, heap2);
    }
  }
}
