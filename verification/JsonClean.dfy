/** What a printed JSON text never contains. */
module JsonClean {
  import opened Text
  import opened Json
  import opened NumberRoundTrip

  /** No control characters, and every surrogate sits in a pair: such a text is
      one line, and its UTF-8 encoding loses nothing. */
  predicate Clean(t: Str) {
    if t == [] then true
    else if |t| > 1 && IsLead(t[0]) && IsTrail(t[1]) then Clean(t[2..])
    else !IsLead(t[0]) && !IsTrail(t[0]) && t[0] >= 0x20 && Clean(t[1..])
  }

  lemma {:induction false} CleanConcat(a: Str, b: Str)
    requires Clean(a) && Clean(b)
    ensures Clean(a + b)
  {
    if a == [] {
      assert a + b == b;
    } else if |a| > 1 && IsLead(a[0]) && IsTrail(a[1]) {
      CleanConcat(a[2..], b);
      assert (a + b)[2..] == a[2..] + b;
    } else {
      CleanConcat(a[1..], b);
      assert (a + b)[1..] == a[1..] + b;
    }
  }

  lemma {:induction false} CleanAscii(t: Str)
    requires forall i | 0 <= i < |t| :: 0x20 <= t[i] < 0x7F
    ensures Clean(t)
  {
    if t != [] {
      CleanAscii(t[1..]);
    }
  }

  lemma {:induction false} CleanBody(s: Str)
    ensures Clean(Body(s))
  {
    if s == [] {
    } else if |s| > 1 && IsLead(s[0]) && IsTrail(s[1]) {
      CleanBody(s[2..]);
      assert Body(s)[2..] == Body(s[2..]);
    } else {
      CleanBody(s[1..]);
      if |Escape(s[0])| > 1 {
        CleanAscii(Escape(s[0]));
      } else {
        assert Escape(s[0]) == [s[0]];
        assert Clean([s[0]]);
      }
      CleanConcat(Escape(s[0]), Body(s[1..]));
    }
  }

  lemma CleanQuote(s: Str)
    ensures Clean(Quote(s))
  {
    CleanBody(s);
    CleanAscii([34]);
    CleanConcat([34], Body(s));
    CleanConcat([34] + Body(s), [34]);
  }

  lemma PiecesPlain(whole: Str, f: Str, e: Maybe<int>)
    requires AllDigits(whole) && AllDigits(f)
    ensures var t := whole + FractionText(f) + ExponentText(e);
            forall i | 0 <= i < |t| :: 0x20 <= t[i] < 0x7F
  {
    hide Digits;
    if e.Some? {
      DigitsDenote(if e.value < 0 then -e.value else e.value);
    }
  }

  /** Printed text is clean, whatever strings the value holds. */
  lemma {:induction false} PrintClean(j: Json)
    ensures Clean(Print(j))
    decreases j, 0
  {
    match j
    case JNull => CleanAscii(NULL);
    case JBool(b) => CleanAscii(Print(j));
    case JNum(n) =>
      DecimalUnits(n);
      CleanAscii(Decimal(n));
    case JFloat(x) =>
      var whole, f, e := FloatPieces(x);
      PiecesPlain(whole, f, e);
      CleanAscii(PrintFloat(x));
    case JStr(s) => CleanQuote(s);
    case JArr(items) =>
      ItemsClean(items);
      CleanBracket(91, PrintItems(items), 93);
    case JObj(fields) =>
      FieldsClean(fields);
      CleanBracket(123, PrintFields(fields), 125);
  }

  lemma CleanBracket(l: Unit, t: Str, r: Unit)
    requires Clean(t) && 0x20 <= l < 0x7F && 0x20 <= r < 0x7F
    ensures Clean([l] + t + [r])
  {
    CleanAscii([l]);
    CleanAscii([r]);
    CleanConcat([l], t);
    CleanConcat([l] + t, [r]);
  }

  lemma {:induction false} ItemsClean(items: seq<Json>)
    ensures Clean(PrintItems(items))
    decreases items, 1
  {
    if |items| > 0 {
      PrintClean(items[0]);
      if |items| > 1 {
        ItemsClean(items[1..]);
        CleanAscii([44]);
        CleanConcat(Print(items[0]), [44]);
        CleanConcat(Print(items[0]) + [44], PrintItems(items[1..]));
      }
    }
  }

  lemma {:induction false} FieldsClean(fields: seq<Entry<Json>>)
    ensures Clean(PrintFields(fields))
    decreases fields, 1
  {
    if |fields| > 0 {
      var f := fields[0];
      CleanQuote(f.key);
      PrintClean(f.val);
      CleanAscii([58]);
      CleanConcat(Quote(f.key), [58]);
      CleanConcat(Quote(f.key) + [58], Print(f.val));
      if |fields| > 1 {
        FieldsClean(fields[1..]);
        CleanAscii([44]);
        CleanConcat(PrintField(f), [44]);
        CleanConcat(PrintField(f) + [44], PrintFields(fields[1..]));
      }
    }
  }
}
