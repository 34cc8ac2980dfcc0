/** Base64 as Node's `Buffer` writes and leniently reads it (sections 4 and 5 of
    RFC 4648), and the strict reading of secrets built on top
    (src/security/identity-secret.ts, src/security/root-secret.ts). */
module Base64 {
  import opened Text
  import opened Utf8

  // ------------------------------------------------------- bytes and sextets

  /** Two bits. A byte is four of these, a sextet three. */
  newtype Crumb = c: int | 0 <= c < 4
  datatype Six = Six(p: Crumb, q: Crumb, r: Crumb)

  function CrumbsOf(a: Byte): seq<Crumb> {
    var n := a as int;
    [(n / 4 / 4 / 4) as Crumb, (n / 4 / 4 % 4) as Crumb, (n / 4 % 4) as Crumb, (n % 4) as Crumb]
  }

  function ByteOf(p: Crumb, q: Crumb, r: Crumb, s: Crumb): Byte {
    (4 * (4 * (4 * p as int + q as int) + r as int) + s as int) as Byte
  }

  lemma ByteOfCrumbs(a: Byte)
    ensures var c := CrumbsOf(a); ByteOf(c[0], c[1], c[2], c[3]) == a
  {
  }

  lemma CrumbsOfByte(p: Crumb, q: Crumb, r: Crumb, s: Crumb)
    ensures CrumbsOf(ByteOf(p, q, r, s)) == [p, q, r, s]
  {
    var k := 4 * p as int + q as int;
    var m := 4 * k + r as int;
    LastCrumb(m, s as int);
    LastCrumb(k, r as int);
    LastCrumb(p as int, q as int);
  }

  lemma LastCrumb(m: int, s: int)
    requires 0 <= s < 4
    ensures (4 * m + s) / 4 == m && (4 * m + s) % 4 == s
  {
  }

  function Crumbs(b: Bytes): (c: seq<Crumb>)
    ensures |c| == 4 * |b|
  {
    if b == [] then [] else CrumbsOf(b[0]) + Crumbs(b[1..])
  }

  /** Three by three, the last group filled with zero bits. */
  function Triples(c: seq<Crumb>): seq<Six> {
    if |c| == 0 then []
    else if |c| == 1 then [Six(c[0], 0, 0)]
    else if |c| == 2 then [Six(c[0], c[1], 0)]
    else [Six(c[0], c[1], c[2])] + Triples(c[3..])
  }

  function Sextets(b: Bytes): seq<Six> {
    Triples(Crumbs(b))
  }

  function Spread(x: seq<Six>): (c: seq<Crumb>)
    ensures |c| == 3 * |x|
  {
    if x == [] then [] else [x[0].p, x[0].q, x[0].r] + Spread(x[1..])
  }

  /** Four by four; an incomplete last group is dropped. */
  function Gather(c: seq<Crumb>): Bytes {
    if |c| < 4 then [] else [ByteOf(c[0], c[1], c[2], c[3])] + Gather(c[4..])
  }

  /** What a lenient reader makes of sextets. */
  function Octets(x: seq<Six>): Bytes {
    Gather(Spread(x))
  }

  /** The unused low bits of the last sextet are zero. */
  predicate ZeroTail(x: seq<Six>) {
    && (|x| % 4 == 2 ==> x[|x| - 1].q == x[|x| - 1].r == 0)
    && (|x| % 4 == 3 ==> x[|x| - 1].r == 0)
  }

  function Zeroes(n: nat): seq<Crumb> {
    seq<Crumb>(n, _ => 0)
  }

  /** What is missing to a multiple of three. */
  function Missing(n: nat): nat {
    if n % 3 == 0 then 0 else 3 - n % 3
  }

  lemma MissingStep(n: nat)
    ensures Missing(n + 3) == Missing(n) && (n + 3 + 2) / 3 == (n + 2) / 3 + 1
  {
  }

  lemma {:induction false} SpreadTriples(c: seq<Crumb>)
    ensures Spread(Triples(c)) == c + Zeroes(Missing(|c|))
    ensures |Triples(c)| == (|c| + 2) / 3
  {
    if |c| == 1 || |c| == 2 {
      assert Triples(c)[1..] == [];
      assert Spread(Triples(c)) == [Triples(c)[0].p, Triples(c)[0].q, Triples(c)[0].r];
    } else if |c| >= 3 {
      SpreadTriples(c[3..]);
      MissingStep(|c| - 3);
      assert Triples(c)[1..] == Triples(c[3..]);
      assert c == [c[0], c[1], c[2]] + c[3..];
    }
  }

  lemma {:induction false} TriplesSpread(x: seq<Six>)
    ensures Triples(Spread(x)) == x
  {
    if x != [] {
      TriplesSpread(x[1..]);
      assert Spread(x)[3..] == Spread(x[1..]);
      assert x == [x[0]] + x[1..];
    }
  }

  lemma {:induction false} GatherCrumbs(b: Bytes, extra: seq<Crumb>)
    requires |extra| < 4
    ensures Gather(Crumbs(b) + extra) == b
  {
    if b != [] {
      hide CrumbsOf, ByteOf, Gather;
      ByteOfCrumbs(b[0]);
      GatherCrumbs(b[1..], extra);
      assert Crumbs(b) + extra == CrumbsOf(b[0]) + (Crumbs(b[1..]) + extra);
      GroupGathered(CrumbsOf(b[0]), Crumbs(b[1..]) + extra, Crumbs(b) + extra);
      assert b == [b[0]] + b[1..];
    }
  }

  lemma GroupGathered(four: seq<Crumb>, rest: seq<Crumb>, all: seq<Crumb>)
    requires |four| == 4 && all == four + rest
    ensures Gather(all) == [ByteOf(four[0], four[1], four[2], four[3])] + Gather(rest)
  {
    hide ByteOf;
    assert all[4..] == rest;
  }

  lemma {:induction false} CrumbsGather(c: seq<Crumb>)
    ensures |Gather(c)| == |c| / 4 && Crumbs(Gather(c)) == c[..|c| / 4 * 4]
  {
    if |c| >= 4 {
      hide CrumbsOf, ByteOf;
      CrumbsOfByte(c[0], c[1], c[2], c[3]);
      CrumbsGather(c[4..]);
      assert Gather(c)[1..] == Gather(c[4..]);
      FourFewer(|c|);
      FirstFour(c, (|c| - 4) / 4 * 4);
    }
  }

  lemma FirstFour(c: seq<Crumb>, k: nat)
    requires k + 4 <= |c|
    ensures c[..k + 4] == [c[0], c[1], c[2], c[3]] + c[4..][..k]
  {
  }

  lemma FourFewer(n: nat)
    requires n >= 4
    ensures (n - 4) / 4 == n / 4 - 1 && n / 4 * 4 == (n - 4) / 4 * 4 + 4 <= n
  {
  }

  lemma SextetsLength(b: Bytes)
    ensures |Sextets(b)| == (4 * |b| + 2) / 3
  {
    SpreadTriples(Crumbs(b));
  }

  /** Writing bytes as sextets loses nothing. */
  lemma SextetsReadBack(b: Bytes)
    ensures Octets(Sextets(b)) == b
  {
    SpreadTriples(Crumbs(b));
    GatherCrumbs(b, Zeroes(Missing(|Crumbs(b)|)));
  }

  /** Reading loses nothing exactly when no sextet is left over and the tail is zero. */
  lemma OctetsReadBack(x: seq<Six>)
    ensures Sextets(Octets(x)) == x <==> |x| % 4 != 1 && ZeroTail(x)
    ensures |x| % 4 != 1 ==> |Sextets(Octets(x))| == |x|
  {
    hide Triples, Spread, Crumbs, Gather, ZeroTail, Missing;
    var c := Spread(x);
    var k := |c| / 4 * 4;
    CrumbsGather(c);
    SpreadTriples(c[..k]);
    TriplesSpread(x);
    LeftOver(x, k);
    assert c == c[..k] + c[k..];
    if c[k..] == Zeroes(Missing(k)) {
      assert Triples(Spread(Triples(c[..k]))) == Triples(c);
      TriplesSpread(Triples(c[..k]));
    }
  }

  /** The crumbs dropped are the unused ones, unless a whole sextet is left over. */
  lemma LeftOver(x: seq<Six>, k: nat)
    requires k == 3 * |x| / 4 * 4
    ensures k <= 3 * |x| && (Spread(x)[k..] == Zeroes(Missing(k)) <==> |x| % 4 != 1 && ZeroTail(x))
    ensures |x| % 4 != 1 ==> (k + 2) / 3 == |x|
  {
    hide Spread;
    LeftOverLength(|x|, k);
    if x != [] {
      SpreadEnd(x);
    }
  }

  lemma LeftOverLength(n: nat, k: nat)
    requires k == 3 * n / 4 * 4
    ensures 3 * n - k == (if n % 4 == 1 then 3 else if n % 4 == 2 then 2 else if n % 4 == 3 then 1 else 0)
    ensures Missing(k) == if n % 4 == 1 || n % 4 == 0 then 0 else 3 * n - k
    ensures n % 4 != 1 ==> (k + 2) / 3 == n
  {
    var m, r := n / 4, n % 4;
    var d := if r == 1 then 3 else if r == 2 then 2 else if r == 3 then 1 else 0;
    ByFour(3 * n, 3 * m + (if r == 0 then 0 else r - 1), d);
    if r != 1 {
      ByThree(k + 2, n, 2 - d);
    }
    ByThree(k, if d == 0 || d == 3 then n - d / 3 else n - 1, if d == 0 || d == 3 then 0 else 3 - d);
  }

  lemma ByThree(x: int, q: int, r: int)
    requires x == 3 * q + r && 0 <= r < 3
    ensures x / 3 == q && x % 3 == r
  {
  }

  lemma ByFour(x: int, q: int, r: int)
    requires x == 4 * q + r && 0 <= r < 4
    ensures x / 4 == q && x % 4 == r
  {
  }

  lemma {:induction false} SpreadEnd(x: seq<Six>)
    requires x != []
    ensures var c, last := Spread(x), x[|x| - 1];
            c[|c| - 3] == last.p && c[|c| - 2] == last.q && c[|c| - 1] == last.r
  {
    if |x| > 1 {
      SpreadEnd(x[1..]);
    }
  }

  // --------------------------------------------------------------- alphabets

  /** Table 1 of RFC 4648, or table 2 when `url`. */
  function Letter(n: int, url: bool): Unit
    requires 0 <= n < 64
  {
    if n < 26 then n as Unit + 65
    else if n < 52 then n as Unit + 71
    else if n < 62 then n as Unit - 4
    else if n == 62 then (if url then 45 else 43)
    else (if url then 95 else 47)
  }

  function Symbol(v: Six, url: bool): Unit {
    Letter(16 * v.p as int + 4 * v.q as int + v.r as int, url)
  }

  /** `[A-Za-z0-9+/]` */
  predicate IsSymbol(c: Unit) {
    65 <= c <= 90 || 97 <= c <= 122 || IsDigit(c) || c == 43 || c == 47
  }

  /** Node's reader takes both alphabets. */
  predicate Known(c: Unit) {
    IsSymbol(c) || c == 45 || c == 95
  }

  /** Its place in the alphabet. */
  function Index(c: Unit): (n: int)
    requires Known(c)
    ensures 0 <= n < 64
  {
    if 65 <= c <= 90 then c as int - 65
    else if 97 <= c <= 122 then c as int - 71
    else if IsDigit(c) then c as int + 4
    else if c == 43 || c == 45 then 62
    else 63
  }

  function SixOf(n: int): Six
    requires 0 <= n < 64
  {
    Six((n / 4 / 4) as Crumb, (n / 4 % 4) as Crumb, (n % 4) as Crumb)
  }

  function Meaning(c: Unit): Six
    requires Known(c)
  {
    SixOf(Index(c))
  }

  lemma SixOfNumber(v: Six)
    ensures SixOf(16 * v.p as int + 4 * v.q as int + v.r as int) == v
  {
  }

  lemma NumberOfSix(n: int)
    requires 0 <= n < 64
    ensures 16 * SixOf(n).p as int + 4 * SixOf(n).q as int + SixOf(n).r as int == n
  {
  }

  lemma SymbolMeaning(v: Six, url: bool)
    ensures Known(Symbol(v, url)) && Meaning(Symbol(v, url)) == v
    ensures IsSymbol(Symbol(v, false))
  {
    SixOfNumber(v);
    hide SixOf;
  }

  lemma MeaningSymbol(c: Unit)
    requires IsSymbol(c)
    ensures Symbol(Meaning(c), false) == c
  {
    NumberOfSix(Index(c));
    hide SixOf;
  }

  function Spell(x: seq<Six>, url: bool): Str {
    if x == [] then [] else [Symbol(x[0], url)] + Spell(x[1..], url)
  }

  /** The sextets of a text; units outside the alphabets are passed over. */
  function Sense(t: Str): (x: seq<Six>)
    ensures |x| <= |t|
  {
    if t == [] then []
    else if Known(t[0]) then [Meaning(t[0])] + Sense(t[1..])
    else Sense(t[1..])
  }

  /** `Buffer.from(t, "base64")` and `Buffer.from(t, "base64url")` */
  function Decode64(t: Str): Bytes {
    Octets(Sense(t))
  }

  /** `=` signs that fill the last group of four. */
  function Padding(n: nat): Str {
    if n % 4 == 2 then [61, 61] else if n % 4 == 3 then [61] else []
  }

  /** `b.toString("base64")` */
  function Encode64(b: Bytes): Str {
    Spell(Sextets(b), false) + Padding(|Sextets(b)|)
  }

  /** `b.toString("base64url")`: the other alphabet, no padding. */
  function EncodeUrl(b: Bytes): Str {
    Spell(Sextets(b), true)
  }

  predicate Pads(p: Str) {
    forall i | 0 <= i < |p| :: p[i] == 61
  }

  lemma {:induction false} SensePads(p: Str)
    requires Pads(p)
    ensures Sense(p) == []
  {
    if p != [] {
      SensePads(p[1..]);
    }
  }

  lemma {:induction false} SpellReadsBack(x: seq<Six>, url: bool, p: Str)
    requires Pads(p)
    ensures Sense(Spell(x, url) + p) == x && |Spell(x, url)| == |x|
    ensures forall i | 0 <= i < |x| :: Spell(x, url)[i] == Symbol(x[i], url)
  {
    if x == [] {
      assert Spell(x, url) + p == p;
      SensePads(p);
    } else {
      SpellReadsBack(x[1..], url, p);
      SymbolMeaning(x[0], url);
      assert (Spell(x, url) + p)[1..] == Spell(x[1..], url) + p;
    }
  }

  lemma {:induction false} SenseReadsBack(t: Str, p: Str)
    requires Pads(p) && forall i | 0 <= i < |t| :: IsSymbol(t[i])
    ensures Spell(Sense(t + p), false) == t
  {
    if t == [] {
      assert t + p == p;
      SensePads(p);
    } else {
      MeaningSymbol(t[0]);
      SenseReadsBack(t[1..], p);
      assert (t + p)[1..] == t[1..] + p;
      assert t == [t[0]] + t[1..];
    }
  }

  /** Both writers are undone by the one reader, on every byte string. */
  lemma EncodingsReadBack(b: Bytes)
    ensures Decode64(Encode64(b)) == b && Decode64(EncodeUrl(b)) == b
  {
    SextetsReadBack(b);
    SpellReadsBack(Sextets(b), false, Padding(|Sextets(b)|));
    SpellReadsBack(Sextets(b), true, []);
    assert EncodeUrl(b) + [] == EncodeUrl(b);
  }

  lemma EncodingsInjective(a: Bytes, b: Bytes)
    requires Encode64(a) == Encode64(b) || EncodeUrl(a) == EncodeUrl(b)
    ensures a == b
  {
    EncodingsReadBack(a);
    EncodingsReadBack(b);
  }

  /** The unpadded form is made of letters, digits, `-` and `_` alone. */
  lemma EncodeUrlUnits(b: Bytes)
    ensures |EncodeUrl(b)| == (4 * |b| + 2) / 3
    ensures forall i | 0 <= i < |EncodeUrl(b)| :: EncodeUrl(b)[i] != 58 && Known(EncodeUrl(b)[i])
  {
    SextetsLength(b);
    SpellReadsBack(Sextets(b), true, []);
    forall i | 0 <= i < |EncodeUrl(b)| ensures EncodeUrl(b)[i] != 58 && Known(EncodeUrl(b)[i]) {
      SymbolMeaning(Sextets(b)[i], true);
    }
  }

  lemma SymbolInUrl(v: Six)
    ensures Symbol(v, true) == InUrl(Symbol(v, false))
  {
  }

  /** The two units in which the alphabets differ. */
  function InUrl(c: Unit): Unit {
    if c == 43 then 45 else if c == 47 then 95 else c
  }

  /** Section 5 of RFC 4648: the one form is the other in its own alphabet and unpadded. */
  lemma UrlFormOf(b: Bytes)
    ensures |EncodeUrl(b)| <= |Encode64(b)|
    ensures forall i | 0 <= i < |EncodeUrl(b)| :: EncodeUrl(b)[i] == InUrl(Encode64(b)[i])
    ensures forall i | |EncodeUrl(b)| <= i < |Encode64(b)| :: Encode64(b)[i] == 61
  {
    hide Symbol, InUrl, Sextets;
    var x := Sextets(b);
    SpellReadsBack(x, false, []);
    SpellReadsBack(x, true, []);
    forall i | 0 <= i < |x| ensures EncodeUrl(b)[i] == InUrl(Encode64(b)[i]) {
      SymbolInUrl(x[i]);
    }
  }

  // ----------------------------------------------------------------- secrets

  /** Units of the alphabet at the front. */
  function SymbolRun(t: Str): (k: nat)
    ensures k <= |t| && (forall i | 0 <= i < k :: IsSymbol(t[i]))
    ensures k < |t| ==> !IsSymbol(t[k])
  {
    if t != [] && IsSymbol(t[0]) then 1 + SymbolRun(t[1..]) else 0
  }

  /** `/^[A-Za-z0-9+/]+={0,2}$/` */
  predicate CanonicalPattern(t: Str) {
    var k := SymbolRun(t);
    k > 0 && |t| - k <= 2 && Pads(t[k..])
  }

  /** The first check of `decodeSecret` and `decodeRootKey`. */
  predicate LooksCanonical(t: Str) {
    |t| != 0 && |t| % 4 == 0 && CanonicalPattern(t)
  }

  datatype Secret = NotCanonical | WrongLength | Secret(bytes: Bytes)

  /** `decodeSecret` (64 bytes) and `decodeRootKey` (32 bytes). */
  function DecodeSecret(text: Str, size: nat): Secret {
    var t := Trim(text);
    if !LooksCanonical(t) then NotCanonical
    else
      var bytes := Decode64(t);
      if |bytes| != size || Encode64(bytes) != t then WrongLength else Secret(bytes)
  }

  lemma SymbolRunOf(t: Str, k: nat)
    requires k <= |t| && (forall i | 0 <= i < k :: IsSymbol(t[i])) && (k < |t| ==> !IsSymbol(t[k]))
    ensures SymbolRun(t) == k
  {
  }

  lemma PlainEnds(t: Str)
    requires t != [] && IsSymbol(t[0]) && (IsSymbol(t[|t| - 1]) || t[|t| - 1] == 61)
    ensures Trim(t) == t
  {
  }

  /** Symbols with the padding that fits. */
  lemma PaddedLooksCanonical(t: Str, s: Str)
    requires s != [] && |s| % 4 != 1 && t == s + Padding(|s|)
    requires forall i | 0 <= i < |s| :: IsSymbol(s[i])
    ensures LooksCanonical(t) && Trim(t) == t
  {
    hide Trim, IsSymbol, SymbolRun;
    assert forall i | 0 <= i < |s| :: t[i] == s[i];
    EqualsSignIsNoSymbol();
    SymbolRunOf(t, |s|);
    assert t[|s|..] == Padding(|s|);
    PlainEnds(t);
  }

  lemma EqualsSignIsNoSymbol()
    ensures !IsSymbol(61)
  {
  }

  lemma EncodedLength(b: Bytes)
    requires b != []
    ensures Sextets(b) != [] && |Sextets(b)| % 4 != 1
  {
    hide Sextets;
    SextetsLength(b);
    NeverOne(|b|);
  }

  lemma NeverOne(n: nat)
    ensures (4 * n + 2) / 3 % 4 != 1
  {
  }

  lemma EncodedLooksCanonical(b: Bytes)
    requires b != []
    ensures LooksCanonical(Encode64(b)) && Trim(Encode64(b)) == Encode64(b)
  {
    hide Symbol, Sextets, Spell, LooksCanonical, Trim, Padding, IsSymbol;
    EncodedLength(b);
    var x := Sextets(b);
    var s := Spell(x, false);
    SpellReadsBack(x, false, []);
    forall i | 0 <= i < |s| ensures IsSymbol(s[i]) {
      SymbolMeaning(x[i], false);
    }
    PaddedLooksCanonical(Encode64(b), s);
  }

  /** A secret is accepted, with its value, exactly when the text is the canonical encoding of
      a value of the required size with white space around it. */
  lemma SecretExactlyCanonical(text: Str, size: nat, value: Bytes)
    requires size > 0
    ensures DecodeSecret(text, size) == Secret(value) <==> |value| == size && Padded(text, Encode64(value))
  {
    hide LooksCanonical, Encode64, Decode64, Trim;
    TrimExactly(text, Encode64(value));
    if |value| == size {
      EncodedLooksCanonical(value);
      EncodingsReadBack(value);
      TrimExactly(Encode64(value), Encode64(value));
    }
  }

  /** The pattern and the length test alone already force whole groups of four with
      the padding that fits: two signs after two symbols, one after three. */
  lemma PatternForcesShape(t: Str)
    requires LooksCanonical(t)
    ensures var k := SymbolRun(t); k % 4 != 1 && t[k..] == Padding(k) && |Sense(t)| == k
  {
    hide Sense, Spell, Symbol, IsSymbol, SymbolRun;
    var k := SymbolRun(t);
    assert t == t[..k] + t[k..];
    SenseReadsBack(t[..k], t[k..]);
    SpellReadsBack(Sense(t), false, []);
    if |t| - k == 0 {
      assert t[k..] == [];
    } else if |t| - k == 1 {
      assert t[k..] == [61];
    } else {
      assert t[k..] == [61, 61];
    }
  }

  /** So writing the value back rejects exactly the texts of that shape whose unused
      bits are not zero (section 3.5 of RFC 4648). */
  lemma ReencodingChecksTail(t: Str)
    requires LooksCanonical(t)
    ensures Encode64(Decode64(t)) == t ==> ZeroTail(Sense(t))
    ensures ZeroTail(Sense(t)) ==> Encode64(Decode64(t)) == t
  {
    PatternForcesShape(t);
    var k, x := SymbolRun(t), Sense(t);
    assert t == t[..k] + t[k..];
    SenseReadsBack(t[..k], t[k..]);
    OctetsReadBack(x);
    var y := Sextets(Octets(x));
    assert |y| == |x|;
    if Encode64(Decode64(t)) == t {
      SpellReadsBack(y, false, Padding(|y|));
    }
  }

  /** Altogether, for any text with white space around it: it is refused for its shape, or,
      well-shaped, for its length or its unused bits. */
  lemma SecretRefusals(w: Str, t: Str, v: Str, size: nat)
    requires White(w) && White(v) && Tight(t)
    ensures DecodeSecret(w + t + v, size) == NotCanonical <==> !LooksCanonical(t)
    ensures DecodeSecret(w + t + v, size) == WrongLength <==>
            LooksCanonical(t) && (|Decode64(t)| != size || !ZeroTail(Sense(t)))
  {
    hide LooksCanonical, Encode64, Decode64, Trim, ZeroTail, Sense;
    TrimPadded(w, t, v);
    if LooksCanonical(t) {
      ReencodingChecksTail(t);
    }
  }

  /** Eighty-eight or forty-four units, of which two or one are padding. */
  lemma SecretLengths(value: Bytes)
    ensures |value| == 64 ==> |Encode64(value)| == 88
    ensures |value| == 32 ==> |Encode64(value)| == 44
  {
    hide Sextets, Spell, Symbol;
    SextetsLength(value);
    SpellReadsBack(Sextets(value), false, []);
  }
}
