/** `Buffer.from(text, "utf8")`: UTF-8 of a UTF-16 string, with U+FFFD for a
    lone surrogate, and the reader that shows when nothing is lost. */
module Utf8 {
  import opened Text
  import opened Json
  import opened JsonClean

  newtype Byte = b: int | 0 <= b < 256
  type Bytes = seq<Byte>

  function EncodePoint(cp: nat): Bytes
    requires cp < 0x110000
  {
    if cp < 0x80 then [cp as Byte]
    else if cp < 0x800 then [(0xC0 + cp / 64) as Byte, (0x80 + cp % 64) as Byte]
    else if cp < 0x10000 then
      [(0xE0 + cp / 4096) as Byte, (0x80 + cp / 64 % 64) as Byte, (0x80 + cp % 64) as Byte]
    else
      [(0xF0 + cp / 262144) as Byte, (0x80 + cp / 4096 % 64) as Byte, (0x80 + cp / 64 % 64) as Byte,
       (0x80 + cp % 64) as Byte]
  }

  function PairPoint(hi: Unit, lo: Unit): (cp: nat)
    requires IsLead(hi) && IsTrail(lo)
    ensures 0x10000 <= cp < 0x110000
  {
    0x10000 + (hi as int - 0xD800) * 0x400 + (lo as int - 0xDC00)
  }

  function Encode(t: Str): Bytes {
    if t == [] then []
    else if |t| > 1 && IsLead(t[0]) && IsTrail(t[1]) then EncodePoint(PairPoint(t[0], t[1])) + Encode(t[2..])
    else if IsLead(t[0]) || IsTrail(t[0]) then [0xEF, 0xBF, 0xBD] + Encode(t[1..])
    else EncodePoint(t[0] as int) + Encode(t[1..])
  }

  /** Every surrogate sits in a pair. */
  predicate Paired(t: Str) {
    if t == [] then true
    else if |t| > 1 && IsLead(t[0]) && IsTrail(t[1]) then Paired(t[2..])
    else !IsLead(t[0]) && !IsTrail(t[0]) && Paired(t[1..])
  }

  // ---------------------------------------------------------------- decoding

  datatype Point = Malformed | Point(cp: nat, taken: nat)

  function DecodePoint(b: Bytes): (p: Point)
    requires b != []
    ensures p.Point? ==> 1 <= p.taken <= |b| && p.cp < 0x200000
  {
    var b0 := b[0] as int;
    if b0 < 0x80 then Point(b0, 1)
    else if 0xC0 <= b0 < 0xE0 && |b| >= 2 then Tail(b0 - 0xC0, b[1..2], 2)
    else if 0xE0 <= b0 < 0xF0 && |b| >= 3 then Tail(b0 - 0xE0, b[1..3], 3)
    else if 0xF0 <= b0 < 0xF8 && |b| >= 4 then Tail(b0 - 0xF0, b[1..4], 4)
    else Malformed
  }

  function Tail(top: nat, rest: Bytes, taken: nat): (p: Point)
    requires |rest| <= 3 && taken == |rest| + 1 && top < 32
    requires |rest| == 2 ==> top < 16
    requires |rest| == 3 ==> top < 8
    ensures p.Point? ==> p.taken == taken && p.cp < 0x200000
  {
    if forall i | 0 <= i < |rest| :: 0x80 <= rest[i] < 0xC0 then
      if |rest| == 1 then Point(64 * top + (rest[0] as int - 0x80), taken)
      else if |rest| == 2 then Point(4096 * top + 64 * (rest[0] as int - 0x80) + (rest[1] as int - 0x80), taken)
      else if |rest| == 3 then
        Point(262144 * top + 4096 * (rest[0] as int - 0x80) + 64 * (rest[1] as int - 0x80) + (rest[2] as int - 0x80),
              taken)
      else Malformed
    else Malformed
  }

  /** The units of a code point. */
  function Units(cp: nat): Str
    requires cp < 0x110000
  {
    if cp < 0x10000 then [cp as Unit]
    else [(0xD800 + (cp - 0x10000) / 0x400) as Unit, (0xDC00 + (cp - 0x10000) % 0x400) as Unit]
  }

  function Decode(b: Bytes): Str {
    if b == [] then []
    else match DecodePoint(b)
      case Malformed => []
      case Point(cp, taken) => if cp < 0x110000 then Units(cp) + Decode(b[taken..]) else []
  }

  lemma Digits64(cp: nat)
    ensures cp == 64 * (cp / 64) + cp % 64
    ensures cp / 64 == 64 * (cp / 4096) + cp / 64 % 64
    ensures cp / 4096 == 64 * (cp / 262144) + cp / 4096 % 64
  {
  }

  lemma PointReadsBack(cp: nat, rest: Bytes)
    requires cp < 0x110000
    ensures DecodePoint(EncodePoint(cp) + rest) == Point(cp, |EncodePoint(cp)|)
  {
    Digits64(cp);
    var e := EncodePoint(cp);
    var b := e + rest;
    assert b[0] == e[0];
    if 0x80 <= cp < 0x800 {
      assert b[1..2] == e[1..2];
    } else if 0x800 <= cp < 0x10000 {
      assert b[1..3] == e[1..3];
    } else if cp >= 0x10000 {
      assert b[1..4] == e[1..4];
    }
  }

  lemma DecodeStep(cp: nat, rest: Bytes)
    requires cp < 0x110000
    ensures Decode(EncodePoint(cp) + rest) == Units(cp) + Decode(rest)
  {
    PointReadsBack(cp, rest);
    assert (EncodePoint(cp) + rest)[|EncodePoint(cp)|..] == rest;
  }

  lemma PairUnits(hi: Unit, lo: Unit)
    requires IsLead(hi) && IsTrail(lo)
    ensures Units(PairPoint(hi, lo)) == [hi, lo]
  {
  }

  /** Paired text survives the encoding. */
  lemma {:induction false} EncodeReadsBack(t: Str)
    requires Paired(t)
    ensures Decode(Encode(t)) == t
  {
    if t == [] {
    } else if |t| > 1 && IsLead(t[0]) && IsTrail(t[1]) {
      EncodeReadsBack(t[2..]);
      DecodeStep(PairPoint(t[0], t[1]), Encode(t[2..]));
      PairUnits(t[0], t[1]);
      assert t == [t[0], t[1]] + t[2..];
    } else {
      EncodeReadsBack(t[1..]);
      DecodeStep(t[0] as int, Encode(t[1..]));
      assert t == [t[0]] + t[1..];
    }
  }

  lemma EncodeInjective(s: Str, t: Str)
    requires Paired(s) && Paired(t) && Encode(s) == Encode(t)
    ensures s == t
  {
    EncodeReadsBack(s);
    EncodeReadsBack(t);
  }

  /** Without pairing the encoding does lose text: two lone surrogates collide. */
  lemma LoneSurrogatesCollide()
    ensures Encode([0xD800]) == Encode([0xD801])
  {
    assert Encode([0xD800]) == [0xEF, 0xBF, 0xBD] + Encode([]);
    assert Encode([0xD801]) == [0xEF, 0xBF, 0xBD] + Encode([]);
  }

  lemma {:induction false} PairedConcat(a: Str, b: Str)
    requires Paired(a) && Paired(b)
    ensures Paired(a + b)
  {
    if a == [] {
      assert a + b == b;
    } else if |a| > 1 && IsLead(a[0]) && IsTrail(a[1]) {
      PairedConcat(a[2..], b);
      assert (a + b)[2..] == a[2..] + b;
    } else {
      PairedConcat(a[1..], b);
      assert (a + b)[1..] == a[1..] + b;
    }
  }

  lemma {:induction false} PairedPlain(t: Str)
    requires forall i | 0 <= i < |t| :: !IsLead(t[i]) && !IsTrail(t[i])
    ensures Paired(t)
  {
    if t != [] {
      PairedPlain(t[1..]);
    }
  }

  lemma {:induction false} CleanPaired(t: Str)
    requires Clean(t)
    ensures Paired(t)
  {
    if t == [] {
    } else if |t| > 1 && IsLead(t[0]) && IsTrail(t[1]) {
      CleanPaired(t[2..]);
    } else {
      CleanPaired(t[1..]);
    }
  }

  lemma {:induction false} PairedParts(a: Str, b: Str)
    requires Paired(a + b) && (b == [] || !IsTrail(b[0]))
    ensures Paired(a) && Paired(b)
  {
    var t := a + b;
    if a == [] {
      assert t == b;
    } else if |a| > 1 && IsLead(a[0]) && IsTrail(a[1]) {
      assert t[2..] == a[2..] + b;
      PairedParts(a[2..], b);
    } else {
      assert t[0] == a[0] && t[1..] == a[1..] + b;
      assert |a| > 1 ==> t[1] == a[1];
      assert |a| == 1 && |t| > 1 ==> t[1] == b[0];
      PairedParts(a[1..], b);
    }
  }

  lemma PlainPointPaired(cp: nat, rest: Bytes)
    requires cp < 0x10000 && !IsLead(cp as Unit) && !IsTrail(cp as Unit) && Paired(Decode(rest))
    ensures Paired(Decode(EncodePoint(cp) + rest))
  {
    DecodeStep(cp, rest);
    PairedPlain([cp as Unit]);
    PairedConcat([cp as Unit], Decode(rest));
  }

  lemma PairPointPaired(hi: Unit, lo: Unit, rest: Bytes)
    requires IsLead(hi) && IsTrail(lo) && Paired(Decode(rest))
    ensures Paired(Decode(EncodePoint(PairPoint(hi, lo)) + rest))
  {
    DecodeStep(PairPoint(hi, lo), rest);
    PairUnits(hi, lo);
    PairedConcat([hi, lo], Decode(rest));
  }

  lemma FirstPoint(t: Str, cp: nat)
    requires t != [] && !(|t| > 1 && IsLead(t[0]) && IsTrail(t[1]))
    requires cp == if IsLead(t[0]) || IsTrail(t[0]) then 0xFFFD else t[0] as int
    ensures Encode(t) == EncodePoint(cp) + Encode(t[1..])
  {
    assert EncodePoint(0xFFFD) == [0xEF, 0xBF, 0xBD];
  }

  lemma {:induction false} DecodedPaired(t: Str)
    ensures Paired(Decode(Encode(t)))
  {
    if t == [] {
    } else if |t| > 1 && IsLead(t[0]) && IsTrail(t[1]) {
      hide Decode, EncodePoint;
      DecodedPaired(t[2..]);
      PairPointPaired(t[0], t[1], Encode(t[2..]));
    } else {
      var cp := if IsLead(t[0]) || IsTrail(t[0]) then 0xFFFD else t[0] as int;
      hide Decode, EncodePoint;
      DecodedPaired(t[1..]);
      FirstPoint(t, cp);
      PlainPointPaired(cp, Encode(t[1..]));
    }
  }

  /** Text survives storage as UTF-8 exactly when its surrogates are paired. */
  lemma RoundTripExactlyPaired(t: Str)
    ensures Decode(Encode(t)) == t <==> Paired(t)
  {
    DecodedPaired(t);
    if Paired(t) {
      EncodeReadsBack(t);
    }
  }

  /** ASCII passes through byte for byte. */
  lemma {:induction false} EncodeAscii(a: Str, t: Str)
    requires forall i | 0 <= i < |a| :: a[i] < 0x80
    ensures |Encode(a + t)| >= |a| && forall i | 0 <= i < |a| :: Encode(a + t)[i] as int == a[i] as int
  {
    if a != [] {
      EncodeAscii(a[1..], t);
      assert (a + t)[1..] == a[1..] + t;
      assert Encode(a + t) == [a[0] as Byte] + Encode(a[1..] + t);
    }
  }
}
