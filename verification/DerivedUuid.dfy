/** Derived identifiers (`identityDerivedUuid` in src/security/identity-secret.ts): sixteen
    digest bytes, stamped in place with version and variant, and printed in groups. */
module DerivedUuid {
  import opened Text
  import opened Json
  import opened Utf8

  /** `(b & 0x0f) | 0x40` and `(b & 0x3f) | 0x80` */
  function Versioned(b: Byte): Byte {
    (b as int % 16 + 64) as Byte
  }

  function Varianted(b: Byte): Byte {
    (b as int % 64 + 128) as Byte
  }

  function Stamped(digest: Bytes): Bytes
    requires |digest| == 16
  {
    digest[6 := Versioned(digest[6])][8 := Varianted(digest[8])]
  }

  /** The two assignments into the digest buffer. */
  method Stamp(bytes: array<Byte>)
    requires bytes.Length == 16
    modifies bytes
    ensures bytes[..] == Stamped(old(bytes[..]))
  {
    bytes[6] := Versioned(bytes[6]);
    bytes[8] := Varianted(bytes[8]);
  }

  /** `toString("hex")` */
  function HexText(b: Bytes): (t: Str)
    ensures |t| == 2 * |b|
  {
    if b == [] then [] else [HexDigit(b[0] as int / 16), HexDigit(b[0] as int % 16)] + HexText(b[1..])
  }

  /** Groups of 8, 4, 4, 4 and 12 digits. */
  function Grouped(hex: Str): Str
    requires |hex| == 32
  {
    hex[..8] + [45] + hex[8..12] + [45] + hex[12..16] + [45] + hex[16..20] + [45] + hex[20..]
  }

  function UuidText(digest: Bytes): Str
    requires |digest| == 16
  {
    Grouped(HexText(Stamped(digest)))
  }

  lemma HexInjective(a: nat, b: nat)
    requires a < 16 && b < 16 && HexDigit(a) == HexDigit(b)
    ensures a == b
  {
  }

  lemma {:induction false} HexTextAt(b: Bytes, i: nat)
    requires i < |b|
    ensures HexText(b)[2 * i] == HexDigit(b[i] as int / 16) && HexText(b)[2 * i + 1] == HexDigit(b[i] as int % 16)
  {
    if i > 0 {
      HexTextAt(b[1..], i - 1);
      var rest := HexText(b[1..]);
      assert HexText(b)[2 * i] == rest[2 * (i - 1)] && HexText(b)[2 * i + 1] == rest[2 * (i - 1) + 1];
    }
  }

  lemma HexTextInjective(a: Bytes, b: Bytes)
    requires |a| == |b| && HexText(a) == HexText(b)
    ensures a == b
  {
    hide HexDigit;
    forall i | 0 <= i < |a| ensures a[i] == b[i] {
      HexTextAt(a, i);
      HexTextAt(b, i);
      HexInjective(a[i] as int / 16, b[i] as int / 16);
      HexInjective(a[i] as int % 16, b[i] as int % 16);
    }
  }

  lemma GroupedInjective(s: Str, t: Str)
    requires |s| == 32 && |t| == 32 && Grouped(s) == Grouped(t)
    ensures s == t
  {
    var g, h := Grouped(s), Grouped(t);
    GroupedParts(s, g);
    GroupedParts(t, h);
    assert s == s[..8] + s[8..12] + s[12..16] + s[16..20] + s[20..];
    assert t == t[..8] + t[8..12] + t[12..16] + t[16..20] + t[20..];
  }

  lemma GroupedParts(s: Str, g: Str)
    requires |s| == 32 && g == Grouped(s)
    ensures |g| == 36 && g[..8] == s[..8] && g[9..13] == s[8..12] && g[14..18] == s[12..16]
    ensures g[19..23] == s[16..20] && g[24..] == s[20..]
    ensures g[8] == g[13] == g[18] == g[23] == 45
  {
  }

  /** Equal but for the high four bits of byte 6 and the high two of byte 8. */
  predicate AgreeOutsideStamp(a: Bytes, b: Bytes)
    requires |a| == 16 && |b| == 16
  {
    && (forall i | 0 <= i < 16 && i != 6 && i != 8 :: a[i] == b[i])
    && a[6] as int % 16 == b[6] as int % 16 && a[8] as int % 64 == b[8] as int % 64
  }

  lemma StampedSame(a: Bytes, b: Bytes)
    requires |a| == 16 && |b| == 16
    ensures Stamped(a) == Stamped(b) <==> AgreeOutsideStamp(a, b)
  {
    var x, y := Stamped(a), Stamped(b);
    assert forall i | 0 <= i < 16 && i != 6 && i != 8 :: x[i] == a[i] && y[i] == b[i];
    assert x[6] == Versioned(a[6]) && y[6] == Versioned(b[6]) && x[8] == Varianted(a[8]) && y[8] == Varianted(b[8]);
  }

  /** Two digests get one identifier exactly when they agree outside the six stamped bits. */
  lemma SameUuidExactly(a: Bytes, b: Bytes)
    requires |a| == 16 && |b| == 16
    ensures UuidText(a) == UuidText(b) <==> AgreeOutsideStamp(a, b)
  {
    hide HexText, Grouped, Stamped, AgreeOutsideStamp;
    StampedLength(a);
    StampedLength(b);
    StampedSame(a, b);
    if UuidText(a) == UuidText(b) {
      GroupedInjective(HexText(Stamped(a)), HexText(Stamped(b)));
      HexTextInjective(Stamped(a), Stamped(b));
    }
  }

  lemma StampedLength(a: Bytes)
    requires |a| == 16
    ensures |Stamped(a)| == 16
  {
  }

  /** The identifier is a version 4, variant 1 UUID: thirteenth digit 4, seventeenth one of
      8, 9, a and b (section 4 of RFC 4122). */
  lemma UuidShape(digest: Bytes)
    requires |digest| == 16
    ensures var u := UuidText(digest);
            |u| == 36 && u[8] == u[13] == u[18] == u[23] == 45 && u[14] == 52 && u[19] in {56, 57, 97, 98}
  {
    var x := Stamped(digest);
    var h := HexText(x);
    HexTextAt(x, 6);
    HexTextAt(x, 8);
    GroupedParts(h, Grouped(h));
    assert Grouped(h)[14] == Grouped(h)[14..18][0] == h[12..16][0] == h[12];
    assert Grouped(h)[19] == Grouped(h)[19..23][0] == h[16..20][0] == h[16];
  }
}
