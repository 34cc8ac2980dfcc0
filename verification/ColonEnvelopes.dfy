/** Colon envelopes of identity and authentication data
    (src/security/identity-secret.ts). */
module ColonEnvelopes {
  import opened Text
  import opened Utf8
  import opened Base64
  import opened Contexts
  import opened Sealing

  function Prefix(c: Context): Str
    requires c.Identity? || c.Auth?
  {
    if c.Identity? then Ascii("idv1") else Ascii("authv1")
  }

  /** `[prefix, iv, ciphertext, tag].join(":")` in base64url. */
  function Colons(prefix: Str, iv: Bytes, box: Box): Str {
    Join([prefix, EncodeUrl(iv), EncodeUrl(box.ciphertext), EncodeUrl(box.tag)], 58)
  }

  datatype Pieces = Invalid | Pieces(iv: Str, ciphertext: Str, tag: Str)

  /** `const [prefix, iv, ciphertext, tag, extra] = envelope.split(":")` and its test. */
  function ParseColons(prefix: Str, text: Str): Pieces {
    var p := Split(text, 58);
    if p[0] != prefix || |p| < 4 || p[1] == [] || p[2] == [] || p[3] == [] || (|p| > 4 && p[4] != []) then Invalid
    else Pieces(p[1], p[2], p[3])
  }

  /** `decryptIdentityField` and `decryptAuthPayload`. */
  function OpenColons(open: Opener, key: Bytes, c: Context, text: Str): Read
    requires c.Identity? || c.Auth?
  {
    match ParseColons(Prefix(c), text)
    case Invalid => BadEnvelope
    case Pieces(iv, ciphertext, tag) =>
      Reading(open(key, Decode64(iv), Aad(c), Box(Decode64(ciphertext), Decode64(tag))))
  }

  lemma {:induction false} JoinSplit(s: Str, sep: Unit)
    ensures Join(Split(s, sep), sep) == s
    ensures forall i | 0 <= i < |Split(s, sep)| :: sep !in Split(s, sep)[i]
  {
    if s != [] {
      JoinSplit(s[1..], sep);
      var rest := Split(s[1..], sep);
      assert Join(rest, sep) == s[1..];
      if s[0] == sep {
        assert ([[]] + rest)[1..] == rest;
      } else {
        var parts := [[s[0]] + rest[0]] + rest[1..];
        assert parts[1..] == rest[1..];
        assert |rest| == 1 ==> Join(parts, sep) == [s[0]] + rest[0];
        assert |rest| > 1 ==> Join(parts, sep) == [s[0]] + (rest[0] + [sep] + Join(rest[1..], sep));
      }
    }
  }

  lemma JoinFour(a: Str, b: Str, c: Str, d: Str)
    ensures Join([a, b, c, d], 58) == a + [58] + (b + [58] + (c + [58] + d))
  {
    assert [a, b, c, d][1..] == [b, c, d] && [b, c, d][1..] == [c, d] && [c, d][1..] == [d];
    assert Join([d], 58) == d;
    assert Join([c, d], 58) == c + [58] + d;
    assert Join([b, c, d], 58) == b + [58] + (c + [58] + d);
  }

  /** Nothing follows the fourth piece, or a colon and then nothing or another colon. */
  predicate Ignored(tail: Str) {
    tail == [] || (tail[0] == 58 && (|tail| == 1 || tail[1] == 58))
  }

  predicate Piece(p: Str) {
    p != [] && 58 !in p
  }

  /** The texts that parse: the four joined pieces, and an ignored rest. */
  lemma ColonsAcceptExactly(prefix: Str, text: Str, iv: Str, ciphertext: Str, tag: Str)
    requires 58 !in prefix
    ensures ParseColons(prefix, text) == Pieces(iv, ciphertext, tag) <==>
            && Piece(iv) && Piece(ciphertext) && Piece(tag)
            && Join([prefix, iv, ciphertext, tag], 58) <= text
            && Ignored(text[|Join([prefix, iv, ciphertext, tag], 58)|..])
  {
    var four := Join([prefix, iv, ciphertext, tag], 58);
    if ParseColons(prefix, text) == Pieces(iv, ciphertext, tag) {
      ParsedHasForm(prefix, text);
    }
    if Piece(iv) && Piece(ciphertext) && Piece(tag) && four <= text && Ignored(text[|four|..]) {
      var tail := text[|four|..];
      assert text == four + tail;
      FormParses(prefix, iv, ciphertext, tag, tail);
    }
  }

  lemma FormParses(prefix: Str, iv: Str, ciphertext: Str, tag: Str, tail: Str)
    requires 58 !in prefix && Piece(iv) && Piece(ciphertext) && Piece(tag) && Ignored(tail)
    ensures ParseColons(prefix, Join([prefix, iv, ciphertext, tag], 58) + tail) == Pieces(iv, ciphertext, tag)
  {
    JoinFour(prefix, iv, ciphertext, tag);
    var d := tag + tail;
    var c := ciphertext + [58] + d;
    var b := iv + [58] + c;
    assert Join([prefix, iv, ciphertext, tag], 58) + tail == prefix + [58] + b;
    SplitStep(prefix, 58, b);
    SplitStep(iv, 58, c);
    SplitStep(ciphertext, 58, d);
    SplitTail(tag, tail);
  }

  lemma SplitTail(tag: Str, tail: Str)
    requires Piece(tag) && Ignored(tail)
    ensures var p := Split(tag + tail, 58); p[0] == tag && (|p| > 1 ==> p[1] == [])
  {
    if tail == [] {
      assert tag + tail == tag;
      SplitSingle(tag, 58);
    } else {
      assert tag + tail == tag + [58] + tail[1..];
      SplitStep(tag, 58, tail[1..]);
    }
  }

  lemma ParsedHasForm(prefix: Str, text: Str)
    requires ParseColons(prefix, text).Pieces?
    ensures var p := ParseColons(prefix, text);
            && Piece(p.iv) && Piece(p.ciphertext) && Piece(p.tag)
            && Join([prefix, p.iv, p.ciphertext, p.tag], 58) <= text
            && Ignored(text[|Join([prefix, p.iv, p.ciphertext, p.tag], 58)|..])
  {
    JoinSplit(text, 58);
    var p := Split(text, 58);
    FirstFour(p);
    var four := Join([p[0], p[1], p[2], p[3]], 58);
    if |p| > 4 {
      var rest := Join(p[4..], 58);
      assert text == four + ([58] + rest);
      assert |p| == 5 ==> rest == [];
      assert |p| > 5 ==> rest == [] + [58] + Join(p[5..], 58) by { assert p[4..][1..] == p[5..]; }
      assert text[|four|..] == [58] + rest;
    } else {
      assert p == [p[0], p[1], p[2], p[3]];
      assert text == four + [];
    }
  }

  lemma FirstFour(p: seq<Str>)
    requires |p| >= 4
    ensures |p| > 4 ==> Join(p, 58) == Join([p[0], p[1], p[2], p[3]], 58) + ([58] + Join(p[4..], 58))
  {
    JoinFour(p[0], p[1], p[2], p[3]);
    if |p| > 4 {
      assert p[1..][1..] == p[2..] && p[2..][1..] == p[3..] && p[3..][1..] == p[4..];
      var d := Join(p[4..], 58);
      FourAndMore(p[0], p[1], p[2], p[3], d);
      assert Join(p[3..], 58) == p[3] + [58] + d;
      assert Join(p[2..], 58) == p[2] + [58] + (p[3] + [58] + d);
      assert Join(p[1..], 58) == p[1] + [58] + (p[2] + [58] + (p[3] + [58] + d));
    }
  }

  lemma FourAndMore(a: Str, b: Str, c: Str, d: Str, e: Str)
    ensures a + [58] + (b + [58] + (c + [58] + (d + [58] + e))) == a + [58] + (b + [58] + (c + [58] + d)) + ([58] + e)
  {
  }

  lemma PrefixesDiffer(c: Context, d: Context)
    requires (c.Identity? || c.Auth?) && (d.Identity? || d.Auth?)
    ensures Prefix(c) == Prefix(d) <==> (c.Identity? <==> d.Identity?)
    ensures 58 !in Prefix(c)
  {
    assert |Ascii("idv1")| == 4 && |Ascii("authv1")| == 6;
  }

  /** An envelope that was written parses under its own prefix unless the plaintext was
      empty, and never under another. */
  lemma ColonsReadBack(prefix: Str, other: Str, iv: Bytes, box: Box)
    requires 58 !in prefix && iv != [] && box.tag != []
    ensures ParseColons(other, Colons(prefix, iv, box)) ==
            if other != prefix || box.ciphertext == [] then Invalid
            else Pieces(EncodeUrl(iv), EncodeUrl(box.ciphertext), EncodeUrl(box.tag))
  {
    EncodeUrlUnits(iv);
    EncodeUrlUnits(box.ciphertext);
    EncodeUrlUnits(box.tag);
    SplitFour(prefix, EncodeUrl(iv), EncodeUrl(box.ciphertext), EncodeUrl(box.tag));
  }

  lemma SplitFour(a: Str, b: Str, c: Str, d: Str)
    requires 58 !in a && 58 !in b && 58 !in c && 58 !in d
    ensures Split(Join([a, b, c, d], 58), 58) == [a, b, c, d]
  {
    SplitJoin([a, b, c, d], 58);
  }

  /** Encrypt, store as a colon envelope, decrypt. The text comes back exactly in its own
      context under its own key, when it is not empty and its surrogates are paired; the
      other prefix, an empty text, and any other context or key are refused. */
  lemma ColonRoundTrip(open: Opener, key: Bytes, key1: Bytes, iv: Bytes, c: Context, d: Context, t: Str, box: Box)
    requires (c.Identity? || c.Auth?) && (d.Identity? || d.Auth?) && WellFormed(c) && WellFormed(d)
    requires Authentic(open, key, iv, Aad(c), Utf8.Encode(t), box)
    ensures OpenColons(open, key1, d, Colons(Prefix(c), iv, box)) ==
            if (c.Identity? != d.Identity?) || t == [] then BadEnvelope
            else if d != c || key1 != key then NotAuthentic
            else Text(Utf8.Decode(Utf8.Encode(t)))
    ensures OpenColons(open, key, c, Colons(Prefix(c), iv, box)) == Text(t) <==> t != [] && Paired(t)
  {
    hide Aad, ParseColons, WellFormed, Prefix, Split, Join, EncodeUrl, Decode64, Utf8.Encode, Utf8.Decode, Paired;
    PrefixesDiffer(c, d);
    PrefixesDiffer(d, c);
    EncodedEmpty(t);
    ColonsReadBack(Prefix(c), Prefix(d), iv, box);
    ColonsReadBack(Prefix(c), Prefix(c), iv, box);
    EncodingsReadBack(iv);
    EncodingsReadBack(box.ciphertext);
    EncodingsReadBack(box.tag);
    RoundTripExactlyPaired(t);
    if Aad(c) == Aad(d) {
      AadDeterminesContext(c, d);
    }
  }

  lemma EncodedEmpty(t: Str)
    ensures Utf8.Encode(t) == [] <==> t == []
  {
  }
}
