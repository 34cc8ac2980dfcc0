/** The text a command fingerprint is taken of, and what its bytes determine. */
module Fingerprint {
  import opened Text
  import opened Json
  import opened JsonClean
  import opened Canonical
  import opened CanonicalTrees
  import opened CanonicalMeaning
  import opened Utf8

  const NAMESPACE: Str := Ascii("business-finlynq.command-fingerprint")

  /** One of `a-z 0-9`. */
  predicate LowerAlnum(c: Unit) {
    97 <= c <= 122 || IsDigit(c)
  }

  /** `/^[a-z0-9][a-z0-9._\/-]{0,127}$/` */
  predicate Component(s: Str) {
    && 1 <= |s| <= 128 && LowerAlnum(s[0])
    && forall i | 0 <= i < |s| :: LowerAlnum(s[i]) || s[i] in {46, 95, 47, 45}
  }

  const LETTERS: Str := Ascii("abcdefghijklm") + Ascii("nopqrstuvwxyz")
  const DIGITS: Str := Ascii("0123456789")

  lemma LettersInOrder()
    ensures |LETTERS| == 26 && forall i | 0 <= i < 26 :: LETTERS[i] as int == 97 + i
  {
    var first, second := Ascii("abcdefghijklm"), Ascii("nopqrstuvwxyz");
    assert |first| == 13 && forall i | 0 <= i < 13 :: first[i] as int == 97 + i;
    assert |second| == 13 && forall i | 0 <= i < 13 :: second[i] as int == 110 + i;
    forall i | 0 <= i < 26 ensures LETTERS[i] as int == 97 + i {
      assert LETTERS[i] == if i < 13 then first[i] else second[i - 13];
    }
  }

  lemma DigitsInOrder()
    ensures |DIGITS| == 10 && forall i | 0 <= i < 10 :: DIGITS[i] as int == 48 + i
  {
  }

  lemma LowerAlnumExactly(c: Unit)
    ensures LowerAlnum(c) <==> c in LETTERS || c in DIGITS
  {
    LettersInOrder();
    DigitsInOrder();
    hide LETTERS, DIGITS;
    if 97 <= c <= 122 {
      assert LETTERS[c as int - 97] == c;
    }
    if IsDigit(c) {
      assert DIGITS[c as int - 48] == c;
    }
  }

  /** A component has one to 128 units, letters, digits and four signs, no sign first. */
  lemma ComponentExactly(s: Str)
    ensures Component(s) <==>
      && 0 < |s| < 129 && (s[0] in LETTERS || s[0] in DIGITS)
      && forall i | 0 <= i < |s| :: s[i] in LETTERS || s[i] in DIGITS || s[i] in Ascii("._/-")
  {
    SignsSpelled();
    forall i | 0 <= i < |s| ensures LowerAlnum(s[i]) <==> s[i] in LETTERS || s[i] in DIGITS {
      LowerAlnumExactly(s[i]);
    }
    hide LowerAlnum, LETTERS, DIGITS, Ascii;
  }

  lemma SignsSpelled()
    ensures forall c: Unit :: c in Ascii("._/-") <==> c in {46, 95, 47, 45}
  {
    var signs := Ascii("._/-");
    assert signs[0] == 46 && signs[1] == 95 && signs[2] == 47 && signs[3] == 45;
  }

  const VERSION_LABEL: Str := Ascii("version=")
  const DOMAIN_LABEL: Str := Ascii("domain=")
  const PAYLOAD_LABEL: Str := Ascii("payload=")

  function Preimage(version: Str, domain: Str, payload: Str): Str {
    Join([NAMESPACE, VERSION_LABEL + version, DOMAIN_LABEL + domain, PAYLOAD_LABEL + payload], 10)
  }

  datatype Refusal = BadDomain | BadVersion | BadPayload(why: Fault) | NothingToSign
  datatype Result = Ok(fingerprint: Str) | Err(why: Refusal)

  datatype Payload = Canonical(t: Str) | Unserializable(why: Refusal)

  /** `canonicalCommandSerialization`: a fresh ancestor set; a value that leaves no text is
      refused, as is one that the serialiser throws on. */
  method CanonicalCommandSerialization(value: JsValue, ghost heap: set<Cell>) returns (r: Payload)
    requires Graph(heap) && Within(value, heap)
    ensures r == match Serialized(value, {}, heap)
                 case Text(t) => Canonical(t)
                 case Absent => Unserializable(NothingToSign)
                 case Throw(why) => Unserializable(BadPayload(why))
  {
    var ancestors := new AncestorSet();
    var serialized := SerializeCanonicalValue(value, ancestors, heap);
    match serialized
    case Text(t) => return Canonical(t);
    case Absent => return Unserializable(NothingToSign);
    case Throw(why) => return Unserializable(BadPayload(why));
  }

  method CreateCommandFingerprint(sha256Hex: Bytes -> Str, domain: Str, payload: JsValue, version: Str,
                                  ghost heap: set<Cell>)
    returns (r: Result)
    requires Graph(heap) && Within(payload, heap)
    ensures r.Ok? <==> Component(domain) && Component(version) && Serialized(payload, {}, heap).Text?
    ensures r.Ok? ==> r.fingerprint == sha256Hex(Encode(Preimage(version, domain, Serialized(payload, {}, heap).t)))
    ensures r.Err? ==>
      r.why == if !Component(domain) then BadDomain
               else if !Component(version) then BadVersion
               else if Serialized(payload, {}, heap).Absent? then NothingToSign
               else BadPayload(Serialized(payload, {}, heap).why)
  {
    if !Component(domain) {
      return Err(BadDomain);
    }
    if !Component(version) {
      return Err(BadVersion);
    }
    var serialized := CanonicalCommandSerialization(payload, heap);
    match serialized
    case Unserializable(why) => return Err(why);
    case Canonical(t) => return Ok(sha256Hex(Encode(Preimage(version, domain, t))));
  }

  // ----------------------------------------------------------- four lines

  lemma {:induction false} CleanNoNewline(t: Str)
    requires Clean(t)
    ensures 10 !in t
  {
    if t == [] {
    } else if |t| > 1 && IsLead(t[0]) && IsTrail(t[1]) {
      CleanNoNewline(t[2..]);
      assert t == [t[0], t[1]] + t[2..];
    } else {
      CleanNoNewline(t[1..]);
      assert t == [t[0]] + t[1..];
    }
  }

  /** ASCII on one line. */
  predicate Plain(t: Str) {
    forall i | 0 <= i < |t| :: t[i] < 0x80 && t[i] != 10
  }

  lemma NamespacePlain()
    ensures Plain(NAMESPACE)
  {
  }

  lemma LabelsPlain()
    ensures Plain(VERSION_LABEL) && Plain(DOMAIN_LABEL) && Plain(PAYLOAD_LABEL)
  {
  }

  lemma ComponentPlain(head: Str, t: Str)
    requires Plain(head) && Component(t)
    ensures Plain(head + t)
  {
  }

  lemma PlainLine(t: Str)
    requires Plain(t)
    ensures 10 !in t && Paired(t) && Paired(t + [10])
  {
    PairedPlain(t);
    PairedPlain(t + [10]);
  }

  lemma PayloadLine(head: Str, payload: Str)
    requires Plain(head) && Clean(payload)
    ensures 10 !in head + payload && Paired(head + payload)
  {
    CleanNoNewline(payload);
    CleanPaired(payload);
    PlainLine(head);
    PairedConcat(head, payload);
  }

  /** The preimage is always exactly these four lines. */
  lemma FourLines(version: Str, domain: Str, payload: Str)
    requires Component(version) && Component(domain) && Clean(payload)
    ensures Split(Preimage(version, domain, payload), 10) ==
            [NAMESPACE, VERSION_LABEL + version, DOMAIN_LABEL + domain, PAYLOAD_LABEL + payload]
  {
    hide Split, Join, Component, Clean, Plain, Paired, NAMESPACE, VERSION_LABEL, DOMAIN_LABEL, PAYLOAD_LABEL;
    NamespacePlain();
    LabelsPlain();
    ComponentPlain(VERSION_LABEL, version);
    ComponentPlain(DOMAIN_LABEL, domain);
    PlainLine(NAMESPACE);
    PlainLine(VERSION_LABEL + version);
    PlainLine(DOMAIN_LABEL + domain);
    PayloadLine(PAYLOAD_LABEL, payload);
    SplitJoin([NAMESPACE, VERSION_LABEL + version, DOMAIN_LABEL + domain, PAYLOAD_LABEL + payload], 10);
  }

  lemma PreimagePaired(version: Str, domain: Str, payload: Str)
    requires Component(version) && Component(domain) && Clean(payload)
    ensures Paired(Preimage(version, domain, payload))
  {
    hide Join, Component, Clean, Plain, Paired, NAMESPACE, VERSION_LABEL, DOMAIN_LABEL, PAYLOAD_LABEL;
    NamespacePlain();
    LabelsPlain();
    ComponentPlain(VERSION_LABEL, version);
    ComponentPlain(DOMAIN_LABEL, domain);
    PlainLine(NAMESPACE);
    PlainLine(VERSION_LABEL + version);
    PlainLine(DOMAIN_LABEL + domain);
    PayloadLine(PAYLOAD_LABEL, payload);
    LinesPaired(NAMESPACE, VERSION_LABEL + version, DOMAIN_LABEL + domain, PAYLOAD_LABEL + payload);
  }

  lemma LinesPaired(a: Str, b: Str, c: Str, d: Str)
    requires Paired(a + [10]) && Paired(b + [10]) && Paired(c + [10]) && Paired(d)
    ensures Paired(Join([a, b, c, d], 10))
  {
    hide Join, Paired;
    JoinFour(a, b, c, d);
    PairedConcat(a + [10], b + [10]);
    PairedConcat(a + [10] + (b + [10]), c + [10]);
    PairedConcat(a + [10] + (b + [10]) + (c + [10]), d);
    assert a + [10] + (b + [10]) + (c + [10]) + d == a + [10] + b + [10] + c + [10] + d;
  }

  lemma JoinFour(a: Str, b: Str, c: Str, d: Str)
    ensures Join([a, b, c, d], 10) == a + [10] + b + [10] + c + [10] + d
  {
    var parts := [a, b, c, d];
    assert parts[1..] == [b, c, d] && parts[1..][1..] == [c, d] && parts[1..][1..][1..] == [d];
    assert Join([d], 10) == d;
    assert Join([c, d], 10) == c + [10] + d by { assert [c, d][1..] == [d]; }
    assert Join([b, c, d], 10) == b + [10] + (c + [10] + d) by { assert [b, c, d][1..] == [c, d]; }
  }

  /** The hashed bytes determine version, domain and payload text. */
  lemma BytesDetermineParts(v1: Str, d1: Str, p1: Str, v2: Str, d2: Str, p2: Str)
    requires Component(v1) && Component(d1) && Clean(p1)
    requires Component(v2) && Component(d2) && Clean(p2)
    requires Encode(Preimage(v1, d1, p1)) == Encode(Preimage(v2, d2, p2))
    ensures v1 == v2 && d1 == d2 && p1 == p2
  {
    hide Encode, Preimage, Component, Clean, VERSION_LABEL, DOMAIN_LABEL, PAYLOAD_LABEL;
    PreimagePaired(v1, d1, p1);
    PreimagePaired(v2, d2, p2);
    EncodeInjective(Preimage(v1, d1, p1), Preimage(v2, d2, p2));
    FourLines(v1, d1, p1);
    FourLines(v2, d2, p2);
    SameAfter(VERSION_LABEL, v1, v2);
    SameAfter(DOMAIN_LABEL, d1, d2);
    SameAfter(PAYLOAD_LABEL, p1, p2);
  }

  lemma SomethingKept(t: Tree)
    requires !t.Nothing?
    ensures Norm(t).Kept?
  {
  }

  /** Two accepted commands are hashed over the same bytes exactly when version and
      domain are equal and the payloads agree as data. */
  lemma SameBytesExactlySameCommand(
    v1: Str, d1: Str, payload1: JsValue, a: Tree, v2: Str, d2: Str, payload2: JsValue, b: Tree, heap: set<Cell>)
    requires Graph(heap) && Within(payload1, heap) && Within(payload2, heap)
    requires Component(v1) && Component(d1) && Component(v2) && Component(d2)
    requires Unfolds(payload1, a, heap) && !a.Nothing? && Unfolds(payload2, b, heap) && !b.Nothing?
    ensures Serialized(payload1, {}, heap).Text? && Serialized(payload2, {}, heap).Text?
    ensures Encode(Preimage(v1, d1, Serialized(payload1, {}, heap).t))
            == Encode(Preimage(v2, d2, Serialized(payload2, {}, heap).t))
            <==> v1 == v2 && d1 == d2 && Same(a, b)
  {
    hide Encode, Preimage, Component, Clean, Graph, Unfolds, Serialized, Same, Norm, Print;
    SomethingKept(a);
    SomethingKept(b);
    SerializesExactlyUnfoldings(payload1, heap);
    SerializesExactlyUnfoldings(payload2, heap);
    SameTextExactlySame(payload1, payload2, a, b, heap);
    PrintClean(Norm(a).val);
    PrintClean(Norm(b).val);
    var p1, p2 := Serialized(payload1, {}, heap).t, Serialized(payload2, {}, heap).t;
    if Encode(Preimage(v1, d1, p1)) == Encode(Preimage(v2, d2, p2)) {
      BytesDetermineParts(v1, d1, p1, v2, d2, p2);
    }
  }
}
