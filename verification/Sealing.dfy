/** Authenticated encryption as a parameter. AES-256-GCM is any function `open`, and
    `Authentic` says what one call of the cipher promised about one box. */
module Sealing {
  import opened Text
  import opened Utf8

  datatype Box = Box(ciphertext: Bytes, tag: Bytes)
  datatype Opened = Rejected | Plain(bytes: Bytes)

  /** Key, initialisation vector, additional data and box to plaintext. */
  type Opener = (Bytes, Bytes, Bytes, Box) -> Opened

  /** What sealing `plain` gave: it opens under its own key, vector and additional data,
      and under nothing else. */
  ghost predicate Authentic(open: Opener, key: Bytes, iv: Bytes, aad: Bytes, plain: Bytes, box: Box) {
    && |iv| == 12 && |box.tag| == 16 && |box.ciphertext| == |plain|
    && open(key, iv, aad, box) == Plain(plain)
    && forall k, i, a :: (k != key || i != iv || a != aad) ==> open(k, i, a, box) == Rejected
  }

  datatype Read = BadEnvelope | BadMetadata | BadKey | NotAuthentic | Text(t: Str)

  function Reading(o: Opened): Read {
    match o
    case Rejected => NotAuthentic
    case Plain(bytes) => Text(Utf8.Decode(bytes))
  }
}
