/** Idempotency keys: what a client may have sent, and a server that heeds them. */
module Keys {
  import opened Text

  datatype Request = Request(key: Str, url: Str, body: Str)

  /** Requests with one key are one request. */
  predicate OneCommandPerKey(sent: seq<Request>) {
    forall i, j | 0 <= i < |sent| && 0 <= j < |sent| && sent[i].key == sent[j].key :: sent[i] == sent[j]
  }

  lemma SentOneMore(sent: seq<Request>, r: Request)
    requires OneCommandPerKey(sent)
    requires forall i | 0 <= i < |sent| && sent[i].key == r.key :: sent[i] == r
    ensures OneCommandPerKey(sent + [r])
  {
  }

  predicate Seen(applied: seq<Request>, key: Str) {
    exists i | 0 <= i < |applied| :: applied[i].key == key
  }

  /** What a server takes into effect that ignores a key it has seen. */
  function Applied(arrivals: seq<Request>): seq<Request> {
    if arrivals == [] then []
    else
      var before, last := Applied(arrivals[..|arrivals| - 1]), arrivals[|arrivals| - 1];
      if Seen(before, last.key) then before else before + [last]
  }

  /** Whatever arrives of what was sent, in any order and however often: each key takes
      effect at most once, and every arrived request is the one that took effect. */
  lemma {:induction false} AppliedOnce(arrivals: seq<Request>, sent: seq<Request>)
    requires OneCommandPerKey(sent) && forall i | 0 <= i < |arrivals| :: arrivals[i] in sent
    ensures forall i, j | 0 <= i < j < |Applied(arrivals)| :: Applied(arrivals)[i].key != Applied(arrivals)[j].key
    ensures forall r <- Applied(arrivals) :: r in arrivals
    ensures forall r <- arrivals :: r in Applied(arrivals)
  {
    if arrivals != [] {
      var rest, last := arrivals[..|arrivals| - 1], arrivals[|arrivals| - 1];
      var before := Applied(rest);
      AppliedOnce(rest, sent);
      assert arrivals == rest + [last];
      if Seen(before, last.key) {
        var i :| 0 <= i < |before| && before[i].key == last.key;
        assert before[i] in rest;
        var m :| 0 <= m < |rest| && rest[m] == before[i];
        assert rest[m] == arrivals[m] && last == arrivals[|arrivals| - 1];
        SameKeySame(sent, before[i], last);
      }
    }
  }

  lemma SameKeySame(sent: seq<Request>, a: Request, b: Request)
    requires OneCommandPerKey(sent) && a in sent && b in sent && a.key == b.key
    ensures a == b
  {
    var i :| 0 <= i < |sent| && sent[i] == a;
    var j :| 0 <= j < |sent| && sent[j] == b;
  }
}
