/** Talking to the malware scanner (src/security/evidence-scanner.ts): the framed stream
    that is written, and the reply that is collected until it settles. */
module Scanner {
  import opened Text
  import opened Utf8

  const CHUNK: nat := 65536

  // ------------------------------------------------------------------ framing

  /** `writeUInt32BE` */
  function BigEndian(n: nat): Bytes
    requires n < 0x1_0000_0000
  {
    [(n / 0x100_0000) as Byte, (n / 0x1_0000 % 256) as Byte, (n / 256 % 256) as Byte, (n % 256) as Byte]
  }

  function Number(b: Bytes): nat
    requires |b| == 4
  {
    0x100_0000 * b[0] as nat + 0x1_0000 * b[1] as nat + 256 * b[2] as nat + b[3] as nat
  }

  lemma BigEndianReadsBack(n: nat)
    requires n < 0x1_0000_0000
    ensures Number(BigEndian(n)) == n
  {
    Base256(n);
    Base256(n / 256);
    Base256(n / 0x1_0000);
    assert n / 256 / 256 == n / 0x1_0000 && n / 0x1_0000 / 256 == n / 0x100_0000;
  }

  lemma Base256(n: nat)
    ensures n == 256 * (n / 256) + n % 256
  {
  }

  /** The chunks from an offset on, each behind its length, and the closing zero. */
  function Framed(bytes: Bytes): Bytes {
    if bytes == [] then BigEndian(0)
    else
      var size := if |bytes| < CHUNK then |bytes| else CHUNK;
      BigEndian(size) + bytes[..size] + Framed(bytes[size..])
  }

  /** What a scanner takes from a stream: chunks until the zero, and what follows. */
  datatype Taken = Broken | Taken(chunks: seq<Bytes>, rest: Bytes)

  function Take(stream: Bytes): Taken {
    if |stream| < 4 then Broken
    else
      var size := Number(stream[..4]);
      if size == 0 then Taken([], stream[4..])
      else if |stream| < 4 + size then Broken
      else match Take(stream[4 + size..])
        case Broken => Broken
        case Taken(chunks, rest) => Taken([stream[4..4 + size]] + chunks, rest)
  }

  function Concat(chunks: seq<Bytes>): Bytes {
    if chunks == [] then [] else chunks[0] + Concat(chunks[1..])
  }

  predicate Sized(chunks: seq<Bytes>) {
    forall i | 0 <= i < |chunks| :: 1 <= |chunks[i]| <= CHUNK
  }

  lemma TakeStep(chunk: Bytes, more: Bytes)
    requires 1 <= |chunk| <= CHUNK
    ensures Take(BigEndian(|chunk|) + chunk + more) ==
            match Take(more)
            case Broken => Broken
            case Taken(chunks, rest) => Taken([chunk] + chunks, rest)
  {
    hide BigEndian, Number;
    var stream := BigEndian(|chunk|) + chunk + more;
    BigEndianLength(|chunk|);
    BigEndianReadsBack(|chunk|);
    assert stream[..4] == BigEndian(|chunk|);
    assert stream[4..4 + |chunk|] == chunk && stream[4 + |chunk|..] == more;
  }

  lemma BigEndianLength(n: nat)
    requires n < 0x1_0000_0000
    ensures |BigEndian(n)| == 4
  {
  }

  lemma TakeEnd(rest: Bytes)
    ensures Take(BigEndian(0) + rest) == Taken([], rest)
  {
    hide BigEndian, Number;
    BigEndianLength(0);
    BigEndianReadsBack(0);
    assert (BigEndian(0) + rest)[..4] == BigEndian(0) && (BigEndian(0) + rest)[4..] == rest;
  }

  /** Any bytes, framed, are read back exactly, in chunks of 1 to 65536 bytes, and reading
      stops where the frame stops. */
  lemma {:induction false} FramedReadsBack(bytes: Bytes, rest: Bytes)
    ensures Take(Framed(bytes) + rest).Taken? && Take(Framed(bytes) + rest).rest == rest
    ensures Sized(Take(Framed(bytes) + rest).chunks) && Concat(Take(Framed(bytes) + rest).chunks) == bytes
    decreases |bytes|
  {
    hide BigEndian, Take;
    if bytes == [] {
      TakeEnd(rest);
    } else {
      var size := if |bytes| < CHUNK then |bytes| else CHUNK;
      var chunk, tail := bytes[..size], bytes[size..];
      FramedReadsBack(tail, rest);
      TakeStep(chunk, Framed(tail) + rest);
      assert Framed(bytes) + rest == BigEndian(size) + chunk + (Framed(tail) + rest);
      var chunks := Take(Framed(tail) + rest).chunks;
      assert ([chunk] + chunks)[1..] == chunks;
      assert bytes == chunk + tail;
    }
  }

  /** A `z`-style command: `z`, the name, and a zero byte. */
  function CommandBytes(name: Bytes): Bytes {
    [122] + name + [0]
  }

  /** Read up to its zero byte, a command is the letter and the name. */
  lemma CommandReads(name: Bytes)
    requires forall i | 0 <= i < |name| :: name[i] != 0
    ensures var c := CommandBytes(name);
      |c| == |name| + 2 && c[0] == 122 && c[1..|c| - 1] == name && c[|c| - 1] == 0
    ensures forall i | 0 <= i < |CommandBytes(name)| - 1 :: CommandBytes(name)[i] != 0
  {
  }

  /** What the connected handler should have written. */
  function Stream(name: Bytes, bytes: Maybe<Bytes>): Bytes {
    CommandBytes(name) + if bytes.Some? then Framed(bytes.value) else []
  }

  class Socket {
    var written: Bytes

    constructor ()
      ensures written == []
    {
      written := [];
    }

    method Write(b: Bytes)
      modifies this
      ensures written == old(written) + b
    {
      written := written + b;
    }
  }

  /** The handler of `connect`: the command, then the loop over offsets. */
  method OnConnect(socket: Socket, name: Bytes, bytes: Maybe<Bytes>)
    modifies socket
    ensures socket.written == old(socket.written) + Stream(name, bytes)
  {
    hide BigEndian, Framed;
    socket.Write(CommandBytes(name));
    if bytes.Some? {
      var data := bytes.value;
      assert Rest(data, 0) == data;
      ghost var start := socket.written;
      var offset := 0;
      while offset < |data|
        invariant 0 <= offset && offset % CHUNK == 0
        invariant socket.written + Framed(Rest(data, offset)) == start + Framed(data)
        decreases |data| - offset
      {
        var end := if offset + CHUNK < |data| then offset + CHUNK else |data|;
        var chunk := data[offset..end];
        ghost var before := socket.written;
        socket.Write(BigEndian(|chunk|));
        socket.Write(chunk);
        FramedStep(data, offset, end);
        Regroup(before, BigEndian(|chunk|), chunk, Framed(Rest(data, offset + CHUNK)));
        offset := offset + CHUNK;
      }
      FramedNothing(Rest(data, offset));
      socket.Write(BigEndian(0));
      assert socket.written == start + Framed(data);
    }
  }

  function Rest(data: Bytes, offset: nat): Bytes {
    if offset <= |data| then data[offset..] else []
  }

  lemma FramedStep(data: Bytes, offset: nat, end: nat)
    requires offset < |data| && end == (if offset + CHUNK < |data| then offset + CHUNK else |data|)
    ensures Framed(Rest(data, offset)) ==
            BigEndian(end - offset) + data[offset..end] + Framed(Rest(data, offset + CHUNK))
  {
    hide BigEndian;
    var r := data[offset..];
    var size := if |r| < CHUNK then |r| else CHUNK;
    assert r[..size] == data[offset..end] && r[size..] == Rest(data, offset + CHUNK);
  }

  lemma FramedNothing(data: Bytes)
    requires data == []
    ensures Framed(data) == BigEndian(0)
  {
  }

  lemma Regroup(a: Bytes, b: Bytes, c: Bytes, d: Bytes)
    ensures a + b + c + d == a + (b + c + d)
  {
  }

  // -------------------------------------------------------------------- reply

  const LIMIT: nat := 2048

  datatype Reply = Text(t: Str) | Invalid | Incomplete | Unavailable | TimedOut

  datatype Event = Data(text: Str) | Error | End | Deadline

  function FirstZero(t: Str): (k: nat)
    ensures k <= |t| && (k < |t| ==> t[k] == 0) && forall i | 0 <= i < k :: t[i] != 0
  {
    if t == [] || t[0] == 0 then 0 else 1 + FirstZero(t[1..])
  }

  /** What one event settles, given the text so far; data may settle nothing. */
  function Settles(output: Str, e: Event): Maybe<Reply> {
    match e
    case Data(text) =>
      if |output + text| > LIMIT then Some(Invalid)
      else if FirstZero(output + text) < |output + text| then Some(Text((output + text)[..FirstZero(output + text)]))
      else None
    case Error => Some(Unavailable)
    case End => Some(Incomplete)
    case Deadline => Some(TimedOut)
  }

  /** The first event that settles decides. */
  function Outcome(output: Str, events: seq<Event>): Maybe<Reply>
    decreases |events|
  {
    if events == [] then None
    else if Settles(output, events[0]).Some? then Settles(output, events[0])
    else Outcome(if events[0].Data? then output + events[0].text else output, events[1..])
  }

  class Exchange {
    var output: Str
    var finished: bool
    var reply: Maybe<Reply>
    /** How often the promise was settled. */
    var settlements: nat

    predicate Valid()
      reads this
    {
      (finished <==> reply.Some?) && settlements == (if finished then 1 else 0)
    }

    constructor ()
      ensures Valid() && output == [] && !finished
    {
      output, finished, reply, settlements := [], false, None, 0;
    }

    /** `finish`, behind its latch. */
    method Finish(r: Reply)
      requires Valid()
      modifies this`finished, this`reply, this`settlements
      ensures Valid() && finished && reply == if old(finished) then old(reply) else Some(r)
    {
      if finished { return; }
      finished := true;
      reply := Some(r);
      settlements := settlements + 1;
    }

    method Handle(e: Event)
      requires Valid()
      modifies this
      ensures Valid()
      ensures output == if e.Data? then old(output) + e.text else old(output)
      ensures reply == if old(reply).Some? then old(reply) else Settles(old(output), e)
    {
      match e
      case Data(text) =>
        output := output + text;
        if |output| > LIMIT {
          Finish(Invalid);
          return;
        }
        var terminator := FirstZero(output);
        if terminator < |output| {
          Finish(Text(output[..terminator]));
        }
      case Error => Finish(Unavailable);
      case End => Finish(Incomplete);
      case Deadline => Finish(TimedOut);
    }

    /** Whatever happens on the socket, the promise settles at most once, by the first
        event that settles. */
    method Listen(events: seq<Event>)
      requires Valid() && !finished && output == []
      modifies this
      ensures Valid() && reply == Outcome([], events) && settlements <= 1
    {
      for i := 0 to |events|
        invariant Valid()
        invariant if finished then reply == Outcome([], events) else Outcome(output, events[i..]) == Outcome([], events)
      {
        assert events[i..][0] == events[i] && events[i..][1..] == events[i + 1..];
        Handle(events[i]);
      }
    }
  }

  // ------------------------------------------------------ splitting the reply

  function Pieces(chunks: seq<Str>): seq<Event> {
    seq(|chunks|, i requires 0 <= i < |chunks| => Data(chunks[i])) + [End]
  }

  function Joined(chunks: seq<Str>): Str {
    if chunks == [] then [] else chunks[0] + Joined(chunks[1..])
  }

  /** What a reply of at most the limit means, however it comes. */
  function Meaning(t: Str): Reply {
    if FirstZero(t) < |t| then Text(t[..FirstZero(t)]) else Incomplete
  }

  lemma FirstZeroPrefix(a: Str, b: Str)
    ensures FirstZero(a) < |a| ==> FirstZero(a + b) == FirstZero(a)
    ensures FirstZero(a) == |a| ==> FirstZero(a + b) >= |a|
  {
    var k := FirstZero(a + b);
    if k < |a| {
      assert (a + b)[k] == a[k];
    }
    if FirstZero(a) < |a| {
      assert (a + b)[FirstZero(a)] == 0;
    }
  }

  lemma PiecesStep(chunks: seq<Str>)
    requires chunks != []
    ensures Pieces(chunks)[0] == Data(chunks[0]) && Pieces(chunks)[1..] == Pieces(chunks[1..])
  {
  }

  lemma {:induction false} ShortReplyMeaning(output: Str, chunks: seq<Str>)
    requires FirstZero(output) == |output| && |output + Joined(chunks)| <= LIMIT
    ensures Outcome(output, Pieces(chunks)) == Some(Meaning(output + Joined(chunks)))
    decreases |chunks|
  {
    hide FirstZero;
    if chunks == [] {
      assert output + Joined(chunks) == output;
      assert Pieces(chunks) == [End];
    } else {
      PiecesStep(chunks);
      var next, rest := output + chunks[0], Joined(chunks[1..]);
      assert output + Joined(chunks) == next + rest;
      FirstZeroPrefix(next, rest);
      FirstZeroBound(next);
      if FirstZero(next) == |next| {
        ShortReplyMeaning(next, chunks[1..]);
      } else {
        assert (next + rest)[..FirstZero(next)] == next[..FirstZero(next)];
      }
    }
  }

  lemma FirstZeroBound(t: Str)
    ensures FirstZero(t) <= |t|
  {
  }

  lemma {:induction false} LongReplyInvalid(output: Str, chunks: seq<Str>)
    requires |output| <= LIMIT < |output + Joined(chunks)|
    requires FirstZero(output + Joined(chunks)) >= LIMIT
    ensures Outcome(output, Pieces(chunks)) == Some(Invalid)
    decreases |chunks|
  {
    hide FirstZero;
    MoreToCome(output, chunks);
    PiecesStep(chunks);
    var next, rest := output + chunks[0], Joined(chunks[1..]);
    assert output + Joined(chunks) == next + rest;
    if |next| <= LIMIT {
      FirstZeroPrefix(next, rest);
      FirstZeroBound(next);
      LongReplyInvalid(next, chunks[1..]);
    }
  }

  lemma MoreToCome(output: Str, chunks: seq<Str>)
    requires |output| < |output + Joined(chunks)|
    ensures chunks != []
  {
  }

  /** The result of a reply does not depend on how it is split. */
  ghost predicate SplitIrrelevant(t: Str) {
    forall a: seq<Str>, b: seq<Str> | Joined(a) == t && Joined(b) == t ::
      Outcome([], Pieces(a)) == Outcome([], Pieces(b))
  }

  /** That is so exactly for replies within the limit, and for longer ones whose first
      zero, if any, lies beyond it. */
  lemma SplitIrrelevantExactly(t: Str)
    ensures SplitIrrelevant(t) <==> |t| <= LIMIT || FirstZero(t) >= LIMIT
  {
    if |t| <= LIMIT || FirstZero(t) >= LIMIT {
      forall a: seq<Str>, b: seq<Str> | Joined(a) == t && Joined(b) == t
        ensures Outcome([], Pieces(a)) == Outcome([], Pieces(b))
      {
        hide Outcome, Pieces, Joined, FirstZero;
        WholeOutcome(t, a);
        WholeOutcome(t, b);
      }
    } else {
      SplitMatters(t);
    }
  }

  /** A reply over the limit with an early zero: whole it is invalid, cut at the limit not. */
  lemma SplitMatters(t: Str)
    requires |t| > LIMIT && FirstZero(t) < LIMIT
    ensures !SplitIrrelevant(t)
  {
    var a, b := [t], [t[..LIMIT], t[LIMIT..]];
    OnePiece(t);
    TwoPieces(t, t[..LIMIT], t[LIMIT..]);
    assert Joined(a) == t && Joined(b) == t;
  }

  lemma OnePiece(t: Str)
    requires |t| > LIMIT
    ensures Joined([t]) == t && Outcome([], Pieces([t])) == Some(Invalid)
  {
    hide FirstZero;
    PiecesStep([t]);
    assert [t][1..] == [] && [] + t == t && t + [] == t;
  }

  lemma TwoPieces(t: Str, first: Str, last: Str)
    requires t == first + last && |first| <= LIMIT && FirstZero(t) < |first|
    ensures Joined([first, last]) == t && Outcome([], Pieces([first, last])) != Some(Invalid)
  {
    assert [first, last][1..] == [last] && [last][1..] == [] && Joined([last]) == last;
    PiecesStep([first, last]);
    assert [] + first == first;
    assert first[FirstZero(t)] == t[FirstZero(t)];
  }

  lemma WholeOutcome(t: Str, chunks: seq<Str>)
    requires Joined(chunks) == t && (|t| <= LIMIT || FirstZero(t) >= LIMIT)
    ensures Outcome([], Pieces(chunks)) == Some(if |t| <= LIMIT then Meaning(t) else Invalid)
  {
    assert [] + t == t;
    if |t| <= LIMIT {
      ShortReplyMeaning([], chunks);
    } else {
      LongReplyInvalid([], chunks);
    }
  }
}
